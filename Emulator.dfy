/**
 The receive side of the emulated adapter as the firmware runs it: the global
 receive buffer and its cursor, updated byte by byte as write events arrive,
 and the notifications sent back on the transmit characteristic.

 Each method is proved against the pure model: a write event changes the
 abstract state exactly as `FeedAll` does, and what has been notified is
 always the dispatcher's answer to every command handed over so far.
 */
module Emulator {
  import opened Dispatcher
  import opened Accumulator

  /** The width of the receive cursor. */
  newtype uint8 = x: int | 0 <= x < 256

  /** The receive callbacks together with the state they update: the receive
      buffer, its cursor, and the log of notified payloads. */
  class RxCallbacks {
    /** The characters of the command in progress; a NUL is written after the
        last one before the command is dispatched. */
    var rxBuffer: array<char>
    /** The number of characters stored for the command in progress. */
    var rxIndex: uint8
    /** Every payload notified on the transmit characteristic, in order. */
    var notifications: seq<string>
    /** The commands handed to the dispatcher so far, as stored before their NUL. */
    ghost var commands: seq<string>

    /** The cursor stays inside the buffer with room for the NUL, and every
        dispatched command has been answered, in order. */
    ghost predicate Valid()
      reads this
    {
      rxBuffer.Length == MaxCmdLen && rxIndex as int <= MaxCmdLen - 1
      && notifications == Answers(commands)
    }

    /** The abstract state of the pure model. */
    ghost function State(): RxState
      requires Valid()
      reads this, rxBuffer
    {
      RxState(rxBuffer[..rxIndex], commands)
    }

    /** Power-up: a zero-filled buffer, an empty command, nothing sent. */
    constructor ()
      ensures Valid() && fresh(rxBuffer)
      ensures State() == Init && notifications == []
    {
      rxBuffer := new char[MaxCmdLen](_ => NUL);
      rxIndex := 0;
      notifications := [];
      commands := [];
    }

    /** A write event carrying `data`: each byte is fed to the accumulator in
        order, and every command it completes is answered. */
    method OnWrite(data: string)
      requires Valid()
      modifies this, rxBuffer
      ensures Valid() && rxBuffer == old(rxBuffer)
      ensures State() == FeedAll(old(State()), data)
      ensures notifications == Answers(FeedAll(old(State()), data).dispatched)
    {
      ghost var start := State();
      for i := 0 to |data|
        invariant Valid() && rxBuffer == old(rxBuffer)
        invariant State() == FeedAll(start, data[..i])
      {
        Receive(data[i]);
        FeedAllAppend(start, data[..i], [data[i]]);
        assert data[..i + 1] == data[..i] + [data[i]];
      }
      assert data[..|data|] == data;
    }

    /** One byte of a write event: LF is skipped; CR terminates and dispatches
        a non-empty command and empties the buffer; any other byte is stored
        while a slot is free, and otherwise the buffer is emptied. */
    method Receive(c: char)
      requires Valid()
      modifies this, rxBuffer
      ensures Valid() && rxBuffer == old(rxBuffer)
      ensures State() == Feed(old(State()), c)
    {
      if c == LF {
      } else if c == CR {
        if rxIndex > 0 {
          Finalize();
        }
      } else {
        if rxIndex < (MaxCmdLen - 1) as uint8 {
          rxBuffer[rxIndex] := c;
          rxIndex := rxIndex + 1;
        } else {
          rxIndex := 0;
        }
      }
    }

    /** Terminates the stored command with NUL, hands the buffer to the
        dispatcher and empties the buffer. */
    method Finalize()
      requires Valid() && rxIndex > 0
      modifies this, rxBuffer
      ensures Valid() && rxBuffer == old(rxBuffer)
      ensures State() == RxState([], old(State()).dispatched + [old(State()).pending])
    {
      ghost var line := rxBuffer[..rxIndex];
      rxBuffer[rxIndex] := NUL;
      assert rxBuffer[..][..rxIndex] == line;
      RespondStopsAtNul(rxBuffer[..], rxIndex as int);
      var _ := ProcessCommand(rxBuffer, rxIndex);
      AnswersSnoc(commands, line);
      commands := commands + [line];
      rxIndex := 0;
    }

    /** Looks the NUL-terminated command up and sends the selected bytes of its
        response; returns the latency the firmware waits (the base delay, plus
        the reset delay for "ATZ"). The length argument is not consulted. */
    method ProcessCommand(cmd: array<char>, len: uint8) returns (delayMs: nat)
      requires NUL in cmd[..]
      modifies this`notifications
      ensures notifications == old(notifications) + [Respond(cmd[..])]
      ensures delayMs == BaseDelayMs + if CStr(cmd[..]) == "ATZ" then 500 else 0
    {
      var command := CStr(cmd[..]);
      var entry := Dispatch(command);
      ExtraDelayOnlyForReset(command);
      delayMs := BaseDelayMs + entry.extraDelayMs;
      SendResponse(entry.text, ByteCount(entry));
    }

    /** Notifies the first `len` bytes of `resp` on the transmit characteristic. */
    method SendResponse(resp: string, len: nat)
      requires len <= |resp|
      modifies this`notifications
      ensures notifications == old(notifications) + [resp[..len]]
    {
      notifications := notifications + [resp[..len]];
    }
  }
}
