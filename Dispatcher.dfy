/**
 The command dispatcher of the emulated ELM327 adapter: an exact, case-sensitive
 lookup of a finalised command in a fixed vocabulary, selecting a canned response
 text, the number of its bytes that are actually sent, and the extra simulated
 latency of the command.

 Commands reach the dispatcher as C strings: a buffer compared with `strcmp`
 ends at its first NUL character, so only that prefix takes part in the lookup.
 */
module Dispatcher {

  const NUL: char := '\0'

  /** Latency that every processed command waits before it is looked up (delay(10)). */
  const BaseDelayMs: nat := 10

  /** A row of the vocabulary: the response text, how many of its bytes are sent,
      and the latency added on top of the base delay. */
  datatype Entry = Entry(text: string, len: Length, extraDelayMs: nat)

  /** How an entry gives its byte count: a number written next to the text, or
      `strlen` of the text (`Measured`). */
  datatype Length = Declared(n: nat) | Measured

  /** `strlen`: the index of the first NUL character, or the whole length when
      there is none. */
  function StrLen(s: string): (n: nat)
    ensures n <= |s|
  {
    if s == [] || s[0] == NUL then 0 else 1 + StrLen(s[1..])
  }

  /** `strlen` stops exactly at the first NUL: none before it, one at it. */
  lemma {:induction false} StrLenFindsFirstNul(s: string)
    ensures NUL !in s[..StrLen(s)]
    ensures StrLen(s) < |s| ==> s[StrLen(s)] == NUL
  {
    if s != [] && s[0] != NUL {
      StrLenFindsFirstNul(s[1..]);
      var m := StrLen(s[1..]);
      assert s[..m + 1] == [s[0]] + s[1..][..m];
    }
  }

  /** The C string a NUL-terminated buffer holds: everything before its first NUL. */
  function CStr(s: string): string
  {
    s[..StrLen(s)]
  }

  /** A string without NUL is its own C string. */
  lemma StrLenOfNulFree(s: string)
    requires NUL !in s
    ensures StrLen(s) == |s| && CStr(s) == s
  {
    StrLenFindsFirstNul(s);
  }

  /** Terminating a buffer with NUL at index `k` makes `strcmp` see at most its
      first `k` characters, and exactly what it would see in `s[..k]`. */
  lemma CStrStopsAtNul(s: string, k: nat)
    requires k < |s| && s[k] == NUL
    ensures CStr(s) == CStr(s[..k])
  {
    var n := StrLen(s);
    StrLenFindsFirstNul(s);
    StrLenFindsFirstNul(s[..k]);
    if n < k {
      assert s[..k][n] == NUL;
      assert s[..k][..n] == s[..n];
    } else {
      assert NUL !in s[..k];
      StrLenOfNulFree(s[..k]);
    }
  }

  /** The number of bytes of its text an entry sends. */
  function ByteCount(e: Entry): nat
  {
    match e.len
    case Declared(n) => n
    case Measured => |e.text|
  }

  /** The bytes a response actually puts on the wire: `text[0..len)`. */
  function Payload(e: Entry): string
    requires ByteCount(e) <= |e.text|
  {
    e.text[..ByteCount(e)]
  }

  const IdentText: string := "ELM327 v1.5\r>"
  const OkText: string := "OK\r>"
  const ProtocolNumberText: string := "A6\r>"
  const ProtocolText: string := "ISO 15765-4 (CAN 11/500)\r>"
  const VoltageText: string := "13.8V\r>"
  const PidsSupportedText: string := "7E8 06 41 00 FF FF FF FF\r>"
  const EngineRpmText: string := "7E8 04 41 0C 0B B8\r>"
  const VehicleSpeedText: string := "7E8 03 41 0D 64\r>"
  const UnknownText: string := "?\r>"

  /** The six configuration commands that are all acknowledged with "OK". */
  const ConfigCommands: set<string> := {"ATE0", "ATL0", "ATS0", "ATH1", "ATSP6", "ATCAF0"}

  /** The vehicle data queries, answered from fixed frames. */
  const PidCommands: set<string> := {"0100", "010C", "010D"}

  /** Every command the vocabulary recognises. */
  const KnownCommands: set<string> :=
    {"ATZ", "ATI", "ATDPN", "ATDP", "ATRV"} + ConfigCommands + PidCommands

  /** The answer to any command outside the vocabulary, measured with `strlen`. */
  const UnknownEntry: Entry := Entry(UnknownText, Measured, 0)

  /** The if/else chain of `processCommand`, first match wins. The reset and
      identify entries declare 12 bytes for a 13-byte text; the PID entries and
      the fallback are measured with `strlen`; the others declare their natural
      length. Every sent byte count fits the text, and every text ends with the
      CR and '>' prompt. */
  function Dispatch(cmd: string): (r: Entry)
    ensures ByteCount(r) <= |r.text|
    ensures |r.text| >= 2 && r.text[|r.text| - 2..] == "\r>"
  {
    if cmd == "ATZ" then Entry(IdentText, Declared(12), 500)
    else if cmd == "ATI" then Entry(IdentText, Declared(12), 0)
    else if cmd == "ATE0" || cmd == "ATL0" || cmd == "ATS0" || cmd == "ATH1"
         || cmd == "ATSP6" || cmd == "ATCAF0" then Entry(OkText, Declared(4), 0)
    else if cmd == "ATDPN" then Entry(ProtocolNumberText, Declared(4), 0)
    else if cmd == "ATDP" then Entry(ProtocolText, Declared(26), 0)
    else if cmd == "ATRV" then Entry(VoltageText, Declared(7), 0)
    else if cmd == "0100" then Entry(PidsSupportedText, Measured, 0)
    else if cmd == "010C" then Entry(EngineRpmText, Measured, 0)
    else if cmd == "010D" then Entry(VehicleSpeedText, Measured, 0)
    else UnknownEntry
  }

  /** What the dispatcher sends for a NUL-terminated command buffer. */
  function Respond(buffer: string): string
  {
    Payload(Dispatch(CStr(buffer)))
  }

  /** A buffer terminated with NUL at `k` is answered as its first `k` characters. */
  lemma RespondStopsAtNul(s: string, k: nat)
    requires k < |s| && s[k] == NUL
    ensures Respond(s) == Respond(s[..k])
  {
    CStrStopsAtNul(s, k);
  }

  /** A NUL inside a command buffer ends the command for the lookup: only the
      part before it is dispatched, whatever follows it. */
  lemma NulEndsCommand(cmd: string, rest: string)
    requires NUL !in cmd
    ensures Respond(cmd + [NUL] + rest) == Payload(Dispatch(cmd))
  {
    var line := cmd + [NUL] + rest;
    assert line[|cmd|] == NUL && line[..|cmd|] == cmd;
    CStrStopsAtNul(line, |cmd|);
    StrLenOfNulFree(cmd);
  }

  /** None of the texts measured at run time holds a NUL, so by `StrLenOfNulFree`
      `strlen` counts every byte of them and a `Measured` entry sends its whole text. */
  lemma MeasuredTextsHaveNoNul()
    ensures NUL !in PidsSupportedText && NUL !in EngineRpmText
    ensures NUL !in VehicleSpeedText && NUL !in UnknownText
  {
  }

  /** The fallback text is sent exactly for the commands outside the vocabulary. */
  lemma FallbackExactlyForUnknown(cmd: string)
    ensures Dispatch(cmd).text == UnknownText <==> cmd !in KnownCommands
  {
  }

  /** Each of the six configuration commands is acknowledged with "OK\r>". */
  lemma ConfigPayload(cmd: string)
    requires cmd in ConfigCommands
    ensures Payload(Dispatch(cmd)) == "OK\r>"
  {
  }

  /** The bytes sent for the protocol and voltage queries. */
  lemma AtPayloads()
    ensures Payload(Dispatch("ATDPN")) == "A6\r>"
    ensures Payload(Dispatch("ATDP")) == "ISO 15765-4 (CAN 11/500)\r>"
    ensures Payload(Dispatch("ATRV")) == "13.8V\r>"
  {
  }

  /** The supported-PIDs query sends its whole 26-byte frame. */
  lemma PidsSupportedPayload()
    ensures Payload(Dispatch("0100")) == "7E8 06 41 00 FF FF FF FF\r>"
    ensures |Payload(Dispatch("0100"))| == 26
  {
  }

  /** The engine-speed query sends its whole 20-byte frame. */
  lemma EngineRpmPayload()
    ensures Payload(Dispatch("010C")) == "7E8 04 41 0C 0B B8\r>"
    ensures |Payload(Dispatch("010C"))| == 20
  {
  }

  /** The vehicle-speed query sends its whole 17-byte frame. */
  lemma VehicleSpeedPayload()
    ensures Payload(Dispatch("010D")) == "7E8 03 41 0D 64\r>"
    ensures |Payload(Dispatch("010D"))| == 17
  {
  }

  /** Every unrecognised command, a different letter case of a known one
      included, gets the whole 3-byte fallback. */
  lemma UnknownPayload(cmd: string)
    requires cmd !in KnownCommands
    ensures Payload(Dispatch(cmd)) == "?\r>" && |Payload(Dispatch(cmd))| == 3
  {
    FallbackExactlyForUnknown(cmd);
  }

  /** An entry measured at run time sends exactly `strlen` of its text. */
  lemma MeasuredIsStrLen(cmd: string)
    ensures Dispatch(cmd).len == Measured ==> ByteCount(Dispatch(cmd)) == StrLen(Dispatch(cmd).text)
  {
    MeasuredTextsHaveNoNul();
    if Dispatch(cmd).len == Measured {
      StrLenOfNulFree(Dispatch(cmd).text);
    }
  }

  /** The reset and identify commands send the banner without its final prompt character. */
  lemma IdentifyLosesPrompt(cmd: string)
    requires cmd == "ATZ" || cmd == "ATI"
    ensures Payload(Dispatch(cmd)) + ">" == Dispatch(cmd).text
    ensures Payload(Dispatch(cmd)) == "ELM327 v1.5\r"
  {
    assert IdentText[..12] + ">" == IdentText;
  }

  /** Every other command, known or not, sends its whole response text. */
  lemma SendsWholeText(cmd: string)
    requires cmd != "ATZ" && cmd != "ATI"
    ensures Payload(Dispatch(cmd)) == Dispatch(cmd).text
  {
  }

  /** Every command waits the base delay; only the reset command waits 500 ms more. */
  lemma ExtraDelayOnlyForReset(cmd: string)
    ensures Dispatch(cmd).extraDelayMs == if cmd == "ATZ" then 500 else 0
  {
  }
}
