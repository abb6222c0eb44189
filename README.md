# ELM327 BLE emulator: command engine model

This project models the command engine of an ESP32 firmware that emulates an
ELM327 OBD-II adapter over Bluetooth Low Energy. A client writes text commands
to a receive characteristic. The firmware collects them byte by byte into a
64-byte buffer. Each carriage return ends a command. The command is looked up
in a fixed table, and a canned reply is notified on the transmit
characteristic.

The project has three modules:

- `Dispatcher` (`Dispatcher.dfy`) is the lookup done by `processCommand`. It is
  a pure function from the finalised command to a table row: the reply text,
  the number of its bytes that are sent, and the extra latency. Commands are
  compared as C strings, so only the characters before the first NUL count
  (`CStr`, `StrLen`).
- `Accumulator` (`Accumulator.dfy`) is the per-byte behaviour of `onWrite` as
  pure functions over an abstract state. `Feed` handles one byte and `FeedAll`
  a stream. The state is the pending command and the commands handed to the
  dispatcher so far. `Answers` maps those commands to the notified payloads.
  `SplitLines`, `Completed` and `Reference` form an independent reference that
  cuts the stream at each CR. `StreamMatchesLines` proves the two agree.
- `Emulator` (`Emulator.dfy`) is the firmware's own imperative form. The class
  `RxCallbacks` holds the global `rxBuffer` as an `array<char>` of 64, the
  cursor `rxIndex` as a `uint8`, and the log of notified payloads. `OnWrite`
  runs the source's `for` loop over a chunk and is proved to change the
  abstract state exactly as `FeedAll` does. The log always equals `Answers` of
  the commands dispatched so far. The loop body is factored into `Receive`,
  and its CR branch into `Finalize`. `ProcessCommand` looks up the
  NUL-terminated buffer and calls `SendResponse` once. `SendResponse` appends
  `resp[0..len)` to the log.

Two details of the code, as written, are modelled exactly:

- `ATZ` and `ATI` declare 12 bytes for the 13-byte text `"ELM327 v1.5\r>"`, so
  the final `>` is never sent (`IdentifyLosesPrompt`).
- A NUL data byte is stored like any other byte. `strcmp` then stops at it, so
  `"ATZ\0xx\r"` is answered as `ATZ` (`NulEndsCommand`, `CommandAnswered`).

## Model

| member | source | states |
|---|---|---|
| Dispatcher.StrLen | src/main.cpp:148 | `strlen` never exceeds the buffer length |
| Dispatcher.StrLenFindsFirstNul | src/main.cpp:148 | `strlen` stops at the first NUL: no NUL before it, a NUL at it when it is short of the end |
| Dispatcher.StrLenOfNulFree | src/main.cpp:148 | a string without NUL has `strlen` equal to its length and is its own C string |
| Dispatcher.CStrStopsAtNul | src/main.cpp:78-79 | writing NUL at index k makes `strcmp` see exactly what it sees in the first k characters |
| Dispatcher.RespondStopsAtNul | src/main.cpp:78-79 | a buffer terminated with NUL at the cursor is answered as its first `rxIndex` characters |
| Dispatcher.NulEndsCommand | src/main.cpp:85-87 | a NUL inside a command ends it for the lookup: the answer is the one for the part before it, whatever follows |
| Dispatcher.Dispatch | src/main.cpp:105-167 | every selected byte count fits its text, and every text ends with the CR and `>` prompt |
| Dispatcher.MeasuredTextsHaveNoNul | src/main.cpp:144-167 | the texts measured with `strlen` hold no NUL, so `strlen` counts all of their bytes |
| Dispatcher.FallbackExactlyForUnknown | src/main.cpp:105-167 | the fallback `"?\r>"` is selected if and only if the command is none of the 14 known commands |
| Dispatcher.ConfigPayload | src/main.cpp:118-124 | each of ATE0, ATL0, ATS0, ATH1, ATSP6 and ATCAF0 sends `"OK\r>"` |
| Dispatcher.AtPayloads | src/main.cpp:126-143 | ATDPN, ATDP and ATRV send `"A6\r>"`, `"ISO 15765-4 (CAN 11/500)\r>"` and `"13.8V\r>"` |
| Dispatcher.PidsSupportedPayload | src/main.cpp:144-149 | 0100 sends its whole 26-byte frame |
| Dispatcher.EngineRpmPayload | src/main.cpp:150-155 | 010C sends its whole 20-byte frame |
| Dispatcher.VehicleSpeedPayload | src/main.cpp:156-161 | 010D sends its whole 17-byte frame |
| Dispatcher.UnknownPayload | src/main.cpp:105-167 | every command outside the vocabulary, a lower-case spelling of a known one included, gets the 3 bytes `"?\r>"` |
| Dispatcher.MeasuredIsStrLen | src/main.cpp:144-167 | for every command whose entry is measured at run time, the bytes sent are exactly `strlen` of its text |
| Dispatcher.IdentifyLosesPrompt | src/main.cpp:105-117 | ATZ and ATI send `"ELM327 v1.5\r"`: the text minus its final `>` |
| Dispatcher.SendsWholeText | src/main.cpp:118-167 | every command other than ATZ and ATI, known or not, sends its whole text |
| Dispatcher.ExtraDelayOnlyForReset | src/main.cpp:99-110 | only ATZ adds 500 ms to the base latency; every other command adds nothing |
| Accumulator.Answers | src/main.cpp:79 | each dispatched command produces exactly one notification |
| Accumulator.AnswersPointwise | src/main.cpp:79 | the i-th notification is the answer to the i-th dispatched command |
| Accumulator.AnswersAppend | src/main.cpp:68-94 | answering two batches of commands is answering them one after the other |
| Accumulator.AnswersSnoc | src/main.cpp:79 | dispatching one more command adds exactly its answer at the end |
| Accumulator.Feed | src/main.cpp:70-93 | one byte keeps the cursor within 0..63 |
| Accumulator.FeedDispatchesOnlyOnCr | src/main.cpp:72-81 | a byte dispatches something if and only if it is a CR with a non-empty buffer; then it dispatches exactly the buffer and empties it |
| Accumulator.FeedAll | src/main.cpp:68-94 | a whole chunk keeps the cursor within 0..63 |
| Accumulator.DispatchedOnlyGrows | src/main.cpp:68-94 | commands already dispatched stay, in the same order |
| Accumulator.FeedAllAppend | src/main.cpp:16-17 | feeding chunk A then chunk B equals feeding A followed by B in one chunk |
| Accumulator.DropLf | src/main.cpp:72-73 | the stream without line feeds holds no LF and is no longer |
| Accumulator.LineFeedsIgnored | src/main.cpp:72-73 | removing every LF from a stream changes neither the buffer nor what is dispatched |
| Accumulator.BlankLinesIgnored | src/main.cpp:74-76 | a stream of only CR and LF bytes dispatches nothing from an empty buffer |
| Accumulator.Kept | src/main.cpp:85-92 | what a run of stored bytes keeps is at most 63 bytes, and a run of at most 63 bytes is kept whole |
| Accumulator.KeptIsTail | src/main.cpp:85-92 | what a run keeps is the part after its last full multiple of 64 bytes |
| Accumulator.KeptAppend | src/main.cpp:85-92 | keeping after a reset and then storing more equals keeping over the whole run |
| Accumulator.KeptStep | src/main.cpp:85-92 | one byte is stored while the cursor is below 63 and empties the buffer at 63 |
| Accumulator.FeedOrdinary | src/main.cpp:85-92 | one stored byte leaves the kept tail of the buffer followed by that byte and dispatches nothing |
| Accumulator.OrdinaryRun | src/main.cpp:83-92 | a run of stored bytes dispatches nothing and leaves the kept tail of buffer plus run |
| Accumulator.SingleCommand | src/main.cpp:74-87 | 1 to 63 stored bytes and a CR dispatch exactly that command and empty the buffer |
| Accumulator.CommandsAnsweredInOrder | src/main.cpp:68-94 | two commands in one chunk are dispatched in arrival order |
| Accumulator.OverflowDropsCommand | src/main.cpp:88-91 | 64 bytes with no terminator dispatch nothing and leave the buffer empty |
| Accumulator.OverflowKeepsTail | src/main.cpp:85-92 | more than 64 bytes with no terminator dispatch nothing; the buffer keeps the bytes after the last multiple of 64, which is non-empty unless the length is a multiple of 64 |
| Accumulator.OverlongLineDispatchesTail | src/main.cpp:74-92 | an over-long line whose length is not a multiple of 64, ended by CR, dispatches its bytes after the last multiple of 64 and empties the buffer |
| Accumulator.OrdinaryAroundNul | src/main.cpp:85-87 | a NUL between stored bytes is itself stored |
| Accumulator.CommandAnswered | src/main.cpp:74-87 | a command holding a NUL, then CR, adds exactly one notification: the answer to the part before the NUL |
| Accumulator.SplitLines | src/main.cpp:68-94 | cutting a stream at each CR gives at least one line |
| Accumulator.ReferenceIsCompleted | src/main.cpp:68-94 | the reference state is the kept last line and every earlier line's dispatched command |
| Accumulator.SplitLinesStep | src/main.cpp:72-87 | LF adds nothing to the lines, CR starts a new line, any other byte extends the first line |
| Accumulator.ReferenceHead | src/main.cpp:85-92 | two current lines that keep the same tail give the same reference state |
| Accumulator.ReferenceAfterCr | src/main.cpp:74-81 | a CR completes the buffered line and the reference continues from an empty buffer |
| Accumulator.KeptAfterByte | src/main.cpp:85-92 | storing a byte and then more keeps what the whole line keeps |
| Accumulator.ReferenceAfterByte | src/main.cpp:83-92 | a stored byte extends the buffered line, and the reference continues from what the buffer keeps |
| Accumulator.FeedAllMatchesLines | src/main.cpp:68-94 | from any buffer, feeding a stream gives the line-split reference state |
| Accumulator.StreamMatchesLines | src/main.cpp:68-94 | from power-up, the commands dispatched are what each completed CR-terminated line keeps, in order, and the buffer holds what the last line keeps |
| Emulator.RxCallbacks.constructor | src/main.cpp:16-17 | power-up: an empty command, nothing dispatched or notified |
| Emulator.RxCallbacks.OnWrite | src/main.cpp:68-94 | a write event changes buffer, cursor and dispatched commands exactly as `FeedAll`; the log is the answers to every dispatched command |
| Emulator.RxCallbacks.Receive | src/main.cpp:70-92 | one byte of the loop changes the state exactly as `Feed` |
| Emulator.RxCallbacks.Finalize | src/main.cpp:76-81 | a CR with a non-empty buffer NUL-terminates it, dispatches `rxBuffer[0..rxIndex)`, notifies its answer and resets the cursor |
| Emulator.RxCallbacks.ProcessCommand | src/main.cpp:97-175 | one notification, the answer to the buffer's C string; the latency is 10 ms, plus 500 ms for ATZ |
| Emulator.RxCallbacks.SendResponse | src/main.cpp:177-202 | the log gains exactly `resp[0..len)` |

## Left out

- BLE stack setup, advertising, `loop()` and the server connect/disconnect callbacks (src/main.cpp:20-34, 206-240) are left out. They are transport lifecycle and foreign library calls.
- The `getValue()` of the characteristic and the `if (!pChar) return` guard (src/main.cpp:42-47) are left out. `OnWrite` takes the chunk's bytes as a parameter.
- The serial hex/ASCII debug dumps (src/main.cpp:50-65, 179-194) are left out. They are diagnostic output with no effect on the state.
- `delay(10)` and `delay(500)` are not executed. The latency is kept as data: `Entry.extraDelayMs`, `BaseDelayMs`, and the value `ProcessCommand` returns.
- The `pTxCharacteristic` null check and the `setValue`/`notify` calls (src/main.cpp:197-201) are left out. A notification is modelled as an append to the `notifications` log, assuming the characteristic exists, as it does once setup has run.
- Emulator.RxCallbacks.ProcessCommand: does not model the `response != nullptr` test (src/main.cpp:169). Every branch of the table sets a response, so the test is always true.
- Emulator.RxCallbacks.ProcessCommand: ignores its length argument, as the source does. It requires a NUL in the buffer, because `strcmp` needs one; `Finalize` always writes it at the cursor.
- `rxIndex` is a `uint8_t`. The model uses a `uint8` newtype, and the invariant `rxIndex <= 63` shows that it never wraps around.
- The overflow policy follows the code (src/main.cpp:85-91). A run of ordinary bytes stores 63 of them. The 64th finds `rxIndex == 63`, resets the cursor and is itself dropped. Later bytes are stored again from slot 0, so a run longer than 64 bytes leaves its tail in the buffer (`OverflowKeepsTail`), and a CR then dispatches that tail (`OverlongLineDispatchesTail`). For example, 70 ordinary bytes and a CR from power-up dispatch the last 6 bytes. The buffer is empty only right after a reset (`OverflowDropsCommand`).
- Measured lengths are modelled as the text's full length (`Length.Measured`). `MeasuredIsStrLen` proves that this equals `strlen` of those texts, since none of them holds a NUL.
- Received bytes (C `char`) are modelled as Dafny `char`. No behaviour is lost: only LF, CR and NUL are treated specially, every other byte is stored alike, and the table compares exact characters.
- Splitting long notifications to fit a transport payload limit is not modelled. The source does not do it either.
