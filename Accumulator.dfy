/**
 The byte-level behaviour of the command accumulator, as pure functions over an
 abstract state: the characters collected for the command in progress
 (`rxBuffer[0..rxIndex)`) and the command buffers handed to the dispatcher so
 far. What goes out over the air is the dispatcher's answer to each of those
 buffers, in order (`Answers`).

 `Feed` is the effect of one received byte, `FeedAll` of a whole stream. The
 lemmas state what the stream promises: it does not matter how the bytes are
 split into chunks, line feeds change nothing, blank lines dispatch nothing, an
 over-long command is dropped, and the whole behaviour agrees with a reference
 that splits the stream into CR-terminated lines.
 */
module Accumulator {
  import opened Dispatcher

  /** Capacity of the receive buffer; one slot is kept for the terminating NUL. */
  const MaxCmdLen: nat := 64

  const LF: char := '\n'
  const CR: char := '\r'

  /** The command in progress and the commands dispatched so far. */
  datatype RxState = RxState(pending: string, dispatched: seq<string>)

  /** The state at power-up: an empty buffer and nothing dispatched. */
  const Init: RxState := RxState([], [])

  /** The cursor never passes the last slot, so writing the NUL at the cursor stays in bounds. */
  predicate Bounded(st: RxState)
  {
    |st.pending| <= MaxCmdLen - 1
  }

  /** A byte that is neither a line feed nor a carriage return: one that the
      accumulator stores. */
  predicate Ordinary(c: char)
  {
    c != LF && c != CR
  }

  /** The notifications sent for a sequence of dispatched command buffers. */
  function Answers(cmds: seq<string>): (r: seq<string>)
    ensures |r| == |cmds|
    decreases |cmds|
  {
    if cmds == [] then [] else [Respond(cmds[0])] + Answers(cmds[1..])
  }

  /** Each dispatched buffer gets its own answer, at its own position. */
  lemma {:induction false} AnswersPointwise(cmds: seq<string>, i: nat)
    requires i < |cmds|
    ensures Answers(cmds)[i] == Respond(cmds[i])
    decreases i
  {
    if i > 0 {
      AnswersPointwise(cmds[1..], i - 1);
    }
  }

  /** Answering two batches of commands is answering them one after the other. */
  lemma {:induction false} AnswersAppend(a: seq<string>, b: seq<string>)
    ensures Answers(a + b) == Answers(a) + Answers(b)
    decreases |a|
  {
    if a == [] {
      assert a + b == b;
    } else {
      assert (a + b)[0] == a[0] && (a + b)[1..] == a[1..] + b;
      AnswersAppend(a[1..], b);
    }
  }

  /** Dispatching one more command adds exactly its answer at the end. */
  lemma AnswersSnoc(cmds: seq<string>, x: string)
    ensures Answers(cmds + [x]) == Answers(cmds) + [Respond(x)]
  {
    AnswersAppend(cmds, [x]);
    assert [x][1..] == [];
  }

  /** One received byte: LF is skipped; CR hands a non-empty command to the
      dispatcher; any other byte is stored while a slot is free, and otherwise
      the buffer is emptied and the byte dropped. */
  function Feed(st: RxState, c: char): (r: RxState)
    ensures Bounded(st) ==> Bounded(r)
  {
    if c == LF then st
    else if c == CR then
      if st.pending != [] then RxState([], st.dispatched + [st.pending]) else st
    else if |st.pending| < MaxCmdLen - 1 then RxState(st.pending + [c], st.dispatched)
    else RxState([], st.dispatched)
  }

  /** A byte dispatches something only when it is a CR ending a non-empty
      command, and then exactly that command, emptying the buffer. */
  lemma FeedDispatchesOnlyOnCr(st: RxState, c: char)
    ensures Feed(st, c).dispatched != st.dispatched <==> c == CR && st.pending != []
    ensures c == CR && st.pending != [] ==> Feed(st, c) == RxState([], st.dispatched + [st.pending])
  {
    if c == CR && st.pending != [] {
      assert |Feed(st, c).dispatched| == |st.dispatched| + 1;
    }
  }

  /** A stream of bytes, consumed in order. */
  function FeedAll(st: RxState, data: string): (r: RxState)
    ensures Bounded(st) ==> Bounded(r)
    decreases |data|
  {
    if data == [] then st else FeedAll(Feed(st, data[0]), data[1..])
  }

  /** Dispatched commands are only ever appended: what was dispatched before a
      stream stays, in the same order. */
  lemma {:induction false} DispatchedOnlyGrows(st: RxState, data: string)
    ensures |st.dispatched| <= |FeedAll(st, data).dispatched|
    ensures FeedAll(st, data).dispatched[..|st.dispatched|] == st.dispatched
    decreases |data|
  {
    if data != [] {
      var st' := Feed(st, data[0]);
      DispatchedOnlyGrows(st', data[1..]);
      assert st'.dispatched[..|st.dispatched|] == st.dispatched;
    }
  }

  /** Delivering `a` and then `b` leaves the same state as delivering `a + b` at once. */
  lemma {:induction false} FeedAllAppend(st: RxState, a: string, b: string)
    ensures FeedAll(FeedAll(st, a), b) == FeedAll(st, a + b)
    decreases |a|
  {
    if a != [] {
      assert (a + b)[0] == a[0];
      assert (a + b)[1..] == a[1..] + b;
      FeedAllAppend(Feed(st, a[0]), a[1..], b);
    } else {
      assert a + b == b;
    }
  }

  /** The stream with every line feed removed. */
  function DropLf(data: string): (r: string)
    ensures LF !in r
    ensures |r| <= |data|
  {
    if data == [] then []
    else if data[0] == LF then DropLf(data[1..])
    else [data[0]] + DropLf(data[1..])
  }

  /** Line feeds anywhere in the stream change neither the buffer nor what is dispatched. */
  lemma {:induction false} LineFeedsIgnored(st: RxState, data: string)
    ensures FeedAll(st, data) == FeedAll(st, DropLf(data))
    decreases |data|
  {
    if data != [] {
      LineFeedsIgnored(Feed(st, data[0]), data[1..]);
      if data[0] != LF {
        var d := DropLf(data);
        assert d[0] == data[0] && d[1..] == DropLf(data[1..]);
      }
    }
  }

  /** A stream of nothing but terminators and line feeds dispatches nothing from
      an empty buffer. */
  lemma {:induction false} BlankLinesIgnored(ds: seq<string>, data: string)
    requires forall i | 0 <= i < |data| :: !Ordinary(data[i])
    ensures FeedAll(RxState([], ds), data) == RxState([], ds)
    decreases |data|
  {
    if data != [] {
      BlankLinesIgnored(ds, data[1..]);
    }
  }

  /** What remains of a run of stored bytes once every 64th byte has emptied the
      buffer: each full 64 bytes are dropped from the front. */
  function Kept(line: string): (k: string)
    ensures |k| <= MaxCmdLen - 1
    ensures |line| <= MaxCmdLen - 1 ==> k == line
    decreases |line|
  {
    if |line| < MaxCmdLen then line else Kept(line[MaxCmdLen..])
  }

  /** What a run keeps is the part after its last complete multiple of 64. */
  lemma {:induction false} KeptIsTail(line: string)
    ensures Kept(line) == line[MaxCmdLen * (|line| / MaxCmdLen)..]
    decreases |line|
  {
    if |line| >= MaxCmdLen {
      var rest := line[MaxCmdLen..];
      KeptIsTail(rest);
      assert |line| / MaxCmdLen == |rest| / MaxCmdLen + 1;
      assert rest[MaxCmdLen * (|rest| / MaxCmdLen)..] == line[MaxCmdLen * (|line| / MaxCmdLen)..];
    }
  }

  /** Keeping the tail of `x` and then appending `y` keeps the same tail as
      appending `y` to `x` itself. */
  lemma {:induction false} KeptAppend(x: string, y: string)
    ensures Kept(Kept(x) + y) == Kept(x + y)
    decreases |x|
  {
    if |x| >= MaxCmdLen {
      KeptAppend(x[MaxCmdLen..], y);
      assert (x + y)[MaxCmdLen..] == x[MaxCmdLen..] + y;
    }
  }

  /** Storing one more byte, or emptying a full buffer, is keeping the tail. */
  lemma KeptStep(p: string, c: char)
    requires |p| <= MaxCmdLen - 1
    ensures Kept(p + [c]) == if |p| < MaxCmdLen - 1 then p + [c] else []
  {
    if |p| == MaxCmdLen - 1 {
      assert (p + [c])[MaxCmdLen..] == [];
    }
  }

  /** One stored byte keeps the tail of the buffer followed by that byte. */
  lemma FeedOrdinary(p: string, ds: seq<string>, c: char)
    requires |p| <= MaxCmdLen - 1 && Ordinary(c)
    ensures Feed(RxState(p, ds), c) == RxState(Kept(p + [c]), ds)
  {
    KeptStep(p, c);
  }

  /** A run of stored bytes keeps the tail of the buffer followed by the run,
      and dispatches nothing. */
  lemma {:induction false} OrdinaryRun(p: string, ds: seq<string>, s: string)
    requires |p| <= MaxCmdLen - 1
    requires forall i | 0 <= i < |s| :: Ordinary(s[i])
    ensures FeedAll(RxState(p, ds), s) == RxState(Kept(p + s), ds)
    decreases |s|
  {
    if s != [] {
      var c, p' := s[0], Kept(p + [s[0]]);
      assert Ordinary(c);
      FeedOrdinary(p, ds, c);
      assert FeedAll(RxState(p, ds), s) == FeedAll(RxState(p', ds), s[1..]);
      OrdinaryRun(p', ds, s[1..]);
      KeptAppend(p + [c], s[1..]);
      assert p + [c] + s[1..] == p + s;
    }
  }

  /** A command of 1 to 63 stored bytes followed by CR is dispatched whole and
      leaves the buffer empty. */
  lemma SingleCommand(ds: seq<string>, cmd: string)
    requires 1 <= |cmd| <= MaxCmdLen - 1
    requires forall i | 0 <= i < |cmd| :: Ordinary(cmd[i])
    ensures FeedAll(RxState([], ds), cmd + [CR]) == RxState([], ds + [cmd])
  {
    OrdinaryRun([], ds, cmd);
    assert [] + cmd == cmd;
    var st := FeedAll(RxState([], ds), cmd);
    assert st == RxState(cmd, ds);
    FeedAllAppend(RxState([], ds), cmd, [CR]);
    assert FeedAll(st, [CR]) == Feed(st, CR);
  }

  /** Two commands in one chunk are dispatched, and so answered, in the order
      they arrived. */
  lemma CommandsAnsweredInOrder(ds: seq<string>, c1: string, c2: string)
    requires 1 <= |c1| <= MaxCmdLen - 1 && 1 <= |c2| <= MaxCmdLen - 1
    requires forall i | 0 <= i < |c1| :: Ordinary(c1[i])
    requires forall i | 0 <= i < |c2| :: Ordinary(c2[i])
    ensures FeedAll(RxState([], ds), c1 + [CR] + c2 + [CR]) == RxState([], ds + [c1, c2])
  {
    SingleCommand(ds, c1);
    SingleCommand(ds + [c1], c2);
    FeedAllAppend(RxState([], ds), c1 + [CR], c2 + [CR]);
    assert c1 + [CR] + c2 + [CR] == (c1 + [CR]) + (c2 + [CR]);
    assert ds + [c1] + [c2] == ds + [c1, c2];
  }

  /** 64 stored bytes without a terminator empty the buffer and dispatch
      nothing: the command is lost without a reply. */
  lemma OverflowDropsCommand(ds: seq<string>, s: string)
    requires |s| == MaxCmdLen
    requires forall i | 0 <= i < |s| :: Ordinary(s[i])
    ensures FeedAll(RxState([], ds), s) == RxState([], ds)
  {
    OrdinaryRun([], ds, s);
    assert [] + s == s;
  }

  /** More than 64 stored bytes without a terminator dispatch nothing, but the
      buffer is not left empty: it keeps the bytes after the last multiple of 64. */
  lemma OverflowKeepsTail(ds: seq<string>, s: string)
    requires |s| > MaxCmdLen
    requires forall i | 0 <= i < |s| :: Ordinary(s[i])
    ensures FeedAll(RxState([], ds), s) == RxState(s[MaxCmdLen * (|s| / MaxCmdLen)..], ds)
    ensures |s| % MaxCmdLen != 0 ==> FeedAll(RxState([], ds), s).pending != []
  {
    OrdinaryRun([], ds, s);
    assert [] + s == s;
    KeptIsTail(s);
  }

  /** An over-long line, once terminated, dispatches what it keeps: the bytes
      after its last multiple of 64, unless none are left. */
  lemma OverlongLineDispatchesTail(ds: seq<string>, s: string)
    requires |s| > MaxCmdLen && |s| % MaxCmdLen != 0
    requires forall i | 0 <= i < |s| :: Ordinary(s[i])
    ensures FeedAll(RxState([], ds), s + [CR])
         == RxState([], ds + [s[MaxCmdLen * (|s| / MaxCmdLen)..]])
  {
    OverflowKeepsTail(ds, s);
    FeedAllAppend(RxState([], ds), s, [CR]);
  }

  /** A NUL between two runs of stored bytes is itself stored. */
  lemma OrdinaryAroundNul(cmd: string, rest: string)
    requires forall i | 0 <= i < |cmd| :: Ordinary(cmd[i])
    requires forall i | 0 <= i < |rest| :: Ordinary(rest[i])
    ensures forall i | 0 <= i < |cmd + [NUL] + rest| :: Ordinary((cmd + [NUL] + rest)[i])
  {
    var line := cmd + [NUL] + rest;
    forall i | 0 <= i < |line| ensures Ordinary(line[i]) {
      if i < |cmd| {
        assert line[i] == cmd[i];
      } else if i > |cmd| {
        assert line[i] == rest[i - |cmd| - 1];
      }
    }
  }

  /** A completed command, possibly holding a NUL, adds exactly one notification:
      the answer to the part before the first NUL. */
  lemma CommandAnswered(ds: seq<string>, cmd: string, rest: string)
    requires |cmd| + 1 + |rest| <= MaxCmdLen - 1
    requires NUL !in cmd
    requires forall i | 0 <= i < |cmd| :: Ordinary(cmd[i])
    requires forall i | 0 <= i < |rest| :: Ordinary(rest[i])
    ensures Answers(FeedAll(RxState([], ds), cmd + [NUL] + rest + [CR]).dispatched)
         == Answers(ds) + [Payload(Dispatch(cmd))]
  {
    var line := cmd + [NUL] + rest;
    OrdinaryAroundNul(cmd, rest);
    SingleCommand(ds, line);
    AnswersSnoc(ds, line);
    NulEndsCommand(cmd, rest);
  }

  /** The received stream cut at each CR, with line feeds dropped. */
  function SplitLines(data: string): (lines: seq<string>)
    ensures |lines| >= 1
    decreases |data|
  {
    if data == [] then [[]]
    else
      var rest := SplitLines(data[1..]);
      if data[0] == LF then rest
      else if data[0] == CR then [[]] + rest
      else [[data[0]] + rest[0]] + rest[1..]
  }

  /** The command a completed line dispatches: what it keeps, or none when it
      keeps nothing. */
  function LineCommand(line: string): seq<string>
  {
    if Kept(line) == [] then [] else [Kept(line)]
  }

  /** The commands dispatched by a sequence of completed lines, in order. */
  function Completed(lines: seq<string>): seq<string>
    decreases |lines|
  {
    if lines == [] then [] else LineCommand(lines[0]) + Completed(lines[1..])
  }

  /** The reference state for a current line `head` followed by the lines
      `tail`: every line but the last dispatches what it keeps, and the buffer
      holds what the last line keeps. */
  function Reference(ds: seq<string>, head: string, tail: seq<string>): RxState
    decreases |tail|
  {
    if tail == [] then RxState(Kept(head), ds)
    else Reference(ds + LineCommand(head), tail[0], tail[1..])
  }

  /** The reference state, written over the whole sequence of lines. */
  lemma {:induction false} ReferenceIsCompleted(ds: seq<string>, lines: seq<string>)
    requires |lines| >= 1
    ensures Reference(ds, lines[0], lines[1..])
         == RxState(Kept(lines[|lines| - 1]), ds + Completed(lines[..|lines| - 1]))
    decreases |lines|
  {
    if |lines| == 1 {
      assert lines[..0] == [];
    } else {
      var rest := lines[1..];
      ReferenceIsCompleted(ds + LineCommand(lines[0]), rest);
      assert rest[|rest| - 1] == lines[|lines| - 1];
      var init := lines[..|lines| - 1];
      assert init[0] == lines[0] && init[1..] == rest[..|rest| - 1];
    }
  }

  /** How cutting the stream into lines proceeds by its first byte. */
  lemma SplitLinesStep(data: string)
    requires data != []
    ensures var rest := SplitLines(data[1..]);
      var ls := SplitLines(data);
      (data[0] == LF ==> ls == rest)
      && (data[0] == CR ==> ls[0] == [] && ls[1..] == rest)
      && (Ordinary(data[0]) ==> ls[0] == [data[0]] + rest[0] && ls[1..] == rest[1..])
  {
  }

  /** Two current lines that keep the same tail give the same reference state. */
  lemma ReferenceHead(ds: seq<string>, x: string, y: string, tail: seq<string>)
    requires Kept(x) == Kept(y)
    ensures Reference(ds, x, tail) == Reference(ds, y, tail)
  {
    if tail != [] {
      assert LineCommand(x) == LineCommand(y);
    }
  }

  /** A CR first completes the buffered line `p`: the reference continues from
      an empty buffer, after what `p` dispatches. */
  lemma ReferenceAfterCr(p: string, ds: seq<string>, data: string)
    requires |p| <= MaxCmdLen - 1
    requires data != [] && data[0] == CR
    ensures Feed(RxState(p, ds), CR) == RxState([], ds + LineCommand(p))
    ensures var ls, rest := SplitLines(data), SplitLines(data[1..]);
      Reference(ds, p + ls[0], ls[1..]) == Reference(ds + LineCommand(p), [] + rest[0], rest[1..])
  {
    SplitLinesStep(data);
    var rest := SplitLines(data[1..]);
    assert p + [] == p;
    assert ds + [] == ds;
    assert [] + rest[0] == rest[0];
    assert Reference(ds, p, rest) == Reference(ds + LineCommand(p), rest[0], rest[1..]);
  }

  /** The line held after storing `c` and then receiving `r` keeps what the
      whole line `p`, `c`, `r` keeps. */
  lemma KeptAfterByte(p: string, c: char, r: string)
    ensures Kept(Kept(p + [c]) + r) == Kept(p + ([c] + r))
  {
    var x := p + [c];
    KeptAppend(x, r);
    assert x + r == p + ([c] + r);
  }

  /** A stored byte first extends the buffered line: the reference continues
      from what the buffer keeps after it. */
  lemma ReferenceAfterByte(p: string, ds: seq<string>, data: string)
    requires |p| <= MaxCmdLen - 1
    requires data != [] && Ordinary(data[0])
    ensures var ls, rest := SplitLines(data), SplitLines(data[1..]);
      Reference(ds, p + ls[0], ls[1..]) == Reference(ds, Kept(p + [data[0]]) + rest[0], rest[1..])
  {
    SplitLinesStep(data);
    var rest := SplitLines(data[1..]);
    KeptAfterByte(p, data[0], rest[0]);
    ReferenceHead(ds, Kept(p + [data[0]]) + rest[0], p + ([data[0]] + rest[0]), rest[1..]);
  }

  /** The reference behaviour, continued from a buffer holding `p`: the first
      line of the stream extends `p`; every completed line dispatches what it
      keeps; the last, unterminated line stays in the buffer. */
  lemma {:induction false} FeedAllMatchesLines(p: string, ds: seq<string>, data: string)
    requires |p| <= MaxCmdLen - 1
    ensures var ls := SplitLines(data);
      FeedAll(RxState(p, ds), data) == Reference(ds, p + ls[0], ls[1..])
    decreases |data|
  {
    if data == [] {
      assert p + [] == p;
    } else if data[0] == LF {
      SplitLinesStep(data);
      FeedAllMatchesLines(p, ds, data[1..]);
    } else if data[0] == CR {
      ReferenceAfterCr(p, ds, data);
      FeedAllMatchesLines([], ds + LineCommand(p), data[1..]);
    } else {
      ReferenceAfterByte(p, ds, data);
      KeptStep(p, data[0]);
      FeedAllMatchesLines(Kept(p + [data[0]]), ds, data[1..]);
    }
  }

  /** From power-up, the accumulator dispatches what every completed line
      keeps, in order, and holds what the last line keeps. */
  lemma StreamMatchesLines(data: string)
    ensures var lines := SplitLines(data);
      FeedAll(Init, data) == RxState(Kept(lines[|lines| - 1]), Completed(lines[..|lines| - 1]))
  {
    var ls := SplitLines(data);
    var init, last := ls[..|ls| - 1], ls[|ls| - 1];
    FeedAllMatchesLines([], [], data);
    assert [] + ls[0] == ls[0];
    assert FeedAll(Init, data) == Reference([], ls[0], ls[1..]);
    ReferenceIsCompleted([], ls);
    assert [] + Completed(init) == Completed(init);
  }
}
