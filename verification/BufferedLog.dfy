// The buffered event log (class BufferedEventLog of src/infrastructure/event_log.py):
// appends gather in a buffer, a flush writes them out, and a failed flush keeps the whole
// buffer and tries again. Each line is written completely or not at all.
module BufferedLog {
  import opened Common
  import opened LogFiles

  // A buffered line: the record without its event id, and the date of its time stamp.
  datatype Record = Record(day: int, content: string)

  // What the file system does during one flush: opening the file may fail, or an error
  // strikes after some of the lines (after all of them when the final flush fails).
  datatype Fault = Healthy | OpenFails | FailsAfter(lines: nat)

  datatype BufferState = BufferState(
    written: seq<Filed<Record>>,
    buffer: seq<Record>,
    fileDay: Option<int>,
    lastFlush: int,
    flushCount: nat
  ) {
    // The file stays the one that is open; only a closed log picks a new one.
    function DayOfFlush(): int
      requires buffer != []
    {
      if fileDay.Some? then fileDay.value else buffer[0].day
    }

    function Flush(now: int, fault: Fault): BufferState {
      if buffer == [] || (fileDay.None? && fault.OpenFails?) then this
      else
        var day := DayOfFlush();
        if fault.FailsAfter? then
          var k := if fault.lines < |buffer| then fault.lines else |buffer|;
          this.(written := written + InFile(day, buffer[..k]), fileDay := Some(day))
        else
          BufferState(written + InFile(day, buffer), [], Some(day), now, flushCount + 1)
    }

    function Append(r: Record, flushNow: bool, now: int, fault: Fault): BufferState {
      var grown := this.(buffer := buffer + [r]);
      if flushNow then grown.Flush(now, fault) else grown
    }

    function Close(now: int, fault: Fault): BufferState {
      Flush(now, fault).(fileDay := None)
    }
  }

  // Sizes, clock readings and the sync flag decide when an append flushes.
  predicate ShouldFlush(pending: nat, threshold: int, syncMode: bool, elapsed: int, interval: int) {
    syncMode || pending >= threshold || elapsed >= interval
  }

  class BufferedEventLog {
    const flushThreshold: int
    const flushInterval: int
    var written: seq<Filed<Record>>
    var buffer: seq<Record>
    var fileDay: Option<int>
    var lastFlush: int
    var flushCount: nat

    function State(): BufferState
      reads this
    {
      BufferState(written, buffer, fileDay, lastFlush, flushCount)
    }

    constructor (threshold: int, interval: int, now: int)
      ensures State() == BufferState([], [], None, now, 0)
      ensures flushThreshold == threshold && flushInterval == interval
    {
      flushThreshold := threshold;
      flushInterval := interval;
      written := [];
      buffer := [];
      fileDay := None;
      lastFlush := now;
      flushCount := 0;
    }

    method Flush(now: int, fault: Fault)
      modifies this
      ensures State() == old(State()).Flush(now, fault)
    {
      if buffer == [] {
        return;
      }
      if fileDay.None? {
        if fault.OpenFails? {
          return;
        }
        fileDay := Some(buffer[0].day);
      }
      var n := 0;
      while n < |buffer|
        invariant 0 <= n <= |buffer|
        invariant fault.FailsAfter? ==> n <= fault.lines
        invariant written == old(written) + InFile(fileDay.value, buffer[..n])
        modifies `written
      {
        if fault.FailsAfter? && fault.lines == n {
          return;
        }
        written := written + [Filed(fileDay.value, buffer[n])];
        n := n + 1;
      }
      assert buffer[..|buffer|] == buffer;
      if fault.FailsAfter? {
        return;
      }
      flushCount := flushCount + 1;
      lastFlush := now;
      buffer := [];
    }

    method Append(r: Record, syncMode: bool, now: int, fault: Fault)
      modifies this
      ensures
        var flushNow := ShouldFlush(|old(buffer)| + 1, flushThreshold, syncMode, now - old(lastFlush), flushInterval);
        State() == old(State()).Append(r, flushNow, now, fault)
    {
      buffer := buffer + [r];
      if syncMode || |buffer| >= flushThreshold || now - lastFlush >= flushInterval {
        Flush(now, fault);
      }
    }

    method Close(now: int, fault: Fault)
      modifies this
      ensures State() == old(State()).Close(now, fault)
    {
      Flush(now, fault);
      fileDay := None;
    }
  }

  // ---- Whole runs -----------------------------------------------------------------------

  datatype Op =
    | AppendOp(record: Record, syncMode: bool, now: int, fault: Fault)
    | FlushOp(now: int, fault: Fault)
    | CloseOp(now: int, fault: Fault)

  datatype Settings = Settings(threshold: int, interval: int, startedAt: int)

  function Next(s: BufferState, op: Op, c: Settings): BufferState {
    match op
    case AppendOp(r, sync, now, fault) =>
      s.Append(r, ShouldFlush(|s.buffer| + 1, c.threshold, sync, now - s.lastFlush, c.interval), now, fault)
    case FlushOp(now, fault) => s.Flush(now, fault)
    case CloseOp(now, fault) => s.Close(now, fault)
  }

  function Run(ops: seq<Op>, c: Settings): BufferState {
    if ops == [] then BufferState([], [], None, c.startedAt, 0)
    else Next(Run(ops[..|ops| - 1], c), ops[|ops| - 1], c)
  }

  function RecordsOf(op: Op): seq<Record> {
    if op.AppendOp? then [op.record] else []
  }

  function Appended(ops: seq<Op>): seq<Record> {
    if ops == [] then []
    else Appended(ops[..|ops| - 1]) + RecordsOf(ops[|ops| - 1])
  }

  // `done` are the records that left the buffer. The files hold them all and, from failed
  // flushes, at most the first `reach` buffered ones, with repeats.
  ghost predicate Accounts(s: BufferState, done: seq<Record>, reach: nat) {
    && reach <= |s.buffer|
    && Dedupe(Lines(s.written)) == Dedupe(done + s.buffer[..reach])
    && multiset(done) <= multiset(Lines(s.written))
  }

  lemma LinesOfMore(log: seq<Filed<Record>>, day: int, more: seq<Record>)
    ensures Lines(log + InFile(day, more)) == Lines(log) + more
  {
  }

  // A flush that writes `k` buffered lines and then fails.
  lemma {:induction false} PartialFlushAccounts(s: BufferState, t: BufferState, done: seq<Record>, reach: nat,
                                                day: int, k: nat)
    requires Accounts(s, done, reach) && k <= |s.buffer|
    requires t.buffer == s.buffer && t.written == s.written + InFile(day, s.buffer[..k])
    ensures Accounts(t, done, if reach < k then k else reach)
  {
    LinesOfMore(s.written, day, s.buffer[..k]);
    DedupeCongruent(Lines(s.written), done + s.buffer[..reach], s.buffer[..k]);
    DedupeRepeatedPrefix(done, s.buffer, reach, k);
  }

  // A flush that succeeds.
  lemma {:induction false} FullFlushAccounts(s: BufferState, t: BufferState, done: seq<Record>, reach: nat, day: int)
    requires Accounts(s, done, reach)
    requires t.buffer == [] && t.written == s.written + InFile(day, s.buffer)
    ensures Accounts(t, done + s.buffer, 0)
  {
    assert s.buffer[..|s.buffer|] == s.buffer;
    PartialFlushAccounts(s, t.(buffer := s.buffer), done, reach, day, |s.buffer|);
    LinesOfMore(s.written, day, s.buffer);
    assert (done + s.buffer) + [] == done + s.buffer;
  }

  lemma {:induction false} FlushAccounts(s: BufferState, done: seq<Record>, reach: nat, now: int, fault: Fault)
      returns (done': seq<Record>, reach': nat)
    requires Accounts(s, done, reach)
    ensures Accounts(s.Flush(now, fault), done', reach')
    ensures done' + s.Flush(now, fault).buffer == done + s.buffer
  {
    if s.buffer == [] || (s.fileDay.None? && fault.OpenFails?) {
      return done, reach;
    } else if fault.FailsAfter? {
      var k := if fault.lines < |s.buffer| then fault.lines else |s.buffer|;
      PartialFlushAccounts(s, s.Flush(now, fault), done, reach, s.DayOfFlush(), k);
      return done, if reach < k then k else reach;
    } else {
      FullFlushAccounts(s, s.Flush(now, fault), done, reach, s.DayOfFlush());
      return done + s.buffer, 0;
    }
  }

  lemma GrownAccounts(s: BufferState, done: seq<Record>, reach: nat, r: Record)
    requires Accounts(s, done, reach)
    ensures Accounts(s.(buffer := s.buffer + [r]), done, reach)
  {
    assert (s.buffer + [r])[..reach] == s.buffer[..reach];
  }

  lemma AppendAccounts(s: BufferState, r: Record, flushNow: bool, now: int, fault: Fault, done: seq<Record>, reach: nat)
      returns (done': seq<Record>, reach': nat)
    requires Accounts(s, done, reach)
    ensures Accounts(s.Append(r, flushNow, now, fault), done', reach')
    ensures done' + s.Append(r, flushNow, now, fault).buffer == (done + s.buffer) + [r]
  {
    var grown := s.(buffer := s.buffer + [r]);
    GrownAccounts(s, done, reach, r);
    assert done + grown.buffer == (done + s.buffer) + [r];
    if flushNow {
      done', reach' := FlushAccounts(grown, done, reach, now, fault);
    } else {
      done', reach' := done, reach;
    }
  }

  lemma {:induction false} NextAccounts(s: BufferState, op: Op, c: Settings, done: seq<Record>, reach: nat)
      returns (done': seq<Record>, reach': nat)
    requires Accounts(s, done, reach)
    ensures Accounts(Next(s, op, c), done', reach')
    ensures done' + Next(s, op, c).buffer == (done + s.buffer) + RecordsOf(op)
  {
    match op
    case AppendOp(r, sync, now, fault) =>
      var flushNow := ShouldFlush(|s.buffer| + 1, c.threshold, sync, now - s.lastFlush, c.interval);
      done', reach' := AppendAccounts(s, r, flushNow, now, fault, done, reach);
    case FlushOp(now, fault) =>
      done', reach' := FlushAccounts(s, done, reach, now, fault);
    case CloseOp(now, fault) =>
      done', reach' := FlushAccounts(s, done, reach, now, fault);
  }

  lemma {:induction false} RunAccounts(ops: seq<Op>, c: Settings) returns (done: seq<Record>, reach: nat)
    ensures Accounts(Run(ops, c), done, reach)
    ensures done + Run(ops, c).buffer == Appended(ops)
  {
    if ops == [] {
      return [], 0;
    }
    done, reach := RunAccounts(ops[..|ops| - 1], c);
    done, reach := NextAccounts(Run(ops[..|ops| - 1], c), ops[|ops| - 1], c, done, reach);
  }

  lemma WrittenThenBuffered(s: BufferState, done: seq<Record>, reach: nat)
    requires Accounts(s, done, reach)
    ensures Dedupe(Lines(s.written) + s.buffer) == Dedupe(done + s.buffer)
    ensures multiset(done + s.buffer) <= multiset(Lines(s.written) + s.buffer)
  {
    DedupeCongruent(Lines(s.written), done + s.buffer[..reach], s.buffer);
    assert s.buffer[..|s.buffer|] == s.buffer;
    DedupeRepeatedPrefix(done, s.buffer, reach, |s.buffer|);
  }

  // Nothing is lost and nothing is reordered, whatever failed: dropping repeats from what
  // was written followed by what is buffered gives the appended records in order.
  lemma {:induction false} NeverLosesOrReorders(ops: seq<Op>, c: Settings)
    ensures Dedupe(Lines(Run(ops, c).written) + Run(ops, c).buffer) == Dedupe(Appended(ops))
    ensures multiset(Appended(ops)) <= multiset(Lines(Run(ops, c).written) + Run(ops, c).buffer)
    ensures Distinct(Appended(ops)) ==> Dedupe(Lines(Run(ops, c).written) + Run(ops, c).buffer) == Appended(ops)
  {
    var done, reach := RunAccounts(ops, c);
    WrittenThenBuffered(Run(ops, c), done, reach);
    if Distinct(Appended(ops)) {
      DedupeOfDistinct(Appended(ops));
    }
  }

  // A crash loses at most the buffer: the files hold, up to repeats, a prefix of the
  // appended records that includes every record no longer buffered.
  lemma CrashLosesAtMostTheBuffer(ops: seq<Op>, c: Settings) returns (n: nat)
    ensures |Appended(ops)| - |Run(ops, c).buffer| <= n <= |Appended(ops)|
    ensures Dedupe(Lines(Run(ops, c).written)) == Dedupe(Appended(ops)[..n])
  {
    var done, reach := RunAccounts(ops, c);
    n := |done| + reach;
    assert Appended(ops)[..n] == done + Run(ops, c).buffer[..reach];
  }

  predicate NoFailures(ops: seq<Op>) {
    forall i :: 0 <= i < |ops| ==> ops[i].fault.Healthy?
  }

  // Without failures every record appears exactly once, and after every operation the
  // buffer is below the flush threshold (empty when the threshold is not positive).
  lemma {:induction false} WithoutFailuresExactlyOnce(ops: seq<Op>, c: Settings)
    requires NoFailures(ops)
    ensures Lines(Run(ops, c).written) + Run(ops, c).buffer == Appended(ops)
    ensures |Run(ops, c).buffer| < if c.threshold < 1 then 1 else c.threshold
  {
    if ops != [] {
      var front, op := ops[..|ops| - 1], ops[|ops| - 1];
      WithoutFailuresExactlyOnce(front, c);
      var s := Run(front, c);
      assert op.fault.Healthy?;
      if op.AppendOp? {
        var grown := s.buffer + [op.record];
        assert Lines(s.written) + grown == Appended(ops);
        LinesOfMore(s.written, if s.fileDay.Some? then s.fileDay.value else grown[0].day, grown);
      } else if s.buffer != [] {
        LinesOfMore(s.written, s.DayOfFlush(), s.buffer);
      }
    }
  }

  // ---- When and what a run writes -----------------------------------------------------------

  // The last operation found something to write and left nothing.
  predicate Cleared(ops: seq<Op>, c: Settings) {
    && ops != []
    && Run(ops[..|ops| - 1], c).buffer + RecordsOf(ops[|ops| - 1]) != []
    && Run(ops, c).buffer == []
  }

  // When a buffer was last written out in full; at first, when the log was made.
  function LastCleared(ops: seq<Op>, c: Settings): int {
    if ops == [] then c.startedAt
    else if Cleared(ops, c) then ops[|ops| - 1].now
    else LastCleared(ops[..|ops| - 1], c)
  }

  function TimesCleared(ops: seq<Op>, c: Settings): nat {
    if ops == [] then 0 else TimesCleared(ops[..|ops| - 1], c) + if Cleared(ops, c) then 1 else 0
  }

  lemma {:induction false} FlushTimesFromCalls(ops: seq<Op>, c: Settings)
    ensures Run(ops, c).lastFlush == LastCleared(ops, c)
    ensures Run(ops, c).flushCount == TimesCleared(ops, c)
  {
    if ops != [] {
      FlushTimesFromCalls(ops[..|ops| - 1], c);
    }
  }

  // One more operation, over every run: an append waits exactly while it is not
  // synchronous, the buffer stays below the threshold and the last complete write is less
  // than the interval ago. Everything else writes all that is pending, or what the failure
  // lets through, and then keeps it all. A file stays open until the log is closed,
  // whatever fails behind its opening.
  lemma EveryStepWrites(ops: seq<Op>, op: Op, c: Settings)
    ensures
      var s, t := Run(ops, c), Run(ops + [op], c);
      var pending := s.buffer + if op.AppendOp? then [op.record] else [];
      var waits := op.AppendOp? && !op.syncMode && |pending| < c.threshold && op.now - LastCleared(ops, c) < c.interval;
      var n := if op.fault.FailsAfter? && op.fault.lines < |pending| then op.fault.lines else |pending|;
      if waits || pending == [] || (s.fileDay.None? && op.fault.OpenFails?) then
        t.written == s.written && t.buffer == pending
      else
        && Lines(t.written) == Lines(s.written) + pending[..n]
        && t.buffer == if op.fault.FailsAfter? then pending else []
    ensures
      var s, t := Run(ops, c), Run(ops + [op], c);
      var pending := s.buffer + if op.AppendOp? then [op.record] else [];
      var waits := op.AppendOp? && !op.syncMode && |pending| < c.threshold && op.now - LastCleared(ops, c) < c.interval;
      t.fileDay == if op.CloseOp? then None
                   else if s.fileDay.Some? || waits || pending == [] || op.fault.OpenFails? then s.fileDay
                   else Some(pending[0].day)
  {
    FlushTimesFromCalls(ops, c);
    assert (ops + [op])[..|ops|] == ops;
    var s := Run(ops, c);
    var pending := s.buffer + RecordsOf(op);
    assert pending[..|pending|] == pending;
    var n := if op.fault.FailsAfter? && op.fault.lines < |pending| then op.fault.lines else |pending|;
    if pending != [] {
      LinesOfMore(s.written, s.(buffer := pending).DayOfFlush(), pending[..n]);
    }
  }
}
