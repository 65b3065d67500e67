// Which daily file the buffered log writes to (BufferedEventLog in
// src/infrastructure/event_log.py): a file opened for the first buffered record stays the
// current one until the log is closed.
module BufferedFiles {
  import opened Common
  import opened LogFiles
  import opened BufferedLog

  // Every line lies in the file of its own day.
  ghost predicate InOwnFiles(log: seq<Filed<Record>>) {
    forall i :: 0 <= i < |log| ==> log[i].day == log[i].line.day
  }

  ghost predicate AllOfDay(records: seq<Record>, day: int) {
    forall i :: 0 <= i < |records| ==> records[i].day == day
  }

  lemma OwnFilesGrow(log: seq<Filed<Record>>, day: int, more: seq<Record>)
    ensures InOwnFiles(log + InFile(day, more)) <==> InOwnFiles(log) && AllOfDay(more, day)
  {
    var all := log + InFile(day, more);
    assert forall i :: 0 <= i < |log| ==> all[i] == log[i];
    assert forall i :: 0 <= i < |more| ==> all[|log| + i] == Filed(day, more[i]);
    if InOwnFiles(all) {
      forall i | 0 <= i < |more|
        ensures more[i].day == day
      {
        assert all[|log| + i].day == all[|log| + i].line.day;
      }
    }
  }

  // One flush writes the first buffered records, all to one file.
  lemma FlushWrites(s: BufferState, now: int, fault: Fault) returns (n: nat)
    ensures n <= |s.buffer| && (s.Flush(now, fault).buffer != s.buffer ==> n == |s.buffer|)
    ensures s.Flush(now, fault).written == s.written + if n == 0 then [] else InFile(s.DayOfFlush(), s.buffer[..n])
  {
    if s.buffer == [] || (s.fileDay.None? && fault.OpenFails?) {
      n := 0;
    } else if fault.FailsAfter? {
      n := if fault.lines < |s.buffer| then fault.lines else |s.buffer|;
    } else {
      n := |s.buffer|;
      assert s.buffer[..n] == s.buffer;
    }
  }

  // ---- Runs whose closes succeed -----------------------------------------------------------

  // The first record appended since the last close.
  function FirstSinceClose(ops: seq<Op>): Option<Record> {
    if ops == [] then None else FirstAfter(FirstSinceClose(ops[..|ops| - 1]), ops[|ops| - 1])
  }

  function FirstAfter(first: Option<Record>, op: Op): Option<Record> {
    match op
    case AppendOp(r, _, _, _) => if first.Some? then first else Some(r)
    case FlushOp(_, _) => first
    case CloseOp(_, _) => None
  }

  predicate OfFirstDay(first: Option<Record>, op: Op) {
    op.AppendOp? && first.Some? ==> op.record.day == first.value.day
  }

  // Between two closes only records of one day are appended.
  ghost predicate OneDayBetweenCloses(ops: seq<Op>) {
    forall k :: 0 <= k < |ops| ==> OfFirstDay(FirstSinceClose(ops[..k]), ops[k])
  }

  lemma {:induction false} OneDaySnoc(ops: seq<Op>, op: Op)
    ensures OneDayBetweenCloses(ops + [op]) <==> OneDayBetweenCloses(ops) && OfFirstDay(FirstSinceClose(ops), op)
  {
    var all := ops + [op];
    assert forall k :: 0 <= k < |ops| ==> all[..k] == ops[..k] && all[k] == ops[k];
    assert all[..|ops|] == ops && all[|ops|] == op;
    if OneDayBetweenCloses(all) {
      assert OfFirstDay(FirstSinceClose(all[..|ops|]), all[|ops|]);
      forall k | 0 <= k < |ops|
        ensures OfFirstDay(FirstSinceClose(ops[..k]), ops[k])
      {
        assert OfFirstDay(FirstSinceClose(all[..k]), all[k]);
      }
    }
  }

  // What links the state to the records since the last close.
  ghost predicate FollowsFirst(s: BufferState, first: Option<Record>) {
    && (s.fileDay.Some? ==> first.Some? && s.fileDay.value == first.value.day)
    && (s.fileDay.None? && s.buffer != [] ==> first == Some(s.buffer[0]))
    && (first.Some? <==> s.fileDay.Some? || s.buffer != [])
  }

  ghost predicate Buffered(s: BufferState, first: Option<Record>) {
    first.Some? ==> AllOfDay(s.buffer, first.value.day)
  }

  // A flush that fails keeps the whole buffer, so nothing about its days is forgotten.
  lemma FlushFollows(s: BufferState, first: Option<Record>, now: int, fault: Fault)
    requires FollowsFirst(s, first)
    ensures
      var t := s.Flush(now, fault);
      && FollowsFirst(t, first)
      && (InOwnFiles(t.written) && Buffered(t, first) <==> InOwnFiles(s.written) && Buffered(s, first))
    ensures fault.Healthy? ==> s.Flush(now, fault).buffer == []
  {
    var n := FlushWrites(s, now, fault);
    var t := s.Flush(now, fault);
    if n > 0 {
      assert t.written == s.written + InFile(s.DayOfFlush(), s.buffer[..n]);
      OwnFilesGrow(s.written, s.DayOfFlush(), s.buffer[..n]);
    } else {
      assert t.written == s.written;
    }
    if t.buffer != s.buffer {
      assert n == |s.buffer| && s.buffer[..n] == s.buffer && t.buffer == [];
    }
  }

  lemma AppendFollows(s: BufferState, first: Option<Record>, op: Op)
    requires FollowsFirst(s, first) && op.AppendOp?
    ensures
      var grown, now := s.(buffer := s.buffer + [op.record]), FirstAfter(first, op);
      && FollowsFirst(grown, now)
      && (Buffered(grown, now) <==> Buffered(s, first) && OfFirstDay(first, op))
  {
    var grown := s.buffer + [op.record];
    assert forall i :: 0 <= i < |s.buffer| ==> grown[i] == s.buffer[i];
    assert grown[|s.buffer|] == op.record;
  }

  lemma NextFollows(s: BufferState, first: Option<Record>, op: Op, c: Settings)
    requires FollowsFirst(s, first) && (op.CloseOp? ==> op.fault.Healthy?)
    ensures
      var t, now := Next(s, op, c), FirstAfter(first, op);
      && FollowsFirst(t, now)
      && (InOwnFiles(t.written) && Buffered(t, now)
          <==> InOwnFiles(s.written) && Buffered(s, first) && OfFirstDay(first, op))
  {
    match op
    case AppendOp(r, _, now, fault) =>
      AppendFollows(s, first, op);
      FlushFollows(s.(buffer := s.buffer + [r]), FirstAfter(first, op), now, fault);
    case FlushOp(now, fault) => FlushFollows(s, first, now, fault);
    case CloseOp(now, fault) => FlushFollows(s, first, now, fault);
  }

  // Whatever else fails, the log is closed only when its last flush succeeds.
  predicate ClosesSucceed(ops: seq<Op>) {
    forall i :: 0 <= i < |ops| ==> ops[i].CloseOp? ==> ops[i].fault.Healthy?
  }

  lemma {:induction false} RunFollowsFirst(ops: seq<Op>, c: Settings)
    requires ClosesSucceed(ops)
    ensures FollowsFirst(Run(ops, c), FirstSinceClose(ops))
    ensures InOwnFiles(Run(ops, c).written) && Buffered(Run(ops, c), FirstSinceClose(ops)) <==> OneDayBetweenCloses(ops)
  {
    if ops != [] {
      var front, op := ops[..|ops| - 1], ops[|ops| - 1];
      RunFollowsFirst(front, c);
      NextFollows(Run(front, c), FirstSinceClose(front), op, c);
      OneDaySnoc(front, op);
      assert ops == front + [op];
    }
  }

  // Over every run with any failures but those of closing, and with nothing left to write:
  // every line is in its own day's file exactly when no append has another day than the first
  // one since the last close.
  lemma OwnFilesIff(ops: seq<Op>, c: Settings)
    requires ClosesSucceed(ops) && Run(ops, c).buffer == []
    ensures InOwnFiles(Run(ops, c).written) <==> OneDayBetweenCloses(ops)
  {
    RunFollowsFirst(ops, c);
  }

  // Two appends of different days are enough: the second line goes to the first day's file.
  lemma SecondDayGoesToFirstFile(first: Record, second: Record, now: int, later: int, c: Settings)
    requires first.day != second.day
    ensures
      var ops := [AppendOp(first, true, now, Healthy), AppendOp(second, true, later, Healthy)];
      && Run(ops, c).written == [Filed(first.day, first), Filed(first.day, second)]
      && !InOwnFiles(Run(ops, c).written)
  {
    var a, b := AppendOp(first, true, now, Healthy), AppendOp(second, true, later, Healthy);
    assert [a, b][..1] == [a] && [a][..0] == [];
    assert Run([a][..0], c) == BufferState([], [], None, c.startedAt, 0);
    assert Run([a], c).written == [Filed(first.day, first)];
    assert Run([a, b], c).written == [Filed(first.day, first), Filed(first.day, second)];
    assert Run([a, b], c).written[1].day == first.day;
  }

  // ---- With failed closes, too -----------------------------------------------------------------------

  // What the operation has to write.
  function Pending(s: BufferState, op: Op): seq<Record> {
    s.buffer + RecordsOf(op)
  }

  // The first buffered record when the current file was opened.
  function OpenedFor(ops: seq<Op>, c: Settings): Option<Record> {
    if ops == [] then None
    else
      var front, op := ops[..|ops| - 1], ops[|ops| - 1];
      if op.CloseOp? || Run(ops, c).fileDay.None? then None
      else if OpenedFor(front, c).Some? then OpenedFor(front, c)
      else if Pending(Run(front, c), op) == [] then None
      else Some(Pending(Run(front, c), op)[0])
  }

  // The record whose day names the file that the operation writes to: the file stays the
  // open one; a new one is opened for the first pending record.
  function Names(ops: seq<Op>, op: Op, c: Settings): Option<Record> {
    var pending := Pending(Run(ops, c), op);
    if OpenedFor(ops, c).Some? then OpenedFor(ops, c)
    else if pending == [] then None else Some(pending[0])
  }

  lemma {:induction false} FileIsOfOpener(ops: seq<Op>, c: Settings)
    ensures Run(ops, c).fileDay.Some? <==> OpenedFor(ops, c).Some?
    ensures OpenedFor(ops, c).Some? ==> Run(ops, c).fileDay == Some(OpenedFor(ops, c).value.day)
  {
    if ops != [] {
      FileIsOfOpener(ops[..|ops| - 1], c);
    }
  }

  // Over every run with any failures: what an operation writes are the first pending
  // records, all to the file of the record that opened it.
  lemma WritesGoToOpenersFile(ops: seq<Op>, op: Op, c: Settings) returns (n: nat)
    ensures n <= |Pending(Run(ops, c), op)| && (n > 0 ==> Names(ops, op, c).Some?)
    ensures
      var more := Pending(Run(ops, c), op)[..n];
      Next(Run(ops, c), op, c).written
      == Run(ops, c).written + if n == 0 then [] else InFile(Names(ops, op, c).value.day, more)
  {
    FileIsOfOpener(ops, c);
    var s := Run(ops, c);
    match op
    case AppendOp(r, sync, now, fault) =>
      n := 0;
      if ShouldFlush(|s.buffer| + 1, c.threshold, sync, now - s.lastFlush, c.interval) {
        n := FlushWrites(s.(buffer := s.buffer + [r]), now, fault);
      }
    case FlushOp(now, fault) =>
      assert Pending(s, op) == s.buffer;
      n := FlushWrites(s, now, fault);
    case CloseOp(now, fault) =>
      assert Pending(s, op) == s.buffer;
      n := FlushWrites(s, now, fault);
  }

  // What was written behind `before` are pending records of one day only.
  ghost predicate OfDayOf(name: Option<Record>, pending: seq<Record>, before: nat, after: nat) {
    before < after <= before + |pending| && name.Some? ==> AllOfDay(pending[..after - before], name.value.day)
  }

  // The operation writes only records of the day of the record its file was opened for.
  ghost predicate WritesOwnDay(ops: seq<Op>, op: Op, c: Settings) {
    var s := Run(ops, c);
    OfDayOf(Names(ops, op, c), Pending(s, op), |s.written|, |Next(s, op, c).written|)
  }

  lemma WrittenGrows(before: seq<Filed<Record>>, after: seq<Filed<Record>>, name: Option<Record>,
                     pending: seq<Record>, n: nat)
    requires n <= |pending| && (n > 0 ==> name.Some?)
    requires after == before + if n == 0 then [] else InFile(name.value.day, pending[..n])
    ensures InOwnFiles(after) <==> InOwnFiles(before) && OfDayOf(name, pending, |before|, |after|)
  {
    if n > 0 {
      OwnFilesGrow(before, name.value.day, pending[..n]);
    } else {
      assert after == before;
    }
  }

  lemma WritesOwnDayIff(ops: seq<Op>, op: Op, c: Settings)
    ensures InOwnFiles(Next(Run(ops, c), op, c).written)
       <==> InOwnFiles(Run(ops, c).written) && WritesOwnDay(ops, op, c)
  {
    var n := WritesGoToOpenersFile(ops, op, c);
    var s := Run(ops, c);
    WrittenGrows(s.written, Next(s, op, c).written, Names(ops, op, c), Pending(s, op), n);
  }

  ghost predicate EachWritesOwnDay(ops: seq<Op>, c: Settings) {
    ops != [] ==>
      EachWritesOwnDay(ops[..|ops| - 1], c) && WritesOwnDay(ops[..|ops| - 1], ops[|ops| - 1], c)
  }

  // With any failures, failed closes included, this only adds up the operations: every line
  // is in its own day's file exactly when each operation writes only such records.
  lemma {:induction false} OwnFilesWithFailuresIff(ops: seq<Op>, c: Settings)
    ensures InOwnFiles(Run(ops, c).written) <==> EachWritesOwnDay(ops, c)
  {
    if ops != [] {
      OwnFilesWithFailuresIff(ops[..|ops| - 1], c);
      WritesOwnDayIff(ops[..|ops| - 1], ops[|ops| - 1], c);
    }
  }
}
