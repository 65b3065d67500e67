// The at-least-once log and the idempotent fill pipeline together: replaying the log after
// any failures rebuilds what processing the appended trades once would have built.
module LogReplay {
  import opened Common
  import opened LogFiles
  import opened BufferedLog
  import Fills
  import FillSafety

  // How replay reads a record: a trade to deliver, or another kind of event.
  type Decoder = Record -> Option<Fills.Delivery>

  function DeliveriesIn(records: seq<Record>, decode: Decoder): seq<Fills.Delivery> {
    if records == [] then []
    else
      var last := decode(records[|records| - 1]);
      DeliveriesIn(records[..|records| - 1], decode) + if last.Some? then [last.value] else []
  }

  function Replayed(records: seq<Record>, decode: Decoder): Fills.PipelineState {
    Fills.Run(Fills.START, DeliveriesIn(records, decode))
  }

  lemma ReplayedSnoc(records: seq<Record>, r: Record, decode: Decoder)
    ensures
      var before := Replayed(records, decode);
      Replayed(records + [r], decode) == if decode(r).Some? then before.Next(decode(r).value) else before
  {
    assert (records + [r])[..|records|] == records;
    var ds := DeliveriesIn(records, decode);
    assert ds + [] == ds;
    if decode(r).Some? {
      assert (ds + [decode(r).value])[..|ds|] == ds;
    }
  }

  lemma {:induction false} DecodedIsDelivered(records: seq<Record>, r: Record, decode: Decoder)
    requires r in records && decode(r).Some?
    ensures decode(r).value in DeliveriesIn(records, decode)
  {
    if records[|records| - 1] != r {
      assert records == records[..|records| - 1] + [records[|records| - 1]];
      DecodedIsDelivered(records[..|records| - 1], r, decode);
    }
  }

  lemma {:induction false} OnlyFirstRecordsMatter(records: seq<Record>, decode: Decoder)
    ensures Replayed(records, decode) == Replayed(Dedupe(records), decode)
  {
    if records != [] {
      var front, r := records[..|records| - 1], records[|records| - 1];
      assert records == front + [r];
      OnlyFirstRecordsMatter(front, decode);
      ReplayedSnoc(front, r, decode);
      if r !in front {
        ReplayedSnoc(Dedupe(front), r, decode);
      } else if decode(r).Some? {
        DecodedIsDelivered(front, r, decode);
        var ds := DeliveriesIn(front, decode);
        var i :| 0 <= i < |ds| && ds[i] == decode(r).value;
        FillSafety.DeliveredOnceIsSettled(Fills.START, ds, i);
      }
    }
  }

  // Over every run of appends, flushes, closes and failures: replaying the files and then
  // the buffer gives the reducer, totals and book of processing each append once.
  lemma {:induction false} ReplayEqualsProcessing(ops: seq<Op>, c: Settings, decode: Decoder)
    ensures Replayed(Lines(Run(ops, c).written) + Run(ops, c).buffer, decode) == Replayed(Appended(ops), decode)
  {
    NeverLosesOrReorders(ops, c);
    OnlyFirstRecordsMatter(Lines(Run(ops, c).written) + Run(ops, c).buffer, decode);
    OnlyFirstRecordsMatter(Appended(ops), decode);
  }

  // ---- Files and their order -------------------------------------------------------------

  ghost predicate RecordsInOrder(records: seq<Record>) {
    forall i, j :: 0 <= i < j < |records| ==> records[i].day <= records[j].day
  }

  // All days the log knows are in order and at most `latest`.
  ghost predicate FilesInOrder(s: BufferState, latest: int) {
    && DaysInOrder(s.written)
    && RecordsInOrder(s.buffer)
    && (forall i :: 0 <= i < |s.buffer| ==> s.buffer[i].day <= latest)
    && (s.fileDay.Some? ==> s.fileDay.value <= latest)
    && (s.fileDay.Some? ==> forall i :: 0 <= i < |s.buffer| ==> s.fileDay.value <= s.buffer[i].day)
    && (forall i :: 0 <= i < |s.written| ==> s.written[i].day <= Floor(s, latest))
  }

  // The day of the file that the next flush would write to, or an upper bound of it.
  function Floor(s: BufferState, latest: int): int {
    if s.fileDay.Some? then s.fileDay.value else if s.buffer != [] then s.buffer[0].day else latest
  }

  lemma FlushKeepsOrder(s: BufferState, latest: int, now: int, fault: Fault)
    requires FilesInOrder(s, latest)
    ensures FilesInOrder(s.Flush(now, fault), latest)
  {
  }

  lemma {:induction false} NextKeepsOrder(s: BufferState, latest: int, op: Op, c: Settings)
    requires FilesInOrder(s, latest)
    requires op.AppendOp? ==> latest <= op.record.day
    ensures FilesInOrder(Next(s, op, c), if op.AppendOp? then op.record.day else latest)
  {
    match op
    case AppendOp(r, sync, now, fault) =>
      var grown := s.(buffer := s.buffer + [r]);
      assert FilesInOrder(grown, r.day);
      FlushKeepsOrder(grown, r.day, now, fault);
    case FlushOp(now, fault) => FlushKeepsOrder(s, latest, now, fault);
    case CloseOp(now, fault) => FlushKeepsOrder(s, latest, now, fault);
  }

  lemma {:induction false} OrderedAppendsKeepOrder(ops: seq<Op>, c: Settings) returns (latest: int)
    requires RecordsInOrder(Appended(ops))
    ensures FilesInOrder(Run(ops, c), latest)
    ensures Appended(ops) != [] ==> latest == Appended(ops)[|Appended(ops)| - 1].day
  {
    if ops == [] {
      return 0;
    }
    var front, op := ops[..|ops| - 1], ops[|ops| - 1];
    assert Appended(front) == Appended(ops)[..|Appended(front)|];
    latest := OrderedAppendsKeepOrder(front, c);
    if op.AppendOp? {
      assert Appended(ops)[|Appended(front)|] == op.record;
      if Appended(front) == [] {
        latest := op.record.day;
        NothingAppendedNothingKept(front, c);
      }
    }
    NextKeepsOrder(Run(front, c), latest, op, c);
    latest := if op.AppendOp? then op.record.day else latest;
  }

  lemma {:induction false} NothingAppendedNothingKept(ops: seq<Op>, c: Settings)
    requires Appended(ops) == []
    ensures Run(ops, c).written == [] && Run(ops, c).buffer == [] && Run(ops, c).fileDay.None?
  {
    if ops != [] {
      NothingAppendedNothingKept(ops[..|ops| - 1], c);
    }
  }

  // A crash at any point: reading the daily files back rebuilds exactly the state after
  // some prefix of the appended records, which includes all that had left the buffer.
  lemma CrashRecovery(ops: seq<Op>, c: Settings, decode: Decoder) returns (n: nat)
    requires RecordsInOrder(Appended(ops))
    ensures |Appended(ops)| - |Run(ops, c).buffer| <= n <= |Appended(ops)|
    ensures Replayed(Lines(ReplayOrder(Run(ops, c).written)), decode) == Replayed(Appended(ops)[..n], decode)
  {
    var latest := OrderedAppendsKeepOrder(ops, c);
    ReplayKeepsInsertionOrderIff(Run(ops, c).written);
    n := CrashLosesAtMostTheBuffer(ops, c);
    OnlyFirstRecordsMatter(Lines(Run(ops, c).written), decode);
    OnlyFirstRecordsMatter(Appended(ops)[..n], decode);
  }
}
