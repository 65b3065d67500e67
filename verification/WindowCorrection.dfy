// Correcting a symbol's stored candles by replacing whole days with freshly fetched rows
// (_correct_one in scripts/correct_tz_window.py). Time stamps are seconds.
module WindowCorrection {
  import opened Common

  const SECONDS_PER_DAY := 86400

  datatype Row = Row(ts: int, values: string)

  function Day(ts: int): int {
    ts / SECONDS_PER_DAY
  }

  function DaysOf(rows: seq<Row>): set<int> {
    if rows == [] then {} else DaysOf(rows[..|rows| - 1]) + {Day(rows[|rows| - 1].ts)}
  }

  // The rows outside the corrected days.
  function Keep(rows: seq<Row>, corrected: set<int>): seq<Row> {
    if rows == [] then []
    else Keep(rows[..|rows| - 1], corrected)
         + if Day(rows[|rows| - 1].ts) in corrected then [] else [rows[|rows| - 1]]
  }

  function WithoutTime(rows: seq<Row>, ts: int): seq<Row> {
    if rows == [] then []
    else WithoutTime(rows[..|rows| - 1], ts) + if rows[|rows| - 1].ts == ts then [] else [rows[|rows| - 1]]
  }

  // Of rows with equal time stamps, the last one stays.
  function KeepLast(rows: seq<Row>): seq<Row> {
    if rows == [] then []
    else WithoutTime(KeepLast(rows[..|rows| - 1]), rows[|rows| - 1].ts) + [rows[|rows| - 1]]
  }

  function Insert(rows: seq<Row>, r: Row): seq<Row> {
    if rows == [] || rows[|rows| - 1].ts <= r.ts then rows + [r]
    else Insert(rows[..|rows| - 1], r) + [rows[|rows| - 1]]
  }

  function SortByTime(rows: seq<Row>): seq<Row> {
    if rows == [] then [] else Insert(SortByTime(rows[..|rows| - 1]), rows[|rows| - 1])
  }

  // The stored table after a correction; without fetched rows it is not touched.
  function Corrected(existing: seq<Row>, fetched: seq<Row>): seq<Row> {
    if fetched == [] then existing
    else SortByTime(KeepLast(Keep(existing, DaysOf(fetched)) + fetched))
  }

  // ---- What each step keeps ---------------------------------------------------------------

  function TimeOf(r: Row): int {
    r.ts
  }

  // `r` is the last row with its time stamp.
  ghost predicate IsLast(rows: seq<Row>, r: Row) {
    exists i :: 0 <= i < |rows| && LastAt(rows, i) && rows[i] == r
  }

  ghost predicate LastAt(rows: seq<Row>, i: nat)
    requires i < |rows|
  {
    forall j :: i < j < |rows| ==> rows[j].ts != rows[i].ts
  }

  ghost predicate DistinctTimes(rows: seq<Row>) {
    forall i, j :: 0 <= i < j < |rows| ==> rows[i].ts != rows[j].ts
  }

  lemma IsLastSnoc(rows: seq<Row>, last: Row, r: Row)
    ensures IsLast(rows + [last], r) <==> r == last || (r.ts != last.ts && IsLast(rows, r))
  {
    var all := rows + [last];
    if IsLast(all, r) && r != last {
      var i :| 0 <= i < |all| && LastAt(all, i) && all[i] == r;
      assert all[|rows|].ts != r.ts;
      assert LastAt(rows, i) by {
        assert forall j :: i < j < |rows| ==> all[j] == rows[j];
      }
    }
    if r == last {
      assert LastAt(all, |rows|) && all[|rows|] == r;
    } else if r.ts != last.ts && IsLast(rows, r) {
      var i :| 0 <= i < |rows| && LastAt(rows, i) && rows[i] == r;
      assert all[i] == r && LastAt(all, i);
    }
  }

  lemma {:induction false} WithoutTimeSpec(rows: seq<Row>, ts: int)
    ensures forall r :: r in WithoutTime(rows, ts) <==> r in rows && r.ts != ts
    ensures DistinctTimes(rows) ==> DistinctTimes(WithoutTime(rows, ts))
  {
    if rows != [] {
      var front, last := rows[..|rows| - 1], rows[|rows| - 1];
      assert rows == front + [last];
      WithoutTimeSpec(front, ts);
      if DistinctTimes(rows) && last.ts != ts {
        TimesStayDistinct(front, last, WithoutTime(front, ts));
      }
    }
  }

  lemma TimesStayDistinct(front: seq<Row>, last: Row, some: seq<Row>)
    requires DistinctTimes(front + [last]) && DistinctTimes(some) && forall r :: r in some ==> r in front
    ensures DistinctTimes(some + [last])
  {
    forall i | 0 <= i < |some|
      ensures some[i].ts != last.ts
    {
      assert some[i] in front;
      var k :| 0 <= k < |front| && front[k] == some[i];
      assert (front + [last])[k].ts != (front + [last])[|front|].ts;
    }
  }

  lemma LastJoins(rows: seq<Row>, last: Row)
    requires DistinctTimes(rows)
    ensures DistinctTimes(WithoutTime(rows, last.ts) + [last])
    ensures forall r :: r in WithoutTime(rows, last.ts) + [last] <==> r == last || (r in rows && r.ts != last.ts)
  {
    WithoutTimeSpec(rows, last.ts);
  }

  lemma {:induction false} KeepLastSpec(rows: seq<Row>, r: Row)
    ensures r in KeepLast(rows) <==> IsLast(rows, r)
    ensures DistinctTimes(KeepLast(rows))
  {
    if rows != [] {
      var front, last := rows[..|rows| - 1], rows[|rows| - 1];
      assert rows == front + [last];
      KeepLastSpec(front, r);
      IsLastSnoc(front, last, r);
      LastJoins(KeepLast(front), last);
    }
  }

  lemma {:induction false} KeepSpec(rows: seq<Row>, corrected: set<int>, r: Row)
    ensures IsLast(Keep(rows, corrected), r) <==> IsLast(rows, r) && Day(r.ts) !in corrected
  {
    if rows != [] {
      var front, last := rows[..|rows| - 1], rows[|rows| - 1];
      assert rows == front + [last];
      KeepSpec(front, corrected, r);
      IsLastSnoc(front, last, r);
      if Day(last.ts) !in corrected {
        IsLastSnoc(Keep(front, corrected), last, r);
      } else {
        assert Keep(rows, corrected) == Keep(front, corrected);
      }
    }
  }

  // The whole day number `d`, counted from midnight to midnight.
  predicate Within(ts: int, d: int) {
    d * 86400 <= ts < (d + 1) * 86400
  }

  ghost predicate SameDay(a: int, b: int) {
    exists d: int :: Within(a, d) && Within(b, d)
  }

  lemma DayIff(ts: int, d: int)
    ensures Within(ts, d) <==> Day(ts) == d
  {
  }

  lemma {:induction false} DaysOfSpec(rows: seq<Row>, d: int)
    ensures d in DaysOf(rows) <==> exists r :: r in rows && Within(r.ts, d)
  {
    if rows != [] {
      var front, last := rows[..|rows| - 1], rows[|rows| - 1];
      assert rows == front + [last] && last in rows;
      DaysOfSpec(front, d);
      DayIff(last.ts, d);
    }
  }

  lemma DaysAreThoseOfRows(rows: seq<Row>, r: Row)
    ensures Day(r.ts) in DaysOf(rows) <==> exists f :: f in rows && SameDay(f.ts, r.ts)
  {
    var d := Day(r.ts);
    DaysOfSpec(rows, d);
    DayIff(r.ts, d);
    if d in DaysOf(rows) {
      var f :| f in rows && Within(f.ts, d);
      assert SameDay(f.ts, r.ts);
    }
    forall f, e | f in rows && Within(f.ts, e) && Within(r.ts, e)
      ensures e == d
    {
      DayIff(r.ts, e);
    }
  }

  // Behind rows of other days, the last rows are those of both parts.
  lemma {:induction false} LastOfBoth(a: seq<Row>, b: seq<Row>, r: Row)
    requires forall x, y :: x in a && y in b ==> x.ts != y.ts
    ensures IsLast(a + b, r) <==> IsLast(a, r) || IsLast(b, r)
  {
    if b == [] {
      assert a + b == a;
    } else {
      var front, last := b[..|b| - 1], b[|b| - 1];
      assert b == front + [last] && last in b;
      assert a + b == (a + front) + [last];
      LastOfBoth(a, front, r);
      IsLastSnoc(a + front, last, r);
      IsLastSnoc(front, last, r);
      assert IsLast(a, r) ==> r in a;
    }
  }

  // Rows from the front, and an earlier one, come before the last row.
  lemma AllBefore(rows: seq<Row>, some: seq<Row>, r: Row)
    requires rows != [] && AscendingBy(rows, TimeOf) && r.ts < rows[|rows| - 1].ts
    requires AscendingBy(some, TimeOf) && forall x :: x in some ==> x in rows[..|rows| - 1] || x == r
    ensures AscendingBy(some + [rows[|rows| - 1]], TimeOf)
  {
    forall i | 0 <= i < |some|
      ensures TimeOf(some[i]) < TimeOf(rows[|rows| - 1])
    {
      assert some[i] in some;
    }
  }

  lemma {:induction false} InsertSpec(rows: seq<Row>, r: Row)
    requires AscendingBy(rows, TimeOf) && forall x :: x in rows ==> x.ts != r.ts
    ensures AscendingBy(Insert(rows, r), TimeOf)
    ensures forall x :: x in Insert(rows, r) <==> x in rows || x == r
  {
    if rows != [] {
      var front, last := rows[..|rows| - 1], rows[|rows| - 1];
      assert rows == front + [last] && last in rows;
      if last.ts <= r.ts {
        assert forall i :: 0 <= i < |front| ==> TimeOf(rows[i]) < TimeOf(last);
      } else {
        assert AscendingBy(front, TimeOf) && forall x :: x in front ==> x in rows;
        InsertSpec(front, r);
        AllBefore(rows, Insert(front, r), r);
      }
    }
  }

  lemma {:induction false} SortSpec(rows: seq<Row>)
    requires DistinctTimes(rows)
    ensures AscendingBy(SortByTime(rows), TimeOf)
    ensures forall x :: x in SortByTime(rows) <==> x in rows
  {
    if rows != [] {
      var front, last := rows[..|rows| - 1], rows[|rows| - 1];
      assert rows == front + [last];
      SortSpec(front);
      assert forall x :: x in front ==> x.ts != last.ts;
      InsertSpec(SortByTime(front), last);
    }
  }

  // ---- Exact replacement --------------------------------------------------------------------

  // The corrected table is in strict order of time. A row on the same day as some fetched
  // row is in it if it is fetched, any other one if it was stored; of rows with equal time
  // stamps the last counts. Nothing fetched leaves the table as it was.
  lemma {:induction false} CorrectionIsExactReplacement(existing: seq<Row>, fetched: seq<Row>, r: Row)
    ensures fetched == [] ==> Corrected(existing, fetched) == existing
    ensures fetched != [] ==> AscendingBy(Corrected(existing, fetched), TimeOf)
    ensures fetched != [] ==>
              (r in Corrected(existing, fetched)
               <==> if exists f :: f in fetched && SameDay(f.ts, r.ts) then IsLast(fetched, r)
                    else IsLast(existing, r))
  {
    if fetched != [] {
      ReplacesByDays(existing, fetched, r);
      DaysAreThoseOfRows(fetched, r);
    }
  }

  lemma OwnDay(rows: seq<Row>, r: Row)
    requires r in rows
    ensures Day(r.ts) in DaysOf(rows)
  {
    DaysOfSpec(rows, Day(r.ts));
    DayIff(r.ts, Day(r.ts));
  }

  lemma {:induction false} ReplacesByDays(existing: seq<Row>, fetched: seq<Row>, r: Row)
    requires fetched != []
    ensures AscendingBy(Corrected(existing, fetched), TimeOf)
    ensures r in Corrected(existing, fetched)
       <==> if Day(r.ts) in DaysOf(fetched) then IsLast(fetched, r) else IsLast(existing, r)
  {
    var days := DaysOf(fetched);
    var kept := Keep(existing, days);
    KeepLastSpec(kept + fetched, r);
    SortSpec(KeepLast(kept + fetched));
    forall x, y | x in kept && y in fetched
      ensures x.ts != y.ts
    {
      KeptIsOther(existing, days, x);
      OwnDay(fetched, y);
    }
    LastOfBoth(kept, fetched, r);
    KeepSpec(existing, days, r);
    if IsLast(fetched, r) {
      OwnDay(fetched, r);
    }
  }

  lemma {:induction false} KeptIsOther(rows: seq<Row>, corrected: set<int>, r: Row)
    requires r in Keep(rows, corrected)
    ensures Day(r.ts) !in corrected
  {
    if rows != [] {
      var front := rows[..|rows| - 1];
      if r in Keep(front, corrected) {
        KeptIsOther(front, corrected, r);
      }
    }
  }

  lemma AscendingRowsAreLast(rows: seq<Row>, r: Row)
    requires AscendingBy(rows, TimeOf)
    ensures IsLast(rows, r) <==> r in rows
  {
    if r in rows {
      var i :| 0 <= i < |rows| && rows[i] == r;
      assert forall j :: i < j < |rows| ==> TimeOf(rows[i]) < TimeOf(rows[j]);
      assert LastAt(rows, i);
    }
  }

  // A second run with the same fetch changes nothing.
  lemma CorrectionIsIdempotent(existing: seq<Row>, fetched: seq<Row>)
    ensures Corrected(Corrected(existing, fetched), fetched) == Corrected(existing, fetched)
  {
    if fetched != [] {
      var once := Corrected(existing, fetched);
      var twice := Corrected(once, fetched);
      forall r
        ensures r in twice <==> r in once
      {
        CorrectionIsExactReplacement(existing, fetched, r);
        CorrectionIsExactReplacement(once, fetched, r);
        AscendingRowsAreLast(once, r);
      }
      CorrectionIsExactReplacement(existing, fetched, fetched[0]);
      CorrectionIsExactReplacement(once, fetched, fetched[0]);
      SameElementsSameOrder(twice, once, TimeOf);
    }
  }
}
