// Resampling one-minute bars to wider ones (DataLakeGateway._resample in
// src/datalake/gateway.py). Time stamps are minutes from a midnight, so the buckets of
// every supported width start at multiples of the width. A missing value is `None`.
module Resample {
  import opened Common

  datatype Bar = Bar(
    ts: int,
    open: Option<real>,
    high: Option<real>,
    low: Option<real>,
    close: Option<real>,
    volume: Option<int>,
    oi: Option<int>)

  // ---- The aggregation table ------------------------------------------------------------

  function First<T>(a: Option<T>, b: Option<T>): Option<T> { if a.Some? then a else b }

  function Last<T>(a: Option<T>, b: Option<T>): Option<T> { if b.Some? then b else a }

  function Max(a: Option<real>, b: Option<real>): Option<real> {
    if a.None? then b else if b.None? || b.value <= a.value then a else b
  }

  function Min(a: Option<real>, b: Option<real>): Option<real> {
    if a.None? then b else if b.None? || a.value <= b.value then a else b
  }

  function Volume(b: Bar): int {
    if b.volume.Some? then b.volume.value else 0
  }

  function Bucket(ts: int, width: int): int
    requires width > 0
  {
    ts - ts % width
  }

  // A group of one row; the sum of no volumes is zero.
  function Single(ts: int, b: Bar): Bar {
    b.(ts := ts, volume := Some(Volume(b)))
  }

  // A group extended by a later row.
  function Merge(a: Bar, b: Bar): Bar {
    Bar(a.ts, First(a.open, b.open), Max(a.high, b.high), Min(a.low, b.low),
        Last(a.close, b.close), Some(Volume(a) + Volume(b)), Last(a.oi, b.oi))
  }

  // Rows in order: each joins the last group or opens a new one.
  function Push(groups: seq<Bar>, b: Bar, width: int): seq<Bar>
    requires width > 0
  {
    var n := |groups|;
    if n > 0 && groups[n - 1].ts == Bucket(b.ts, width) then groups[..n - 1] + [Merge(groups[n - 1], b)]
    else groups + [Single(Bucket(b.ts, width), b)]
  }

  function Group(bars: seq<Bar>, width: int): seq<Bar>
    requires width > 0
  {
    if bars == [] then [] else Push(Group(bars[..|bars| - 1], width), bars[|bars| - 1], width)
  }

  predicate Complete(b: Bar) {
    b.open.Some? && b.high.Some? && b.low.Some? && b.close.Some? && b.volume.Some? && b.oi.Some?
  }

  function DropIncomplete(bars: seq<Bar>): seq<Bar> {
    if bars == [] then []
    else DropIncomplete(bars[..|bars| - 1]) + if Complete(bars[|bars| - 1]) then [bars[|bars| - 1]] else []
  }

  // For rows in order of time, which the code first brings them into.
  function Returned(bars: seq<Bar>, width: int): seq<Bar>
    requires width > 0
  {
    DropIncomplete(Group(bars, width))
  }

  // ---- Against the definition by buckets -------------------------------------------------

  ghost predicate TimeOrdered(bars: seq<Bar>) {
    forall i, j :: 0 <= i < j < |bars| ==> bars[i].ts <= bars[j].ts
  }

  ghost predicate StrictlyTimeOrdered(bars: seq<Bar>) {
    forall i, j :: 0 <= i < j < |bars| ==> bars[i].ts < bars[j].ts
  }

  // The rows of one bucket, and their aggregate.
  function InBucket(bars: seq<Bar>, ts: int, width: int): seq<Bar>
    requires width > 0
  {
    if bars == [] then []
    else
      var b := bars[|bars| - 1];
      InBucket(bars[..|bars| - 1], ts, width) + if Bucket(b.ts, width) == ts then [b] else []
  }

  function Aggregate(rows: seq<Bar>, ts: int): Bar
    requires rows != []
  {
    if |rows| == 1 then Single(ts, rows[0]) else Merge(Aggregate(rows[..|rows| - 1], ts), rows[|rows| - 1])
  }

  ghost predicate Matches(bars: seq<Bar>, width: int, g: Bar)
    requires width > 0
  {
    var rows := InBucket(bars, g.ts, width);
    rows != [] && g == Aggregate(rows, g.ts)
  }

  ghost predicate HasTime(groups: seq<Bar>, ts: int) {
    exists i :: 0 <= i < |groups| && groups[i].ts == ts
  }

  // One bar per bucket that has rows, in order of time, each the aggregate of its rows.
  ghost predicate IsGrouping(bars: seq<Bar>, width: int, groups: seq<Bar>)
    requires width > 0
  {
    && StrictlyTimeOrdered(groups)
    && (forall i :: 0 <= i < |groups| ==> Matches(bars, width, groups[i]))
    && (forall ts :: InBucket(bars, ts, width) != [] ==> HasTime(groups, ts))
  }

  lemma BucketMonotone(s: int, t: int, width: int)
    requires width > 0 && s <= t
    ensures Bucket(s, width) <= Bucket(t, width)
  {
    QuotientsOrdered(s, t, width);
    BucketIsMultiple(s, width);
    BucketIsMultiple(t, width);
    MultiplesOrdered(s / width, t / width, width);
  }

  lemma BucketIsMultiple(t: int, width: int)
    requires width > 0
    ensures Bucket(t, width) == (t / width) * width
    ensures Bucket(t, width) <= t < Bucket(t, width) + width
  {
  }

  // A row is in the bar that starts at a multiple of the width at or less than a width
  // before it.
  lemma InBarIff(t: int, start: int, width: int)
    requires width > 0
    ensures Bucket(t, width) == start <==> start % width == 0 && start <= t < start + width
  {
    BucketIsMultiple(t, width);
    if Bucket(t, width) == start {
      BucketIsAligned(t, width);
    } else if start % width == 0 && start <= t < start + width {
      assert start == (start / width) * width;
      SameResidue(t, start / width, width);
    }
  }

  // The rows of a bucket, in their order.
  lemma {:induction false} InBucketSpec(before: seq<Bar>, b: Bar, start: int, width: int)
    requires width > 0
    ensures InBucket([], start, width) == []
    ensures InBucket(before + [b], start, width)
         == if start % width == 0 && start <= b.ts < start + width then InBucket(before, start, width) + [b]
            else InBucket(before, start, width)
  {
    InBucketSnoc(before, b, start, width);
    InBarIff(b.ts, start, width);
  }

  lemma InBucketSnoc(bars: seq<Bar>, b: Bar, ts: int, width: int)
    requires width > 0
    ensures InBucket(bars + [b], ts, width)
         == if Bucket(b.ts, width) == ts then InBucket(bars, ts, width) + [b] else InBucket(bars, ts, width)
  {
    assert (bars + [b])[..|bars|] == bars;
  }

  lemma AggregateSnoc(rows: seq<Bar>, b: Bar, ts: int)
    requires rows != []
    ensures Aggregate(rows + [b], ts) == Merge(Aggregate(rows, ts), b)
  {
    assert (rows + [b])[..|rows|] == rows;
  }

  ghost predicate EndsAt(bars: seq<Bar>, groups: seq<Bar>, width: int)
    requires width > 0
  {
    |bars| > 0 ==> |groups| > 0 && groups[|groups| - 1].ts == Bucket(bars[|bars| - 1].ts, width)
  }

  lemma StillMatches(bars: seq<Bar>, b: Bar, width: int, g: Bar)
    requires width > 0 && Matches(bars, width, g) && g.ts != Bucket(b.ts, width)
    ensures Matches(bars + [b], width, g)
  {
    InBucketSnoc(bars, b, g.ts, width);
  }

  lemma MergedMatches(bars: seq<Bar>, b: Bar, width: int, g: Bar)
    requires width > 0 && Matches(bars, width, g) && g.ts == Bucket(b.ts, width)
    ensures Matches(bars + [b], width, Merge(g, b))
  {
    InBucketSnoc(bars, b, g.ts, width);
    AggregateSnoc(InBucket(bars, g.ts, width), b, g.ts);
  }

  lemma OpenedMatches(bars: seq<Bar>, b: Bar, width: int)
    requires width > 0 && InBucket(bars, Bucket(b.ts, width), width) == []
    ensures Matches(bars + [b], width, Single(Bucket(b.ts, width), b))
  {
    InBucketSnoc(bars, b, Bucket(b.ts, width), width);
  }

  // Where the groups of the extended rows stand.
  lemma TimesAfterPush(bars: seq<Bar>, b: Bar, width: int, groups: seq<Bar>, ts: int)
    requires width > 0 && InBucket(bars + [b], ts, width) != []
    requires InBucket(bars, ts, width) != [] ==> HasTime(groups, ts)
    ensures HasTime(Push(groups, b, width), ts)
  {
    InBucketSnoc(bars, b, ts, width);
    var after := Push(groups, b, width);
    if ts == Bucket(b.ts, width) {
      assert after[|after| - 1].ts == ts;
    } else {
      var i :| 0 <= i < |groups| && groups[i].ts == ts;
      assert after[i].ts == ts;
    }
  }

  lemma PushKeepsTimes(groups: seq<Bar>, b: Bar, width: int)
    requires width > 0 && StrictlyTimeOrdered(groups)
    requires groups == [] || groups[|groups| - 1].ts <= Bucket(b.ts, width)
    ensures StrictlyTimeOrdered(Push(groups, b, width))
  {
    forall i | 0 <= i < |groups| - 1
      ensures groups[i].ts < groups[|groups| - 1].ts
    {
    }
  }

  lemma PushKeepsMatches(bars: seq<Bar>, b: Bar, width: int, groups: seq<Bar>, i: nat)
    requires width > 0 && IsGrouping(bars, width, groups)
    requires groups == [] || groups[|groups| - 1].ts <= Bucket(b.ts, width)
    requires i < |Push(groups, b, width)|
    ensures Matches(bars + [b], width, Push(groups, b, width)[i])
  {
    var n, t := |groups|, Bucket(b.ts, width);
    if n > 0 && groups[n - 1].ts == t {
      if i == n - 1 {
        MergedMatches(bars, b, width, groups[i]);
      } else {
        StillMatches(bars, b, width, groups[i]);
      }
    } else if i == n {
      assert !HasTime(groups, t);
      OpenedMatches(bars, b, width);
    } else {
      StillMatches(bars, b, width, groups[i]);
    }
  }

  lemma {:induction false} PushKeepsGrouping(bars: seq<Bar>, b: Bar, width: int, groups: seq<Bar>)
    requires width > 0 && IsGrouping(bars, width, groups)
    requires groups == [] || groups[|groups| - 1].ts <= Bucket(b.ts, width)
    ensures IsGrouping(bars + [b], width, Push(groups, b, width))
  {
    PushKeepsTimes(groups, b, width);
    forall i | 0 <= i < |Push(groups, b, width)|
      ensures Matches(bars + [b], width, Push(groups, b, width)[i])
    {
      PushKeepsMatches(bars, b, width, groups, i);
    }
    forall ts | InBucket(bars + [b], ts, width) != []
      ensures HasTime(Push(groups, b, width), ts)
    {
      TimesAfterPush(bars, b, width, groups, ts);
    }
  }

  // On rows in order of time, one pass gives exactly one bar per bucket with rows.
  lemma {:induction false} GroupIsGrouping(bars: seq<Bar>, width: int)
    requires width > 0 && TimeOrdered(bars)
    ensures IsGrouping(bars, width, Group(bars, width)) && EndsAt(bars, Group(bars, width), width)
  {
    if bars != [] {
      var front, b := bars[..|bars| - 1], bars[|bars| - 1];
      assert bars == front + [b];
      GroupIsGrouping(front, width);
      var groups := Group(front, width);
      if front != [] {
        BucketMonotone(front[|front| - 1].ts, b.ts, width);
      }
      EmptyGroups(front, width);
      PushKeepsGrouping(front, b, width, groups);
    }
  }

  lemma EmptyGroups(bars: seq<Bar>, width: int)
    requires width > 0
    ensures Group(bars, width) == [] <==> bars == []
  {
  }

  // Every bar starts at a multiple of the width.
  lemma {:induction false} BarsAreAligned(bars: seq<Bar>, width: int)
    requires width > 0
    ensures forall i :: 0 <= i < |Group(bars, width)| ==> Group(bars, width)[i].ts % width == 0
  {
    if bars != [] {
      BarsAreAligned(bars[..|bars| - 1], width);
      BucketIsAligned(bars[|bars| - 1].ts, width);
    }
  }

  lemma BucketIsAligned(t: int, width: int)
    requires width > 0
    ensures Bucket(t, width) % width == 0
  {
    BucketIsMultiple(t, width);
    SameResidue(Bucket(t, width), t / width, width);
  }

  predicate HasOpen(b: Bar) { b.open.Some? }

  predicate HasHigh(b: Bar) { b.high.Some? }

  predicate HasLow(b: Bar) { b.low.Some? }

  predicate HasClose(b: Bar) { b.close.Some? }

  predicate HasInterest(b: Bar) { b.oi.Some? }

  ghost predicate FirstWith(rows: seq<Bar>, has: Bar -> bool, i: int) {
    0 <= i < |rows| && has(rows[i]) && forall j :: 0 <= j < i ==> !has(rows[j])
  }

  ghost predicate LastWith(rows: seq<Bar>, has: Bar -> bool, i: int) {
    0 <= i < |rows| && has(rows[i]) && forall j :: i < j < |rows| ==> !has(rows[j])
  }

  ghost predicate Present(rows: seq<Bar>, has: Bar -> bool) {
    exists i :: 0 <= i < |rows| && has(rows[i])
  }

  // Every column has a value in some row; a sum of volumes always has one.
  ghost predicate Filled(rows: seq<Bar>) {
    && Present(rows, HasOpen) && Present(rows, HasHigh) && Present(rows, HasLow)
    && Present(rows, HasClose) && Present(rows, HasInterest)
  }

  // What an aggregate is: first and last present values, extremes that bound every row
  // and are attained, and the sum of the volumes. A column is missing only when it is
  // missing in every row.
  lemma {:induction false} AggregateSpec(rows: seq<Bar>, ts: int)
    requires rows != []
    ensures
      var a := Aggregate(rows, ts);
      && a.ts == ts && a.volume == Some(SumOf(rows, Volume))
      && (forall i :: 0 <= i < |rows| && rows[i].high.Some? ==> a.high.Some? && rows[i].high.value <= a.high.value)
      && (forall i :: 0 <= i < |rows| && rows[i].low.Some? ==> a.low.Some? && a.low.value <= rows[i].low.value)
      && (a.high.Some? ==> exists i :: 0 <= i < |rows| && rows[i].high == a.high)
      && (a.low.Some? ==> exists i :: 0 <= i < |rows| && rows[i].low == a.low)
      && (forall i :: FirstWith(rows, HasOpen, i) ==> a.open == rows[i].open)
      && (forall i :: LastWith(rows, HasClose, i) ==> a.close == rows[i].close)
      && (forall i :: LastWith(rows, HasInterest, i) ==> a.oi == rows[i].oi)
    ensures Complete(Aggregate(rows, ts)) <==> Filled(rows)
    ensures |rows| == 1 ==>
              Aggregate(rows, ts).volume == if rows[0].volume.Some? then rows[0].volume else Some(0)
  {
    ExtremesAndVolume(rows, ts);
    FirstOpen(rows, ts);
    LastClose(rows, ts);
    LastInterest(rows, ts);
    HighAndLowPresent(rows, ts);
  }

  lemma {:induction false} ExtremesAndVolume(rows: seq<Bar>, ts: int)
    requires rows != []
    ensures
      var a := Aggregate(rows, ts);
      && a.ts == ts && a.volume == Some(SumOf(rows, Volume))
      && (forall i :: 0 <= i < |rows| && rows[i].high.Some? ==> a.high.Some? && rows[i].high.value <= a.high.value)
      && (forall i :: 0 <= i < |rows| && rows[i].low.Some? ==> a.low.Some? && a.low.value <= rows[i].low.value)
      && (a.high.Some? ==> exists i :: 0 <= i < |rows| && rows[i].high == a.high)
      && (a.low.Some? ==> exists i :: 0 <= i < |rows| && rows[i].low == a.low)
  {
    if |rows| == 1 {
      assert rows[..0] == [];
      assert SumOf(rows[..0], Volume) == 0;
    } else {
      var front, last := rows[..|rows| - 1], rows[|rows| - 1];
      assert rows == front + [last];
      ExtremesAndVolume(front, ts);
      var a, b := Aggregate(front, ts), Aggregate(rows, ts);
      if b.high.Some? && b.high != last.high {
        var i :| 0 <= i < |front| && front[i].high == a.high;
        assert rows[i].high == b.high;
      }
      if b.low.Some? && b.low != last.low {
        var i :| 0 <= i < |front| && front[i].low == a.low;
        assert rows[i].low == b.low;
      }
    }
  }

  lemma {:induction false} FirstOpen(rows: seq<Bar>, ts: int)
    requires rows != []
    ensures forall i :: FirstWith(rows, HasOpen, i) ==> Aggregate(rows, ts).open == rows[i].open
    ensures Aggregate(rows, ts).open.Some? <==> Present(rows, HasOpen)
  {
    var front, last := rows[..|rows| - 1], rows[|rows| - 1];
    if |rows| > 1 {
      FirstOpen(front, ts);
      PresentSnoc(rows, HasOpen);
      forall i | FirstWith(rows, HasOpen, i)
        ensures Aggregate(rows, ts).open == rows[i].open
      {
        if i < |front| {
          assert FirstWith(front, HasOpen, i);
          assert HasOpen(front[i]);
        } else {
          assert forall j :: 0 <= j < |front| ==> front[j] == rows[j];
          assert !Present(front, HasOpen);
        }
      }
    }
  }

  lemma {:induction false} LastClose(rows: seq<Bar>, ts: int)
    requires rows != []
    ensures forall i :: LastWith(rows, HasClose, i) ==> Aggregate(rows, ts).close == rows[i].close
    ensures Aggregate(rows, ts).close.Some? <==> Present(rows, HasClose)
  {
    var front, last := rows[..|rows| - 1], rows[|rows| - 1];
    if |rows| > 1 {
      LastClose(front, ts);
      PresentSnoc(rows, HasClose);
      forall i | LastWith(rows, HasClose, i)
        ensures Aggregate(rows, ts).close == rows[i].close
      {
        if i < |front| {
          assert !HasClose(rows[|rows| - 1]);
          assert LastWith(front, HasClose, i);
        }
      }
    }
  }

  lemma {:induction false} LastInterest(rows: seq<Bar>, ts: int)
    requires rows != []
    ensures forall i :: LastWith(rows, HasInterest, i) ==> Aggregate(rows, ts).oi == rows[i].oi
    ensures Aggregate(rows, ts).oi.Some? <==> Present(rows, HasInterest)
  {
    var front, last := rows[..|rows| - 1], rows[|rows| - 1];
    if |rows| > 1 {
      LastInterest(front, ts);
      PresentSnoc(rows, HasInterest);
      forall i | LastWith(rows, HasInterest, i)
        ensures Aggregate(rows, ts).oi == rows[i].oi
      {
        if i < |front| {
          assert !HasInterest(rows[|rows| - 1]);
          assert LastWith(front, HasInterest, i);
        }
      }
    }
  }

  lemma {:induction false} HighAndLowPresent(rows: seq<Bar>, ts: int)
    requires rows != []
    ensures Aggregate(rows, ts).high.Some? <==> Present(rows, HasHigh)
    ensures Aggregate(rows, ts).low.Some? <==> Present(rows, HasLow)
    ensures Aggregate(rows, ts).volume.Some?
  {
    if |rows| > 1 {
      HighAndLowPresent(rows[..|rows| - 1], ts);
      PresentSnoc(rows, HasHigh);
      PresentSnoc(rows, HasLow);
    }
  }

  lemma PresentSnoc(rows: seq<Bar>, has: Bar -> bool)
    requires rows != []
    ensures Present(rows, has) <==> Present(rows[..|rows| - 1], has) || has(rows[|rows| - 1])
  {
    var front := rows[..|rows| - 1];
    if Present(front, has) {
      var i :| 0 <= i < |front| && has(front[i]);
      assert has(rows[i]);
    }
    if Present(rows, has) && !has(rows[|rows| - 1]) {
      var i :| 0 <= i < |rows| && has(rows[i]);
      assert has(front[i]);
    }
  }

  // A multiple of the width at or below `t` is at or below its bucket.
  lemma SameQuotient(t: int, m: int, width: int)
    requires width > 0 && m * width <= t
    ensures m * width <= Bucket(t, width)
  {
    BucketIsMultiple(t, width);
    if t / width < m {
      MultiplesOrdered(t / width + 1, m, width);
    }
    MultiplesOrdered(m, t / width, width);
  }

  lemma SameResidue(s: int, q: int, width: int)
    requires width > 0 && q * width <= s < (q + 1) * width
    ensures Bucket(s, width) == q * width
  {
    BucketIsMultiple(s, width);
    if s / width < q {
      MultiplesOrdered(s / width + 1, q, width);
    } else if q < s / width {
      MultiplesOrdered(q + 1, s / width, width);
    }
  }

  // ---- What is returned: the bars of filled buckets ---------------------------------------

  ghost predicate AllComplete(bars: seq<Bar>) {
    forall i :: 0 <= i < |bars| ==> Complete(bars[i])
  }

  lemma {:induction false} NothingDropped(bars: seq<Bar>)
    ensures AllComplete(bars) <==> DropIncomplete(bars) == bars
  {
    if bars != [] {
      var front, b := bars[..|bars| - 1], bars[|bars| - 1];
      assert bars == front + [b];
      NothingDropped(front);
      DroppedShrinks(front);
    }
  }

  lemma {:induction false} DroppedShrinks(bars: seq<Bar>)
    ensures |DropIncomplete(bars)| <= |bars|
  {
    if bars != [] {
      DroppedShrinks(bars[..|bars| - 1]);
    }
  }

  lemma {:induction false} CompleteStaysComplete(bars: seq<Bar>, width: int)
    requires width > 0 && AllComplete(bars)
    ensures AllComplete(Group(bars, width))
  {
    if bars != [] {
      CompleteStaysComplete(bars[..|bars| - 1], width);
    }
  }

  lemma DroppedSnoc(bars: seq<Bar>, b: Bar)
    ensures DropIncomplete(bars + [b]) == DropIncomplete(bars) + if Complete(b) then [b] else []
  {
    assert (bars + [b])[..|bars|] == bars;
  }

  // The row's bucket has a value in every column.
  ghost predicate FullBucket(bars: seq<Bar>, t: int, width: int)
    requires width > 0
  {
    Filled(InBucket(bars, Bucket(t, width), width))
  }

  // Those of some rows whose buckets among `bars` are filled, and the others.
  ghost function Kept(rows: seq<Bar>, bars: seq<Bar>, width: int): seq<Bar>
    requires width > 0
  {
    if rows == [] then []
    else
      var b := rows[|rows| - 1];
      Kept(rows[..|rows| - 1], bars, width) + if FullBucket(bars, b.ts, width) then [b] else []
  }

  ghost function Lost(rows: seq<Bar>, bars: seq<Bar>, width: int): seq<Bar>
    requires width > 0
  {
    if rows == [] then []
    else
      var b := rows[|rows| - 1];
      Lost(rows[..|rows| - 1], bars, width) + if FullBucket(bars, b.ts, width) then [] else [b]
  }

  lemma {:induction false} KeptInOrder(rows: seq<Bar>, bars: seq<Bar>, width: int)
    requires width > 0 && TimeOrdered(rows)
    ensures TimeOrdered(Kept(rows, bars, width))
    ensures forall b :: b in Kept(rows, bars, width) <==> b in rows && FullBucket(bars, b.ts, width)
  {
    if rows != [] {
      var front, b := rows[..|rows| - 1], rows[|rows| - 1];
      assert rows == front + [b];
      KeptInOrder(front, bars, width);
      var kept := Kept(front, bars, width);
      forall i | 0 <= i < |kept|
        ensures kept[i].ts <= b.ts
      {
        assert kept[i] in front;
      }
    }
  }

  lemma {:induction false} BucketOfKept(rows: seq<Bar>, bars: seq<Bar>, ts: int, width: int)
    requires width > 0
    ensures InBucket(Kept(rows, bars, width), ts, width)
         == if Filled(InBucket(bars, ts, width)) then InBucket(rows, ts, width) else []
  {
    if rows != [] {
      var front, b := rows[..|rows| - 1], rows[|rows| - 1];
      BucketOfKept(front, bars, ts, width);
      if FullBucket(bars, b.ts, width) {
        InBucketSnoc(Kept(front, bars, width), b, ts, width);
      } else {
        assert Kept(rows, bars, width) == Kept(front, bars, width);
      }
    }
  }

  function TimeOf(b: Bar): int {
    b.ts
  }

  lemma {:induction false} DroppedMembers(groups: seq<Bar>)
    requires StrictlyTimeOrdered(groups)
    ensures AscendingBy(DropIncomplete(groups), TimeOf)
    ensures forall g :: g in DropIncomplete(groups) <==> g in groups && Complete(g)
  {
    if groups != [] {
      var front, last := groups[..|groups| - 1], groups[|groups| - 1];
      assert groups == front + [last];
      DroppedMembers(front);
      var kept := DropIncomplete(front);
      forall i | 0 <= i < |kept|
        ensures TimeOf(kept[i]) < last.ts
      {
        assert kept[i] in front;
      }
    }
  }

  lemma GroupMembers(bars: seq<Bar>, width: int, g: Bar)
    requires width > 0 && TimeOrdered(bars)
    ensures g in Group(bars, width) <==> Matches(bars, width, g)
    ensures AscendingBy(Group(bars, width), TimeOf)
  {
    GroupIsGrouping(bars, width);
    var groups := Group(bars, width);
    if Matches(bars, width, g) {
      assert HasTime(groups, g.ts);
      var i :| 0 <= i < |groups| && groups[i].ts == g.ts;
      assert Matches(bars, width, groups[i]);
    }
  }

  // The returned bars are in strict order of time and start at multiples of the width, and
  // there is one for a bucket exactly when every column has a value in it: the aggregate of
  // the bucket's rows.
  lemma {:induction false} ReturnedSpec(bars: seq<Bar>, width: int, g: Bar)
    requires width > 0 && TimeOrdered(bars)
    ensures AscendingBy(Returned(bars, width), TimeOf)
    ensures g in Returned(bars, width) <==> Matches(bars, width, g) && Filled(InBucket(bars, g.ts, width))
    ensures g in Returned(bars, width) ==> g.ts % width == 0
  {
    GroupIsGrouping(bars, width);
    DroppedMembers(Group(bars, width));
    GroupMembers(bars, width, g);
    BarsAreAligned(bars, width);
    if Matches(bars, width, g) {
      AggregateSpec(InBucket(bars, g.ts, width), g.ts);
    }
  }

  // Dropping bars is as good as never having had the rows of their buckets.
  lemma {:induction false} ReturnedIsKept(bars: seq<Bar>, width: int)
    requires width > 0 && TimeOrdered(bars)
    ensures Returned(bars, width) == Group(Kept(bars, bars, width), width)
  {
    var kept := Kept(bars, bars, width);
    KeptInOrder(bars, bars, width);
    GroupIsGrouping(bars, width);
    GroupIsGrouping(kept, width);
    DroppedMembers(Group(bars, width));
    forall g: Bar
      ensures g in Returned(bars, width) <==> g in Group(kept, width)
    {
      ReturnedSpec(bars, width, g);
      GroupMembers(kept, width, g);
      BucketOfKept(bars, bars, g.ts, width);
    }
    SameElementsSameOrder(Returned(bars, width), Group(kept, width), TimeOf);
  }

  // ---- Conservation ----------------------------------------------------------------------

  // Grouping preserves the total volume.
  lemma {:induction false} VolumeIsPreserved(bars: seq<Bar>, width: int)
    requires width > 0
    ensures SumOf(Group(bars, width), Volume) == SumOf(bars, Volume)
  {
    if bars != [] {
      var front, b := bars[..|bars| - 1], bars[|bars| - 1];
      VolumeIsPreserved(front, width);
      var groups, after := Group(front, width), Group(bars, width);
      if groups != [] && groups[|groups| - 1].ts == Bucket(b.ts, width) {
        assert after[..|after| - 1] == groups[..|groups| - 1];
      } else {
        assert after[..|after| - 1] == groups;
      }
    }
  }

  // Of the total volume exactly that of rows in buckets that are not filled is lost; without
  // missing values none is.
  lemma ReturnedVolume(bars: seq<Bar>, width: int)
    requires width > 0
    ensures TimeOrdered(bars) ==>
              SumOf(Returned(bars, width), Volume) == SumOf(bars, Volume) - SumOf(Lost(bars, bars, width), Volume)
    ensures AllComplete(bars) ==> SumOf(Returned(bars, width), Volume) == SumOf(bars, Volume)
  {
    if TimeOrdered(bars) {
      ReturnedIsKept(bars, width);
      VolumeIsPreserved(Kept(bars, bars, width), width);
      KeptAndLostVolume(bars, bars, width);
    }
    if AllComplete(bars) {
      CompleteStaysComplete(bars, width);
      NothingDropped(Group(bars, width));
      VolumeIsPreserved(bars, width);
    }
  }

  lemma {:induction false} KeptAndLostVolume(rows: seq<Bar>, bars: seq<Bar>, width: int)
    requires width > 0
    ensures SumOf(Kept(rows, bars, width), Volume) + SumOf(Lost(rows, bars, width), Volume) == SumOf(rows, Volume)
  {
    if rows != [] {
      var front, b := rows[..|rows| - 1], rows[|rows| - 1];
      KeptAndLostVolume(front, bars, width);
      var kept, lost := Kept(front, bars, width), Lost(front, bars, width);
      if FullBucket(bars, b.ts, width) {
        assert (kept + [b])[..|kept|] == kept;
        assert Lost(rows, bars, width) == lost;
      } else {
        assert (lost + [b])[..|lost|] == lost;
        assert Kept(rows, bars, width) == kept;
      }
    }
  }
}
