// The whole of resampling (DataLakeGateway._resample in src/datalake/gateway.py): rows are
// brought into order of time, rows of equal time staying in their order, then grouped,
// aggregated and freed of incomplete bars.
module Resampling {
  import opened Common
  import opened Resample
  import opened ResampleComposition

  function Insert(bars: seq<Bar>, b: Bar): seq<Bar> {
    if bars == [] || bars[|bars| - 1].ts <= b.ts then bars + [b]
    else Insert(bars[..|bars| - 1], b) + [bars[|bars| - 1]]
  }

  function SortByTime(bars: seq<Bar>): seq<Bar> {
    if bars == [] then [] else Insert(SortByTime(bars[..|bars| - 1]), bars[|bars| - 1])
  }

  function Resampled(bars: seq<Bar>, width: int): seq<Bar>
    requires width > 0
  {
    Returned(SortByTime(bars), width)
  }

  function Width(timeframe: string): int {
    if timeframe == "5m" then 5
    else if timeframe == "15m" then 15
    else if timeframe == "30m" then 30
    else if timeframe == "1h" then 60
    else if timeframe == "1D" then 1440
    else 0
  }

  // An unknown time frame leaves the rows as they are.
  function ResampleTo(bars: seq<Bar>, timeframe: string): seq<Bar> {
    if Width(timeframe) == 0 then bars else Resampled(bars, Width(timeframe))
  }

  // The supported time frames in minutes; rows asked for in any other one come back as they are.
  lemma SupportedTimeframes(bars: seq<Bar>, timeframe: string)
    ensures ResampleTo(bars, timeframe)
         == match timeframe
            case "5m" => Resampled(bars, 5)
            case "15m" => Resampled(bars, 15)
            case "30m" => Resampled(bars, 30)
            case "1h" => Resampled(bars, 60)
            case "1D" => Resampled(bars, 24 * 60)
            case _ => bars
  {
  }

  // ---- Sorting --------------------------------------------------------------------------------

  lemma {:induction false} InsertKeepsRows(bars: seq<Bar>, b: Bar)
    ensures multiset(Insert(bars, b)) == multiset(bars) + multiset{b}
  {
    if bars != [] && bars[|bars| - 1].ts > b.ts {
      assert bars == bars[..|bars| - 1] + [bars[|bars| - 1]];
      InsertKeepsRows(bars[..|bars| - 1], b);
    }
  }

  lemma {:induction false} InsertKeepsOrder(bars: seq<Bar>, b: Bar)
    requires TimeOrdered(bars)
    ensures TimeOrdered(Insert(bars, b))
  {
    if bars != [] && bars[|bars| - 1].ts > b.ts {
      var front, last := bars[..|bars| - 1], bars[|bars| - 1];
      InsertKeepsOrder(front, b);
      InsertKeepsRows(front, b);
      var r := Insert(front, b);
      forall i | 0 <= i < |r|
        ensures r[i].ts <= last.ts
      {
        assert r[i] in multiset(r);
        assert r[i] == b || r[i] in front;
      }
    }
  }

  lemma {:induction false} SortSpec(bars: seq<Bar>)
    ensures TimeOrdered(SortByTime(bars)) && multiset(SortByTime(bars)) == multiset(bars)
  {
    if bars != [] {
      assert bars == bars[..|bars| - 1] + [bars[|bars| - 1]];
      SortSpec(bars[..|bars| - 1]);
      InsertKeepsOrder(SortByTime(bars[..|bars| - 1]), bars[|bars| - 1]);
      InsertKeepsRows(SortByTime(bars[..|bars| - 1]), bars[|bars| - 1]);
    }
  }

  lemma SortKeepsMembers(bars: seq<Bar>)
    ensures TimeOrdered(SortByTime(bars)) && forall b :: b in SortByTime(bars) <==> b in bars
  {
    SortSpec(bars);
    assert forall b :: b in SortByTime(bars) <==> b in multiset(SortByTime(bars));
    assert forall b :: b in bars <==> b in multiset(bars);
  }

  lemma {:induction false} OrderedStays(bars: seq<Bar>)
    requires TimeOrdered(bars)
    ensures SortByTime(bars) == bars
  {
    if bars != [] {
      var front, last := bars[..|bars| - 1], bars[|bars| - 1];
      assert bars == front + [last];
      OrderedStays(front);
      assert front == [] || front[|front| - 1].ts <= last.ts;
    }
  }

  // Rows of one time stay in their order.
  lemma {:induction false} SortIsStable(bars: seq<Bar>, ts: int)
    ensures InTime(SortByTime(bars), ts) == InTime(bars, ts)
  {
    if bars != [] {
      SortIsStable(bars[..|bars| - 1], ts);
      InsertIsStable(SortByTime(bars[..|bars| - 1]), bars[|bars| - 1], ts);
    }
  }

  function InTime(bars: seq<Bar>, ts: int): seq<Bar> {
    if bars == [] then []
    else InTime(bars[..|bars| - 1], ts) + if bars[|bars| - 1].ts == ts then [bars[|bars| - 1]] else []
  }

  lemma {:induction false} InsertIsStable(bars: seq<Bar>, b: Bar, ts: int)
    ensures InTime(Insert(bars, b), ts) == InTime(bars, ts) + if b.ts == ts then [b] else []
  {
    if bars == [] || bars[|bars| - 1].ts <= b.ts {
      assert (bars + [b])[..|bars|] == bars;
    } else {
      var front, last := bars[..|bars| - 1], bars[|bars| - 1];
      InsertIsStable(front, b, ts);
      assert (Insert(front, b) + [last])[..|Insert(front, b)|] == Insert(front, b);
    }
  }

  // ---- What does not depend on the order of the rows -------------------------------------------

  lemma SameFilling(a: seq<Bar>, b: seq<Bar>, t: int, width: int)
    requires width > 0 && forall r :: r in a <==> r in b
    ensures FullBucket(a, t, width) <==> FullBucket(b, t, width)
  {
    var rowsA, rowsB := InBucket(a, Bucket(t, width), width), InBucket(b, Bucket(t, width), width);
    BucketMembers(a, Bucket(t, width), width);
    BucketMembers(b, Bucket(t, width), width);
    if Filled(rowsA) {
      FillingGrows(rowsA, rowsB);
    }
    if Filled(rowsB) {
      FillingGrows(rowsB, rowsA);
    }
  }

  // Each row's part of the volume that is lost.
  ghost function LostShare(bars: seq<Bar>, width: int): Bar -> int
    requires width > 0
  {
    (b: Bar) => if FullBucket(bars, b.ts, width) then 0 else Volume(b)
  }

  lemma {:induction false} LostVolume(rows: seq<Bar>, bars: seq<Bar>, width: int)
    requires width > 0
    ensures SumOf(Lost(rows, bars, width), Volume) == SumOf(rows, LostShare(bars, width))
  {
    if rows != [] {
      var front, b := rows[..|rows| - 1], rows[|rows| - 1];
      LostVolume(front, bars, width);
      var lost := Lost(front, bars, width);
      assert (lost + [b])[..|lost|] == lost && lost + [] == lost;
    }
  }

  lemma {:induction false} SameShares(rows: seq<Bar>, a: seq<Bar>, b: seq<Bar>, width: int)
    requires width > 0 && forall r :: r in a <==> r in b
    ensures SumOf(rows, LostShare(a, width)) == SumOf(rows, LostShare(b, width))
  {
    if rows != [] {
      SameShares(rows[..|rows| - 1], a, b, width);
      SameFilling(a, b, rows[|rows| - 1].ts, width);
    }
  }

  // ---- What is returned --------------------------------------------------------------------------

  // The bars before incomplete ones are dropped: one per bucket with rows, in strict order of
  // time, each the aggregate of the bucket's rows in order of time.
  lemma {:induction false} GroupedInOrder(bars: seq<Bar>, width: int)
    requires width > 0
    ensures IsGrouping(SortByTime(bars), width, Group(SortByTime(bars), width))
  {
    SortSpec(bars);
    GroupIsGrouping(SortByTime(bars), width);
  }

  // The returned bars are in strict order of time and start at multiples of the width, and
  // there is one for a bucket exactly when every column has a value in it: the aggregate of
  // the bucket's rows in order of time.
  lemma {:induction false} ResampledSpec(bars: seq<Bar>, width: int, g: Bar)
    requires width > 0
    ensures AscendingBy(Resampled(bars, width), TimeOf)
    ensures g in Resampled(bars, width)
       <==> Matches(SortByTime(bars), width, g) && Filled(InBucket(bars, g.ts, width))
    ensures g in Resampled(bars, width) ==> g.ts % width == 0
  {
    SortKeepsMembers(bars);
    ReturnedSpec(SortByTime(bars), width, g);
    if Matches(SortByTime(bars), width, g) {
      BucketOfMatch(SortByTime(bars), width, g);
      SameFilling(SortByTime(bars), bars, g.ts, width);
    }
  }

  lemma BucketOfMatch(bars: seq<Bar>, width: int, g: Bar)
    requires width > 0 && Matches(bars, width, g)
    ensures Bucket(g.ts, width) == g.ts
  {
    var rows := InBucket(bars, g.ts, width);
    BucketMembers(bars, g.ts, width);
    assert rows[0] in rows;
    BucketOfBucket(rows[0].ts, width, width);
  }

  // Of the total volume exactly that of rows in buckets that are not filled is lost; without
  // missing values none is.
  lemma {:induction false} ResampledVolume(bars: seq<Bar>, width: int)
    requires width > 0
    ensures SumOf(Resampled(bars, width), Volume) == SumOf(bars, Volume) - SumOf(Lost(bars, bars, width), Volume)
    ensures AllComplete(bars) ==> SumOf(Resampled(bars, width), Volume) == SumOf(bars, Volume)
  {
    var sorted := SortByTime(bars);
    SortSpec(bars);
    SortKeepsMembers(bars);
    ReturnedVolume(sorted, width);
    SumOfRearranged(sorted, bars, Volume);
    LostVolume(sorted, sorted, width);
    LostVolume(bars, bars, width);
    SumOfRearranged(sorted, bars, LostShare(sorted, width));
    SameShares(bars, sorted, bars, width);
    if AllComplete(bars) {
      SortedStaysComplete(bars);
    }
  }

  lemma SortedStaysComplete(bars: seq<Bar>)
    requires AllComplete(bars)
    ensures AllComplete(SortByTime(bars))
  {
    SortKeepsMembers(bars);
    forall i | 0 <= i < |SortByTime(bars)|
      ensures Complete(SortByTime(bars)[i])
    {
      assert SortByTime(bars)[i] in bars;
    }
  }

  // ---- Two steps against one --------------------------------------------------------------------

  lemma {:induction false} TwoSteps(bars: seq<Bar>, fine: int, coarse: int)
    requires fine > 0 && coarse > 0
    ensures Resampled(Resampled(bars, fine), coarse) == Returned(Returned(SortByTime(bars), fine), coarse)
  {
    var sorted := SortByTime(bars);
    SortSpec(bars);
    GroupIsGrouping(sorted, fine);
    DroppedMembers(Group(sorted, fine));
    forall i, j | 0 <= i < j < |Returned(sorted, fine)|
      ensures Returned(sorted, fine)[i].ts <= Returned(sorted, fine)[j].ts
    {
      assert TimeOf(Returned(sorted, fine)[i]) < TimeOf(Returned(sorted, fine)[j]);
    }
    OrderedStays(Returned(sorted, fine));
  }

  // Two steps are one step on the rows whose finer buckets are filled.
  lemma {:induction false} TwoStepsUseFullBuckets(bars: seq<Bar>, fine: int, coarse: int)
    requires fine > 0 && coarse > 0 && coarse % fine == 0
    ensures
      var sorted := SortByTime(bars);
      Resampled(Resampled(bars, fine), coarse) == Returned(Kept(sorted, sorted, fine), coarse)
  {
    SortSpec(bars);
    TwoSteps(bars, fine, coarse);
    TwoStepsReturnFullBuckets(SortByTime(bars), fine, coarse);
  }

  // Whatever the volumes, two steps agree with one when no row sits in a filled coarser bucket
  // and in a finer one that is not filled; and when rows without volume lack no other value,
  // they agree only then.
  lemma {:induction false} ResamplingComposesIff(bars: seq<Bar>, fine: int, coarse: int)
    requires fine > 0 && coarse > 0 && coarse % fine == 0
    ensures LosesNoRow(bars, fine, coarse) ==> Resampled(Resampled(bars, fine), coarse) == Resampled(bars, coarse)
    ensures Traded(bars) ==>
              (Resampled(Resampled(bars, fine), coarse) == Resampled(bars, coarse) <==> LosesNoRow(bars, fine, coarse))
  {
    var sorted := SortByTime(bars);
    SortKeepsMembers(bars);
    TwoSteps(bars, fine, coarse);
    ReturnedComposesIff(sorted, fine, coarse);
    forall b | b in bars
      ensures FullBucket(sorted, b.ts, coarse) <==> FullBucket(bars, b.ts, coarse)
      ensures FullBucket(sorted, b.ts, fine) <==> FullBucket(bars, b.ts, fine)
    {
      SameFilling(sorted, bars, b.ts, coarse);
      SameFilling(sorted, bars, b.ts, fine);
    }
    assert LosesNoRow(sorted, fine, coarse) <==> LosesNoRow(bars, fine, coarse);
    assert Traded(sorted) <==> Traded(bars);
  }

  // Without missing values no bar is ever dropped, so any two supported time frames compose.
  lemma {:induction false} TimeframesCompose(bars: seq<Bar>, fine: string, coarse: string)
    requires AllComplete(bars) && 0 < Width(fine) <= Width(coarse)
    ensures ResampleTo(ResampleTo(bars, fine), coarse) == ResampleTo(bars, coarse)
  {
    var sorted := SortByTime(bars);
    SortedStaysComplete(bars);
    TwoSteps(bars, Width(fine), Width(coarse));
    CompleteStaysComplete(sorted, Width(fine));
    NothingDropped(Group(sorted, Width(fine)));
    GroupComposes(sorted, Width(fine), Width(coarse));
  }

  // ---- Two rows that break composition -----------------------------------------------------------

  // The direct step keeps both rows in one complete bar, in whichever order they are.
  lemma DirectStepKeepsVolume(a: Bar, b: Bar, fine: int, coarse: int)
    requires LacksInterest(a, b, fine, coarse)
    ensures SumOf(Resampled([a, b], coarse), Volume) == Volume(a) + Volume(b)
  {
    SortOfPair(a, b);
    SumOfPair(a, b);
    SumOfPair(b, a);
    if a.ts <= b.ts {
      DirectStepKeepsBar(a, b, fine, coarse);
      SumOfBar(Merge(Single(Bucket(b.ts, coarse), a), b));
    } else {
      var merged := Merge(Single(Bucket(b.ts, coarse), b), a);
      GroupPair(b, a, coarse);
      assert Push([Single(Bucket(b.ts, coarse), b)], a, coarse) == [merged];
      DroppedOne(merged);
      SumOfBar(merged);
    }
  }

  lemma SumOfBar(b: Bar)
    ensures SumOf([b], Volume) == Volume(b)
  {
    assert [b][..0] == [];
    assert SumOf([b][..0], Volume) == 0;
  }

  lemma SumOfPair(a: Bar, b: Bar)
    ensures SumOf([a, b], Volume) == Volume(a) + Volume(b)
  {
    SumOfBar(a);
    assert [a, b][..1] == [a];
  }

  lemma SortOfPair(a: Bar, b: Bar)
    ensures SortByTime([a, b]) == if a.ts <= b.ts then [a, b] else [b, a]
  {
    assert [a, b][..1] == [a] && [a][..0] == [];
    assert SortByTime([a][..0]) == [];
    assert SortByTime([a]) == [a];
    assert Insert([a][..0], b) == [b];
  }

  lemma FinerStepDropsEither(a: Bar, b: Bar, fine: int, coarse: int)
    requires LacksInterest(a, b, fine, coarse)
    ensures Returned(SortByTime([a, b]), fine) == [Single(Bucket(b.ts, fine), b)]
  {
    SortOfPair(a, b);
    if a.ts <= b.ts {
      FinerStepDropsBar(a, b, fine, coarse);
    } else {
      var early, late := Single(Bucket(b.ts, fine), b), Single(Bucket(a.ts, fine), a);
      GroupPair(b, a, fine);
      assert Push([early], a, fine) == [early] + [late];
      DroppedOne(early);
      DroppedSnoc([early], late);
    }
  }

  // The finer step drops such a bar together with its volume, and the two ways differ.
  lemma {:induction false} DroppedBarBreaksComposition(a: Bar, b: Bar, fine: int, coarse: int)
    requires LacksInterest(a, b, fine, coarse)
    ensures Resampled(Resampled([a, b], fine), coarse) == [Single(Bucket(b.ts, coarse), b)]
    ensures Resampled(Resampled([a, b], fine), coarse) != Resampled([a, b], coarse)
  {
    var late := Single(Bucket(b.ts, fine), b);
    TwoSteps([a, b], fine, coarse);
    FinerStepDropsEither(a, b, fine, coarse);
    BucketOfBucket(b.ts, fine, coarse);
    GroupOne(late, coarse);
    DroppedOne(Single(Bucket(b.ts, coarse), b));
    DirectStepKeepsVolume(a, b, fine, coarse);
    SumOfBar(Single(Bucket(b.ts, coarse), b));
  }
}
