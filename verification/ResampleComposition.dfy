// Resampling in two steps, first to a finer width and then to a multiple of it, against
// resampling directly (DataLakeGateway._resample in src/datalake/gateway.py).
module ResampleComposition {
  import opened Common
  import opened Resample

  lemma BucketOfBucket(t: int, fine: int, coarse: int)
    requires fine > 0 && coarse > 0 && coarse % fine == 0
    ensures Bucket(Bucket(t, fine), coarse) == Bucket(t, coarse)
  {
    var k, q := coarse / fine, t / coarse;
    BucketIsMultiple(t, coarse);
    BucketIsMultiple(t, fine);
    assert coarse == k * fine;
    var r := t - q * coarse;
    assert 0 <= r < coarse;
    assert q * coarse == (q * k) * fine;
    SameQuotient(t, q * k, fine);
    SameResidue(Bucket(t, fine), q, coarse);
  }

  lemma MergeAssociative(a: Bar, b: Bar, c: Bar)
    ensures Merge(Merge(a, b), c) == Merge(a, Merge(b, c))
  {
  }

  lemma MergeSingle(a: Bar, b: Bar, ts: int)
    ensures Merge(a, Single(ts, b)) == Merge(a, b)
    ensures Single(ts, Merge(a, b)) == Merge(Single(ts, a), b)
    ensures Single(ts, Single(a.ts, b)) == Single(ts, b)
  {
  }

  lemma GroupSnoc(bars: seq<Bar>, b: Bar, width: int)
    requires width > 0
    ensures Group(bars + [b], width) == Push(Group(bars, width), b, width)
  {
    assert (bars + [b])[..|bars|] == bars;
  }

  // Pushing a merged pair is pushing the one and then the other.
  lemma PushMerged(groups: seq<Bar>, l: Bar, b: Bar, width: int)
    requires width > 0 && Bucket(l.ts, width) == Bucket(b.ts, width)
    ensures Push(groups, Merge(l, b), width) == Push(Push(groups, l, width), b, width)
  {
    var n, t := |groups|, Bucket(b.ts, width);
    if n > 0 && groups[n - 1].ts == t {
      MergeAssociative(groups[n - 1], l, b);
    } else {
      MergeSingle(l, b, t);
    }
  }

  lemma PushSingle(groups: seq<Bar>, b: Bar, ts: int, width: int)
    requires width > 0 && Bucket(ts, width) == Bucket(b.ts, width)
    ensures Push(groups, Single(ts, b), width) == Push(groups, b, width)
  {
    if |groups| > 0 {
      MergeSingle(groups[|groups| - 1], b, ts);
    }
  }

  // Grouping to the finer width first changes nothing, missing values included. (The law
  // also holds for rows out of order of time, where one pass is not what pandas computes.)
  lemma {:induction false} GroupComposes(bars: seq<Bar>, fine: int, coarse: int)
    requires fine > 0 && coarse > 0 && coarse % fine == 0
    ensures Group(Group(bars, fine), coarse) == Group(bars, coarse)
  {
    if bars != [] {
      var front, b := bars[..|bars| - 1], bars[|bars| - 1];
      var groups, t := Group(front, fine), Bucket(b.ts, fine);
      GroupComposes(front, fine, coarse);
      BucketOfBucket(b.ts, fine, coarse);
      if groups != [] && groups[|groups| - 1].ts == t {
        var head, l := groups[..|groups| - 1], groups[|groups| - 1];
        assert groups == head + [l];
        GroupSnoc(head, l, coarse);
        GroupSnoc(head, Merge(l, b), coarse);
        PushMerged(Group(head, coarse), l, b, coarse);
      } else {
        GroupSnoc(groups, Single(t, b), coarse);
        PushSingle(Group(groups, coarse), b, t, coarse);
      }
    }
  }

  // ---- Two steps against one -----------------------------------------------------------------

  // Two steps are one step on the rows whose finer buckets are filled.
  lemma {:induction false} TwoStepsReturnFullBuckets(bars: seq<Bar>, fine: int, coarse: int)
    requires fine > 0 && coarse > 0 && coarse % fine == 0 && TimeOrdered(bars)
    ensures Group(Returned(bars, fine), coarse) == Group(Kept(bars, bars, fine), coarse)
  {
    ReturnedIsKept(bars, fine);
    GroupComposes(Kept(bars, bars, fine), fine, coarse);
  }

  // No row sits in a filled coarser bucket and in a finer one that is not filled.
  ghost predicate LosesNoRow(bars: seq<Bar>, fine: int, coarse: int)
    requires fine > 0 && coarse > 0
  {
    forall b :: b in bars && FullBucket(bars, b.ts, coarse) ==> FullBucket(bars, b.ts, fine)
  }

  predicate Priced(b: Bar) {
    HasOpen(b) && HasHigh(b) && HasLow(b) && HasClose(b) && HasInterest(b)
  }

  // Volumes are not negative, and a row without volume lacks no other value.
  ghost predicate Traded(bars: seq<Bar>) {
    forall b :: b in bars ==> Volume(b) >= 0 && (Volume(b) > 0 || Priced(b))
  }

  // Whatever the volumes, two steps agree with one when no such row is lost; and when rows
  // without volume lack no other value, they agree only then.
  lemma {:induction false} ReturnedComposesIff(bars: seq<Bar>, fine: int, coarse: int)
    requires fine > 0 && coarse > 0 && coarse % fine == 0 && TimeOrdered(bars)
    ensures LosesNoRow(bars, fine, coarse) ==> Returned(Returned(bars, fine), coarse) == Returned(bars, coarse)
    ensures Traded(bars) ==>
              (Returned(Returned(bars, fine), coarse) == Returned(bars, coarse) <==> LosesNoRow(bars, fine, coarse))
  {
    TwoStepsReturnFullBuckets(bars, fine, coarse);
    if LosesNoRow(bars, fine, coarse) {
      NothingLostAgrees(bars, fine, coarse);
    } else if Traded(bars) {
      var b :| b in bars && FullBucket(bars, b.ts, coarse) && !FullBucket(bars, b.ts, fine);
      if Priced(b) {
        PricedRowFills(bars, b, fine);
      }
      LostVolumeShows(bars, fine, coarse, b);
    }
  }

  lemma {:induction false} BucketMembers(rows: seq<Bar>, ts: int, width: int)
    requires width > 0
    ensures forall b :: b in InBucket(rows, ts, width) <==> b in rows && Bucket(b.ts, width) == ts
  {
    if rows != [] {
      assert rows == rows[..|rows| - 1] + [rows[|rows| - 1]];
      BucketMembers(rows[..|rows| - 1], ts, width);
    }
  }

  lemma PricedRowFills(bars: seq<Bar>, b: Bar, width: int)
    requires width > 0 && b in bars && Priced(b)
    ensures FullBucket(bars, b.ts, width)
  {
    var rows := InBucket(bars, Bucket(b.ts, width), width);
    BucketMembers(bars, Bucket(b.ts, width), width);
    var i :| 0 <= i < |rows| && rows[i] == b;
    assert HasOpen(rows[i]) && HasHigh(rows[i]) && HasLow(rows[i]) && HasClose(rows[i]) && HasInterest(rows[i]);
  }

  lemma FillingGrows(some: seq<Bar>, rows: seq<Bar>)
    requires Filled(some) && forall b :: b in some ==> b in rows
    ensures Filled(rows)
  {
    PresenceGrows(some, rows, HasOpen);
    PresenceGrows(some, rows, HasHigh);
    PresenceGrows(some, rows, HasLow);
    PresenceGrows(some, rows, HasClose);
    PresenceGrows(some, rows, HasInterest);
  }

  lemma PresenceGrows(some: seq<Bar>, rows: seq<Bar>, has: Bar -> bool)
    requires Present(some, has) && forall b :: b in some ==> b in rows
    ensures Present(rows, has)
  {
    var i :| 0 <= i < |some| && has(some[i]);
    assert some[i] in rows;
  }

  // A coarser bucket keeps all of its rows when all their finer buckets are filled.
  lemma {:induction false} CoarseBucketKept(rows: seq<Bar>, bars: seq<Bar>, fine: int, coarse: int, ts: int)
    requires fine > 0 && coarse > 0
    requires forall b :: b in rows && Bucket(b.ts, coarse) == ts ==> FullBucket(bars, b.ts, fine)
    ensures InBucket(Kept(rows, bars, fine), ts, coarse) == InBucket(rows, ts, coarse)
  {
    if rows != [] {
      var front, b := rows[..|rows| - 1], rows[|rows| - 1];
      assert rows == front + [b];
      CoarseBucketKept(front, bars, fine, coarse, ts);
      if FullBucket(bars, b.ts, fine) {
        InBucketSnoc(Kept(front, bars, fine), b, ts, coarse);
      } else {
        assert Kept(rows, bars, fine) == Kept(front, bars, fine);
      }
    }
  }

  lemma NothingLostAgrees(bars: seq<Bar>, fine: int, coarse: int)
    requires fine > 0 && coarse > 0 && TimeOrdered(bars) && LosesNoRow(bars, fine, coarse)
    ensures Returned(Kept(bars, bars, fine), coarse) == Returned(bars, coarse)
  {
    var kept := Kept(bars, bars, fine);
    KeptInOrder(bars, bars, fine);
    ReturnedAscends(bars, coarse);
    ReturnedAscends(kept, coarse);
    forall g: Bar
      ensures g in Returned(kept, coarse) <==> g in Returned(bars, coarse)
    {
      SameBarReturned(bars, fine, coarse, g);
    }
    SameElementsSameOrder(Returned(kept, coarse), Returned(bars, coarse), TimeOf);
  }

  lemma ReturnedAscends(bars: seq<Bar>, width: int)
    requires width > 0 && TimeOrdered(bars)
    ensures AscendingBy(Returned(bars, width), TimeOf)
  {
    GroupIsGrouping(bars, width);
    DroppedMembers(Group(bars, width));
  }

  lemma {:induction false} SameBarReturned(bars: seq<Bar>, fine: int, coarse: int, g: Bar)
    requires fine > 0 && coarse > 0 && TimeOrdered(bars) && LosesNoRow(bars, fine, coarse)
    ensures g in Returned(Kept(bars, bars, fine), coarse) <==> g in Returned(bars, coarse)
  {
    KeptInOrder(bars, bars, fine);
    ReturnedSpec(bars, coarse, g);
    ReturnedSpec(Kept(bars, bars, fine), coarse, g);
    SameCoarseBucket(bars, fine, coarse, g.ts);
  }

  lemma SameCoarseBucket(bars: seq<Bar>, fine: int, coarse: int, ts: int)
    requires fine > 0 && coarse > 0 && LosesNoRow(bars, fine, coarse) && TimeOrdered(bars)
    ensures
      var kept, rows := InBucket(Kept(bars, bars, fine), ts, coarse), InBucket(bars, ts, coarse);
      if Filled(rows) then kept == rows else !Filled(kept)
  {
    var kept, rows := InBucket(Kept(bars, bars, fine), ts, coarse), InBucket(bars, ts, coarse);
    if Filled(rows) {
      forall b | b in bars && Bucket(b.ts, coarse) == ts
        ensures FullBucket(bars, b.ts, fine)
      {
        assert FullBucket(bars, b.ts, coarse);
      }
      CoarseBucketKept(bars, bars, fine, coarse, ts);
    } else if Filled(kept) {
      KeptInOrder(bars, bars, fine);
      BucketMembers(Kept(bars, bars, fine), ts, coarse);
      BucketMembers(bars, ts, coarse);
      FillingGrows(kept, rows);
    }
  }

  // The volume of a bucket's rows.
  function VolumeIn(rows: seq<Bar>, ts: int, width: int): int
    requires width > 0
  {
    SumOf(InBucket(rows, ts, width), Volume)
  }

  lemma VolumeInSnoc(rows: seq<Bar>, b: Bar, ts: int, width: int)
    requires width > 0
    ensures VolumeIn(rows + [b], ts, width)
         == VolumeIn(rows, ts, width) + if Bucket(b.ts, width) == ts then Volume(b) else 0
  {
    InBucketSnoc(rows, b, ts, width);
    var here := InBucket(rows, ts, width);
    assert (here + [b])[..|here|] == here;
  }

  // Every row of a coarser bucket is kept or lost.
  lemma {:induction false} CoarseVolume(rows: seq<Bar>, bars: seq<Bar>, fine: int, coarse: int, ts: int)
    requires fine > 0 && coarse > 0
    ensures VolumeIn(Kept(rows, bars, fine), ts, coarse) + VolumeIn(Lost(rows, bars, fine), ts, coarse)
         == VolumeIn(rows, ts, coarse)
  {
    if rows != [] {
      var front, b := rows[..|rows| - 1], rows[|rows| - 1];
      assert rows == front + [b];
      CoarseVolume(front, bars, fine, coarse, ts);
      VolumeInSnoc(front, b, ts, coarse);
      if FullBucket(bars, b.ts, fine) {
        VolumeInSnoc(Kept(front, bars, fine), b, ts, coarse);
        assert Lost(rows, bars, fine) == Lost(front, bars, fine);
      } else {
        VolumeInSnoc(Lost(front, bars, fine), b, ts, coarse);
        assert Kept(rows, bars, fine) == Kept(front, bars, fine);
      }
    }
  }

  lemma {:induction false} LostMembers(rows: seq<Bar>, bars: seq<Bar>, width: int)
    requires width > 0
    ensures forall b :: b in Lost(rows, bars, width) <==> b in rows && !FullBucket(bars, b.ts, width)
  {
    if rows != [] {
      assert rows == rows[..|rows| - 1] + [rows[|rows| - 1]];
      LostMembers(rows[..|rows| - 1], bars, width);
    }
  }

  lemma {:induction false} VolumeOfMember(rows: seq<Bar>, b: Bar)
    requires b in rows && forall r :: r in rows ==> Volume(r) >= 0
    ensures SumOf(rows, Volume) >= Volume(b)
  {
    var front, last := rows[..|rows| - 1], rows[|rows| - 1];
    assert rows == front + [last];
    if b in front {
      VolumeOfMember(front, b);
    } else {
      VolumeNotNegative(front);
    }
  }

  lemma {:induction false} VolumeNotNegative(rows: seq<Bar>)
    requires forall r :: r in rows ==> Volume(r) >= 0
    ensures SumOf(rows, Volume) >= 0
  {
    if rows != [] {
      VolumeNotNegative(rows[..|rows| - 1]);
      assert rows[|rows| - 1] in rows;
    }
  }

  lemma {:induction false} LostVolumeShows(bars: seq<Bar>, fine: int, coarse: int, lost: Bar)
    requires fine > 0 && coarse > 0 && TimeOrdered(bars) && forall b :: b in bars ==> Volume(b) >= 0
    requires lost in bars && FullBucket(bars, lost.ts, coarse) && !FullBucket(bars, lost.ts, fine) && Volume(lost) > 0
    ensures Returned(Kept(bars, bars, fine), coarse) != Returned(bars, coarse)
  {
    var ts, kept := Bucket(lost.ts, coarse), Kept(bars, bars, fine);
    var rows := InBucket(bars, ts, coarse);
    var g := Aggregate(rows, ts);
    KeptInOrder(bars, bars, fine);
    BucketMembers(bars, ts, coarse);
    AggregateSpec(rows, ts);
    ReturnedSpec(bars, coarse, g);
    ReturnedSpec(kept, coarse, g);
    CoarseVolume(bars, bars, fine, coarse, ts);
    LostMembers(bars, bars, fine);
    BucketMembers(Lost(bars, bars, fine), ts, coarse);
    VolumeOfMember(InBucket(Lost(bars, bars, fine), ts, coarse), lost);
    if g in Returned(kept, coarse) {
      AggregateSpec(InBucket(kept, ts, coarse), ts);
    }
  }

  lemma GroupOne(b: Bar, width: int)
    requires width > 0
    ensures Group([b], width) == [Single(Bucket(b.ts, width), b)]
  {
    assert [b][..0] == [];
    assert Group([b][..0], width) == [];
  }

  lemma GroupPair(a: Bar, b: Bar, width: int)
    requires width > 0
    ensures Group([a, b], width) == Push([Single(Bucket(a.ts, width), a)], b, width)
  {
    GroupOne(a, width);
    assert [a, b][..1] == [a];
  }

  lemma DroppedOne(b: Bar)
    ensures DropIncomplete([b]) == if Complete(b) then [b] else []
  {
    assert [b][..0] == [];
    assert DropIncomplete([b][..0]) == [];
  }

  // Two rows in different fine buckets of one coarse bucket, the first lacking only its
  // open interest.
  ghost predicate LacksInterest(a: Bar, b: Bar, fine: int, coarse: int) {
    && fine > 0 && coarse > 0 && coarse % fine == 0
    && Bucket(a.ts, fine) != Bucket(b.ts, fine) && Bucket(a.ts, coarse) == Bucket(b.ts, coarse)
    && Complete(b) && a.oi.None? && Complete(a.(oi := b.oi)) && Volume(a) != 0
  }

  lemma FinerStepDropsBar(a: Bar, b: Bar, fine: int, coarse: int)
    requires LacksInterest(a, b, fine, coarse)
    ensures Returned([a, b], fine) == [Single(Bucket(b.ts, fine), b)]
  {
    var early, late := Single(Bucket(a.ts, fine), a), Single(Bucket(b.ts, fine), b);
    GroupPair(a, b, fine);
    assert Push([early], b, fine) == [early] + [late];
    DroppedOne(early);
    DroppedSnoc([early], late);
  }

  lemma DirectStepKeepsBar(a: Bar, b: Bar, fine: int, coarse: int)
    requires LacksInterest(a, b, fine, coarse)
    ensures Returned([a, b], coarse) == [Merge(Single(Bucket(b.ts, coarse), a), b)]
  {
    var merged := Merge(Single(Bucket(b.ts, coarse), a), b);
    GroupPair(a, b, coarse);
    assert Push([Single(Bucket(a.ts, coarse), a)], b, coarse) == [merged];
    DroppedOne(merged);
  }
}
