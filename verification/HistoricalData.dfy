// Paginated candle fetching, gap finding in daily mode, and backfilling
// (src/infrastructure/historical_data.py). Days are ordinal numbers in exchange time.
module HistoricalData {
  import opened Common
  import opened DateWindows

  // The day is missing when the time stamp cannot be read.
  datatype Candle = Candle(day: Option<int>, price: real)

  // The broker's candles for a range of days; `None` when the call fails.
  type Client = (int, int) -> Option<seq<Candle>>

  // ---- Paging ---------------------------------------------------------------------------

  // A page that fails contributes nothing.
  function PageOf(client: Client, w: Window): seq<Candle> {
    var page := client(w.first, w.last);
    if page.Some? then page.value else []
  }

  function Pages(client: Client, ws: seq<Window>): seq<Candle> {
    if ws == [] then [] else PageOf(client, ws[0]) + Pages(client, ws[1..])
  }

  lemma Associates(x: seq<Candle>, y: seq<Candle>, z: seq<Candle>)
    ensures (x + y) + z == x + (y + z)
  {
  }

  lemma {:induction false} PagesAppend(client: Client, a: seq<Window>, b: seq<Window>)
    ensures Pages(client, a + b) == Pages(client, a) + Pages(client, b)
  {
    if a == [] {
      assert a + b == b;
    } else {
      var rest := a[1..];
      PagesAppend(client, rest, b);
      assert (a + b)[1..] == rest + b && (a + b)[0] == a[0];
      Associates(PageOf(client, a[0]), Pages(client, rest), Pages(client, b));
    }
  }

  // The pages are what the calls return, one behind the other; a call that fails leaves out
  // its own candles and no others.
  lemma PagesSpec(client: Client, before: seq<Window>, w: Window)
    ensures Pages(client, []) == []
    ensures Pages(client, before + [w])
         == match client(w.first, w.last)
            case Some(page) => Pages(client, before) + page
            case None => Pages(client, before)
  {
    PagesAppend(client, before, [w]);
    assert [w][1..] == [];
    assert Pages(client, [w]) == PageOf(client, w);
  }

  function PageSize(pageDays: int): int {
    if pageDays < 1 then 1 else pageDays
  }

  method PaginatedFetch(client: Client, pageDays: int, fromDay: int, toDay: int) returns (candles: seq<Candle>)
    ensures candles == Pages(client, Windows(fromDay, toDay, if pageDays < 1 then 1 else pageDays))
  {
    var pageSize := if pageDays < 1 then 1 else pageDays;
    candles := [];
    var current := fromDay;
    while current <= toDay
      invariant candles + Pages(client, Windows(current, toDay, pageSize))
             == Pages(client, Windows(fromDay, toDay, pageSize))
      decreases toDay - current + 1
    {
      var pageEnd := if current + pageSize - 1 < toDay then current + pageSize - 1 else toDay;
      ghost var ahead := Windows(current, toDay, pageSize);
      assert ahead[1..] == Windows(pageEnd + 1, toDay, pageSize) && ahead[0] == Window(current, pageEnd);
      var page := client(current, pageEnd);
      if page.Some? {
        candles := candles + page.value;
      }
      current := pageEnd + 1;
    }
  }

  // The part of a table of dated candles that falls in a range of days.
  function Between(table: seq<Candle>, first: int, last: int): seq<Candle> {
    if table == [] then []
    else
      var c := table[|table| - 1];
      Between(table[..|table| - 1], first, last)
      + if c.day.Some? && first <= c.day.value <= last then [c] else []
  }

  // The rows of those days and no others, in their order.
  lemma {:induction false} BetweenSpec(before: seq<Candle>, c: Candle, after: seq<Candle>, first: int, last: int)
    ensures Between(before + [c] + after, first, last)
         == Between(before, first, last)
            + (if c.day.Some? && first <= c.day.value && c.day.value <= last then [c] else [])
            + Between(after, first, last)
  {
    var all := before + [c] + after;
    if after == [] {
      assert all == before + [c] && all[..|all| - 1] == before;
    } else {
      var front := after[..|after| - 1];
      BetweenSpec(before, c, front, first, last);
      assert all[..|all| - 1] == before + [c] + front;
    }
  }

  ghost predicate InDayOrder(table: seq<Candle>) {
    && (forall i :: 0 <= i < |table| ==> table[i].day.Some?)
    && (forall i, j :: 0 <= i < j < |table| ==> table[i].day.value <= table[j].day.value)
  }

  // A client that never fails and returns exactly the table's rows of each range.
  ghost predicate RangeExact(client: Client, table: seq<Candle>) {
    forall first, last :: first <= last ==> client(first, last) == Some(Between(table, first, last))
  }

  lemma {:induction false} NoneBetween(table: seq<Candle>, first: int, last: int)
    requires InDayOrder(table) && forall i :: 0 <= i < |table| ==> table[i].day.value < first
    ensures Between(table, first, last) == []
  {
    if table != [] {
      NoneBetween(table[..|table| - 1], first, last);
    }
  }

  lemma {:induction false} BetweenSplits(table: seq<Candle>, first: int, mid: int, last: int)
    requires InDayOrder(table) && first <= mid <= last
    ensures Between(table, first, last) == Between(table, first, mid) + Between(table, mid + 1, last)
  {
    if table != [] {
      var front, c := table[..|table| - 1], table[|table| - 1];
      BetweenSplits(front, first, mid, last);
      Associates(Between(front, first, mid), Between(front, mid + 1, last), [c]);
      if first <= c.day.value <= mid {
        NoneBetween(front, mid + 1, last);
        assert Between(table, mid + 1, last) == [];
      }
    }
  }

  // Paging is invisible: with a range-exact client the pages are one single fetch.
  lemma {:induction false} PagingIsInvisible(client: Client, table: seq<Candle>, size: int, fromDay: int, toDay: int)
    requires size >= 1 && RangeExact(client, table) && InDayOrder(table)
    ensures Pages(client, Windows(fromDay, toDay, size)) == Between(table, fromDay, toDay)
    decreases toDay - fromDay
  {
    if fromDay <= toDay {
      var last := if fromDay + size - 1 < toDay then fromDay + size - 1 else toDay;
      PagingIsInvisible(client, table, size, last + 1, toDay);
      var ws := Windows(fromDay, toDay, size);
      assert ws[1..] == Windows(last + 1, toDay, size) && ws[0] == Window(fromDay, last);
      if last < toDay {
        BetweenSplits(table, fromDay, last, toDay);
      } else {
        assert ws[1..] == [];
      }
    } else {
      EmptyRange(table, fromDay, toDay);
    }
  }

  lemma {:induction false} EmptyRange(table: seq<Candle>, first: int, last: int)
    requires last < first
    ensures Between(table, first, last) == []
  {
    if table != [] {
      EmptyRange(table[..|table| - 1], first, last);
    }
  }

  // ---- Gaps -----------------------------------------------------------------------------

  datatype GapRange = GapRange(fromDate: int, toDate: int)

  function DaysOf(candles: seq<Candle>): set<int> {
    if candles == [] then {}
    else
      var c := candles[|candles| - 1];
      DaysOf(candles[..|candles| - 1]) + if c.day.Some? then {c.day.value} else {}
  }

  lemma {:induction false} DaysOfSpec(candles: seq<Candle>, d: int)
    ensures d in DaysOf(candles) <==> exists c :: c in candles && c.day == Some(d)
  {
    if candles != [] {
      var front, last := candles[..|candles| - 1], candles[|candles| - 1];
      assert candles == front + [last] && last in candles;
      DaysOfSpec(front, d);
    }
  }

  lemma {:induction false} CountOnSpec(candles: seq<Candle>, d: int)
    ensures CountOn(candles, d) == |set i | 0 <= i < |candles| && candles[i].day == Some(d)|
  {
    if candles != [] {
      var front, last := candles[..|candles| - 1], candles[|candles| - 1];
      CountOnSpec(front, d);
      var all := set i | 0 <= i < |candles| && candles[i].day == Some(d);
      var some := set i | 0 <= i < |front| && front[i].day == Some(d);
      if last.day == Some(d) {
        assert all == some + {|front|};
      } else {
        assert all == some;
      }
    }
  }

  // A maximal run of absent days within the range.
  ghost predicate MaximalGap(g: GapRange, days: set<int>, fromDay: int, toDay: int) {
    && fromDay <= g.fromDate <= g.toDate <= toDay
    && (forall d :: g.fromDate <= d <= g.toDate ==> d !in days)
    && (g.fromDate == fromDay || g.fromDate - 1 in days)
    && (g.toDate == toDay || g.toDate + 1 in days)
  }

  ghost predicate InSomeGap(gaps: seq<GapRange>, d: int) {
    exists i :: 0 <= i < |gaps| && gaps[i].fromDate <= d <= gaps[i].toDate
  }

  // The gaps are all the maximal runs of absent days, in order.
  ghost predicate ExactGaps(gaps: seq<GapRange>, days: set<int>, fromDay: int, toDay: int) {
    && (forall i :: 0 <= i < |gaps| ==> MaximalGap(gaps[i], days, fromDay, toDay))
    && (forall i, j :: 0 <= i < j < |gaps| ==> gaps[i].toDate < gaps[j].fromDate)
    && (forall d :: fromDay <= d <= toDay && d !in days ==> InSomeGap(gaps, d))
  }

  function CountOn(candles: seq<Candle>, day: int): nat {
    if candles == [] then 0
    else CountOn(candles[..|candles| - 1], day) + if candles[|candles| - 1].day == Some(day) then 1 else 0
  }

  method CountByDay(candles: seq<Candle>) returns (byDay: map<int, nat>)
    ensures byDay.Keys == DaysOf(candles)
    ensures forall d :: d in byDay ==> byDay[d] == CountOn(candles, d) > 0
  {
    byDay := map[];
    for n := 0 to |candles|
      invariant byDay.Keys == DaysOf(candles[..n])
      invariant forall d :: CountOn(candles[..n], d) == if d in byDay then byDay[d] else 0
      invariant forall d :: d in byDay ==> byDay[d] > 0
    {
      assert candles[..n + 1][..n] == candles[..n];
      var c := candles[n];
      if c.day.Some? {
        var d := c.day.value;
        byDay := byDay[d := if d in byDay then byDay[d] + 1 else 1];
      }
    }
    assert candles[..|candles|] == candles;
  }

  ghost predicate IsMin(m: int, days: set<int>) { m in days && forall d :: d in days ==> m <= d }

  ghost predicate IsMax(m: int, days: set<int>) { m in days && forall d :: d in days ==> d <= m }

  lemma SomeDay(days: set<int>)
    ensures days == {} || exists d: int :: d in days
  {
    if forall d :: d !in days {
      assert days == {};
    }
  }

  method MinAndMax(days: set<int>) returns (least: int, greatest: int)
    requires days != {}
    ensures IsMin(least, days) && IsMax(greatest, days)
  {
    SomeDay(days);
    var d :| d in days;
    least, greatest := d, d;
    var rest := days - {d};
    while rest != {}
      invariant rest <= days && least in days && greatest in days
      invariant forall k :: k in days && k !in rest ==> least <= k <= greatest
      decreases |rest|
    {
      SomeDay(rest);
      var k :| k in rest;
      rest := rest - {k};
      least := if k < least then k else least;
      greatest := if k > greatest then k else greatest;
    }
  }

  // The range defaults to the days that have candles; without any, no gap is reported.
  method FindGaps(candles: seq<Candle>, fromDate: Option<int>, toDate: Option<int>)
      returns (gaps: seq<GapRange>, ghost first: int, ghost last: int)
    ensures DaysOf(candles) == {} ==> gaps == []
    ensures DaysOf(candles) != {} ==>
              && (if fromDate.Some? then first == fromDate.value else IsMin(first, DaysOf(candles)))
              && (if toDate.Some? then last == toDate.value else IsMax(last, DaysOf(candles)))
              && ExactGaps(gaps, DaysOf(candles), first, last)
  {
    gaps, first, last := [], 0, 0;
    var byDay := CountByDay(candles);
    if byDay == map[] {
      return;
    }
    assert byDay.Keys != {};
    var least, greatest := MinAndMax(byDay.Keys);
    var fromDay := if fromDate.Some? then fromDate.value else least;
    var toDay := if toDate.Some? then toDate.value else greatest;
    first, last := fromDay, toDay;
    gaps := ScanGaps(byDay, fromDay, toDay);
  }

  method ScanGaps(byDay: map<int, nat>, fromDay: int, toDay: int) returns (gaps: seq<GapRange>)
    requires forall d :: d in byDay ==> byDay[d] > 0
    ensures ExactGaps(gaps, byDay.Keys, fromDay, toDay)
  {
    gaps := [];
    var current, inGap, gapStart := fromDay, false, fromDay;
    while current <= toDay
      invariant fromDay <= current && (current <= toDay + 1 || current == fromDay)
      invariant inGap ==> OpenGap(byDay.Keys, fromDay, current, gapStart)
      invariant Scanned(gaps, byDay.Keys, fromDay, toDay, if inGap then gapStart else current)
      decreases toDay - current + 1
    {
      var present := current in byDay && byDay[current] > 0;
      if !present {
        if !inGap {
          inGap := true;
          gapStart := current;
        }
      } else {
        if inGap {
          CloseGap(gaps, byDay.Keys, fromDay, toDay, gapStart, current);
          gaps := gaps + [GapRange(gapStart, current - 1)];
        }
        PresentDay(gaps, byDay.Keys, fromDay, toDay, current);
        inGap := false;
      }
      current := current + 1;
    }
    if inGap {
      CloseGap(gaps, byDay.Keys, fromDay, toDay, gapStart, toDay + 1);
      gaps := gaps + [GapRange(gapStart, toDay)];
    }
  }

  // The scan stands at `current` inside a run of absent days that began at `start`.
  ghost predicate OpenGap(days: set<int>, fromDay: int, current: int, start: int) {
    && fromDay <= start < current
    && (forall d :: start <= d < current ==> d !in days)
    && (start == fromDay || start - 1 in days)
  }

  // The gaps found end before `upTo` and are exact for the days before it.
  ghost predicate FoundAll(gaps: seq<GapRange>, days: set<int>, fromDay: int, toDay: int, upTo: int) {
    && (forall i :: 0 <= i < |gaps| ==> MaximalGap(gaps[i], days, fromDay, toDay) && gaps[i].toDate < upTo)
    && (forall i, j :: 0 <= i < j < |gaps| ==> gaps[i].toDate < gaps[j].fromDate)
    && (forall d :: fromDay <= d < upTo && d !in days ==> InSomeGap(gaps, d))
  }

  ghost predicate Scanned(gaps: seq<GapRange>, days: set<int>, fromDay: int, toDay: int, upTo: int) {
    FoundAll(gaps, days, fromDay, toDay, upTo) && (upTo == fromDay || upTo - 1 in days)
  }

  lemma PresentDay(gaps: seq<GapRange>, days: set<int>, fromDay: int, toDay: int, current: int)
    requires FoundAll(gaps, days, fromDay, toDay, current) && current in days
    ensures Scanned(gaps, days, fromDay, toDay, current + 1)
  {
  }

  lemma CloseGap(gaps: seq<GapRange>, days: set<int>, fromDay: int, toDay: int, start: int, end: int)
    requires OpenGap(days, fromDay, end, start) && Scanned(gaps, days, fromDay, toDay, start)
    requires end <= toDay + 1 && (end == toDay + 1 || end in days)
    ensures FoundAll(gaps + [GapRange(start, end - 1)], days, fromDay, toDay, end)
  {
    var all := gaps + [GapRange(start, end - 1)];
    forall d | fromDay <= d < end && d !in days
      ensures InSomeGap(all, d)
    {
      if d < start {
        var i :| 0 <= i < |gaps| && gaps[i].fromDate <= d <= gaps[i].toDate;
        assert all[i] == gaps[i];
      } else {
        assert all[|gaps|].fromDate <= d <= all[|gaps|].toDate;
      }
    }
  }

  // There is only one such list: the description determines the gaps.
  lemma {:induction false} ExactGapsAreUnique(a: seq<GapRange>, b: seq<GapRange>, days: set<int>,
                                              fromDay: int, toDay: int)
    requires ExactGaps(a, days, fromDay, toDay) && ExactGaps(b, days, fromDay, toDay)
    ensures a == b
  {
    forall g
      ensures g in a <==> g in b
    {
      if g in a {
        SameGapElsewhere(a, b, days, fromDay, toDay, g);
      }
      if g in b {
        SameGapElsewhere(b, a, days, fromDay, toDay, g);
      }
    }
    GapsAscend(a, days, fromDay, toDay);
    GapsAscend(b, days, fromDay, toDay);
    SameElementsSameOrder(a, b, StartOf);
  }

  function StartOf(g: GapRange): int {
    g.fromDate
  }

  lemma GapsAscend(gaps: seq<GapRange>, days: set<int>, fromDay: int, toDay: int)
    requires ExactGaps(gaps, days, fromDay, toDay)
    ensures AscendingBy(gaps, StartOf)
  {
    forall i, j | 0 <= i < j < |gaps|
      ensures StartOf(gaps[i]) < StartOf(gaps[j])
    {
      assert MaximalGap(gaps[i], days, fromDay, toDay);
    }
  }

  lemma SameGapElsewhere(a: seq<GapRange>, b: seq<GapRange>, days: set<int>, fromDay: int, toDay: int, g: GapRange)
    requires ExactGaps(a, days, fromDay, toDay) && ExactGaps(b, days, fromDay, toDay) && g in a
    ensures g in b
  {
    assert MaximalGap(g, days, fromDay, toDay);
    assert InSomeGap(b, g.fromDate);
    var i :| 0 <= i < |b| && b[i].fromDate <= g.fromDate <= b[i].toDate;
    assert MaximalGap(b[i], days, fromDay, toDay);
    MaximalGapsThatMeet(g, b[i], days, fromDay, toDay);
  }

  lemma MaximalGapsThatMeet(g: GapRange, h: GapRange, days: set<int>, fromDay: int, toDay: int)
    requires MaximalGap(g, days, fromDay, toDay) && MaximalGap(h, days, fromDay, toDay)
    requires h.fromDate <= g.fromDate <= h.toDate
    ensures g == h
  {
  }

  // ---- Backfilling ----------------------------------------------------------------------

  method BackfillGap(client: Client, pageDays: int, gap: GapRange) returns (candles: seq<Candle>)
    ensures candles == Pages(client, Windows(gap.fromDate, gap.toDate, if pageDays < 1 then 1 else pageDays))
    ensures candles == Backfill(client, pageDays, gap)
  {
    candles := PaginatedFetch(client, pageDays, gap.fromDate, gap.toDate);
  }

  function Backfill(client: Client, pageDays: int, gap: GapRange): seq<Candle> {
    Pages(client, Windows(gap.fromDate, gap.toDate, PageSize(pageDays)))
  }

  function BackfillAll(client: Client, pageDays: int, gaps: seq<GapRange>): seq<Candle> {
    if gaps == [] then [] else Backfill(client, pageDays, gaps[0]) + BackfillAll(client, pageDays, gaps[1..])
  }

  // A client with at least one candle on every day it is asked for.
  ghost predicate HasEveryDay(client: Client) {
    forall first, last, d :: first <= d <= last ==> HasDay(client(first, last), d)
  }

  ghost predicate HasDay(page: Option<seq<Candle>>, d: int) {
    page.Some? && d in DaysOf(page.value)
  }

  lemma {:induction false} DaysOfAppend(a: seq<Candle>, b: seq<Candle>)
    ensures DaysOf(a + b) == DaysOf(a) + DaysOf(b)
  {
    if b == [] {
      assert a + b == a;
    } else {
      DaysOfAppend(a, b[..|b| - 1]);
      assert (a + b)[..|a + b| - 1] == a + b[..|b| - 1];
    }
  }

  lemma {:induction false} PagesHaveEveryDay(client: Client, fromDay: int, toDay: int, size: int, d: int)
    requires HasEveryDay(client) && size >= 1 && fromDay <= d <= toDay
    ensures d in DaysOf(Pages(client, Windows(fromDay, toDay, size)))
    decreases toDay - fromDay
  {
    var last := if fromDay + size - 1 < toDay then fromDay + size - 1 else toDay;
    var ws := Windows(fromDay, toDay, size);
    assert ws[1..] == Windows(last + 1, toDay, size) && ws[0] == Window(fromDay, last);
    DaysOfAppend(PageOf(client, ws[0]), Pages(client, ws[1..]));
    if last < d {
      PagesHaveEveryDay(client, last + 1, toDay, size, d);
    } else {
      assert HasDay(client(fromDay, last), d);
    }
  }

  lemma {:induction false} BackfillHasEveryGapDay(client: Client, pageDays: int, gaps: seq<GapRange>, d: int)
    requires HasEveryDay(client) && InSomeGap(gaps, d)
    ensures d in DaysOf(BackfillAll(client, pageDays, gaps))
  {
    var i :| 0 <= i < |gaps| && gaps[i].fromDate <= d <= gaps[i].toDate;
    DaysOfAppend(Backfill(client, pageDays, gaps[0]), BackfillAll(client, pageDays, gaps[1..]));
    if i == 0 {
      PagesHaveEveryDay(client, gaps[0].fromDate, gaps[0].toDate, PageSize(pageDays), d);
    } else {
      assert gaps[1..][i - 1] == gaps[i];
      BackfillHasEveryGapDay(client, pageDays, gaps[1..], d);
    }
  }

  // After backfilling every gap from such a client, the same range has no gap left.
  lemma BackfillingLeavesNoGap(client: Client, pageDays: int, candles: seq<Candle>, fromDay: int, toDay: int,
                               gaps: seq<GapRange>, after: seq<GapRange>)
    requires HasEveryDay(client)
    requires ExactGaps(gaps, DaysOf(candles), fromDay, toDay)
    requires ExactGaps(after, DaysOf(candles + BackfillAll(client, pageDays, gaps)), fromDay, toDay)
    ensures after == []
  {
    if after != [] {
      var d := after[0].fromDate;
      assert MaximalGap(after[0], DaysOf(candles + BackfillAll(client, pageDays, gaps)), fromDay, toDay);
      DaysOfAppend(candles, BackfillAll(client, pageDays, gaps));
      assert InSomeGap(gaps, d);
      BackfillHasEveryGapDay(client, pageDays, gaps, d);
    }
  }
}
