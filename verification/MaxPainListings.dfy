// When the max-pain query is right for every open interest (src/analytics/_options_sql.py):
// a condition on the listing alone, that is on which strikes are listed, at which spots and
// in how many rows.
module MaxPainListings {
  import opened Common
  import opened MaxPain

  // The chain has the rows of the listing, with whatever option types and interest.
  ghost predicate Lists(chain: Chain, listing: Chain) {
    |chain| == |listing| && forall i :: 0 <= i < |chain| ==> SameGroup(chain[i], listing[i])
  }

  // Every strike has a group of no more rows than any group at all.
  ghost predicate Even(listing: Chain) {
    forall a, b {:trigger HasSmallGroup(listing, b.strike, GroupSize(listing, a))} ::
      a in listing && b in listing ==> HasSmallGroup(listing, b.strike, GroupSize(listing, a))
  }

  ghost predicate HasSmallGroup(listing: Chain, strike: real, size: nat) {
    exists c :: c in listing && c.strike == strike && GroupSize(listing, c) <= size
  }

  // Every answer the query may give has no more pain than any settlement price.
  ghost predicate AlwaysRight(listing: Chain) {
    forall chain, r, price ::
      Lists(chain, listing) && NonNegativeInterest(chain) && IsMaxPain(chain, r) ==>
        Pain(chain, r.strike) <= Pain(chain, price)
  }

  lemma {:induction false} SameGroupSizes(chain: Chain, listing: Chain, a: OptionRow, b: OptionRow)
    requires Lists(chain, listing) && SameGroup(a, b)
    ensures GroupSize(chain, a) == GroupSize(listing, b)
  {
    if chain != [] {
      SameGroupSizes(chain[..|chain| - 1], listing[..|listing| - 1], a, b);
    }
  }

  // The row of the listing behind a row of the chain, and the other way round.
  lemma ListedAs(chain: Chain, listing: Chain, r: OptionRow) returns (b: OptionRow)
    requires Lists(chain, listing) && r in chain
    ensures b in listing && SameGroup(r, b) && GroupSize(chain, r) == GroupSize(listing, b)
  {
    var i :| 0 <= i < |chain| && chain[i] == r;
    b := listing[i];
    SameGroupSizes(chain, listing, r, b);
  }

  lemma RowOf(chain: Chain, listing: Chain, b: OptionRow) returns (r: OptionRow)
    requires Lists(chain, listing) && b in listing
    ensures r in chain && SameGroup(r, b) && GroupSize(chain, r) == GroupSize(listing, b)
  {
    var i :| 0 <= i < |listing| && listing[i] == b;
    r := chain[i];
    SameGroupSizes(chain, listing, r, b);
  }

  // ---- Even listings ----------------------------------------------------------------------

  lemma EvenIsRight(listing: Chain, chain: Chain, r: OptionRow, price: real)
    requires Even(listing) && Lists(chain, listing) && NonNegativeInterest(chain) && IsMaxPain(chain, r)
    ensures Pain(chain, r.strike) <= Pain(chain, price)
  {
    var best := ListedStrikeBeatsAnyPrice(chain, price);
    EvenBeatsListed(listing, chain, r, best);
  }

  lemma EvenBeatsListed(listing: Chain, chain: Chain, r: OptionRow, best: OptionRow)
    requires Even(listing) && Lists(chain, listing) && NonNegativeInterest(chain) && IsMaxPain(chain, r)
    requires best in chain
    ensures Pain(chain, r.strike) <= Pain(chain, best.strike)
  {
    var other := SmallRowAt(listing, chain, r, best);
    NotPassedOver(chain, r, other, best.strike);
  }

  // A row at the strike of `best` whose group is no larger than that of `r`.
  lemma SmallRowAt(listing: Chain, chain: Chain, r: OptionRow, best: OptionRow) returns (other: OptionRow)
    requires Even(listing) && Lists(chain, listing) && r in chain && best in chain
    ensures other in chain && other.strike == best.strike && GroupSize(chain, other) <= GroupSize(chain, r)
  {
    var a := ListedAs(chain, listing, r);
    var b := ListedAs(chain, listing, best);
    assert HasSmallGroup(listing, b.strike, GroupSize(listing, a));
    var c :| c in listing && c.strike == b.strike && GroupSize(listing, c) <= GroupSize(listing, a);
    other := RowOf(chain, listing, c);
  }

  // The answer has no more pain than a row of a group that is not larger.
  lemma {:induction false} NotPassedOver(chain: Chain, answer: OptionRow, other: OptionRow, strike: real)
    requires NonNegativeInterest(chain) && IsMaxPain(chain, answer) && other in chain && other.strike == strike
    requires GroupSize(chain, other) <= GroupSize(chain, answer)
    ensures Pain(chain, answer.strike) <= Pain(chain, strike)
  {
    var m, n := GroupSize(chain, answer), GroupSize(chain, other);
    GroupsAreNotEmpty(chain, answer);
    TotalIsSizeTimesPain(chain, chain, answer);
    TotalIsSizeTimesPain(chain, chain, other);
    PainNonNegative(chain, other.strike);
    TimesMonotone(n, m, Pain(chain, other.strike), Pain(chain, other.strike));
    if Pain(chain, other.strike) < Pain(chain, answer.strike) {
      TimesStrict(m, Pain(chain, other.strike), Pain(chain, answer.strike));
    }
  }

  // ---- Uneven listings: a chain that misleads ---------------------------------------------

  // The listing without any interest.
  function Idle(listing: Chain): (chain: Chain)
    ensures |chain| == |listing|
    ensures forall i :: 0 <= i < |chain| ==> chain[i] == OptionRow(listing[i].strike, listing[i].spot, CE, 0.0)
  {
    seq(|listing|, i requires 0 <= i < |listing| => OptionRow(listing[i].strike, listing[i].spot, CE, 0.0))
  }

  lemma {:induction false} IdlePain(listing: Chain, price: real)
    ensures Pain(Idle(listing), price) == 0.0
  {
    if listing != [] {
      IdlePain(listing[..|listing| - 1], price);
      assert Idle(listing)[..|listing| - 1] == Idle(listing[..|listing| - 1]);
    }
  }

  // Row `i` with another option type and interest.
  function With(chain: Chain, i: nat, kind: Kind, oi: real): Chain
    requires i < |chain|
  {
    chain[i := chain[i].(kind := kind, oi := oi)]
  }

  lemma {:induction false} WithPain(chain: Chain, i: nat, kind: Kind, oi: real, price: real)
    requires i < |chain| && chain[i].oi == 0.0
    ensures Pain(With(chain, i, kind, oi), price)
         == Pain(chain, price) + RowPain(price)(chain[i].(kind := kind, oi := oi))
  {
    var n, after := |chain| - 1, With(chain, i, kind, oi);
    if i == n {
      assert after[..n] == chain[..n];
    } else {
      WithPain(chain[..n], i, kind, oi, price);
      assert after[..n] == With(chain[..n], i, kind, oi);
    }
  }

  // Row `i` of the listing with an option type and interest.
  function Row(listing: Chain, i: nat, kind: Kind, oi: real): OptionRow
    requires i < |listing|
  {
    OptionRow(listing[i].strike, listing[i].spot, kind, oi)
  }

  // A call of `c` at row `l`, a put of `p` at row `h`, and a call of `q` at row `k` if any.
  function Loaded(listing: Chain, l: nat, c: real, h: nat, p: real, k: Option<nat>, q: real): Chain
    requires l < |listing| && h < |listing| && (k.Some? ==> k.value < |listing|)
  {
    var two := With(With(Idle(listing), l, CE, c), h, PE, p);
    if k.Some? then With(two, k.value, CE, q) else two
  }

  lemma LoadedSpec(listing: Chain, l: nat, c: real, h: nat, p: real, k: Option<nat>, q: real)
    requires l < |listing| && h < |listing| && l != h
    requires k.Some? ==> k.value < |listing| && k.value != l && k.value != h
    requires c >= 0.0 && p >= 0.0 && q >= 0.0
    ensures Lists(Loaded(listing, l, c, h, p, k, q), listing)
    ensures NonNegativeInterest(Loaded(listing, l, c, h, p, k, q))
  {
    var chain := Loaded(listing, l, c, h, p, k, q);
    assert forall i :: 0 <= i < |chain| ==> chain[i].oi >= 0.0 && SameGroup(chain[i], listing[i]);
  }

  lemma LoadedPain(listing: Chain, l: nat, c: real, h: nat, p: real, k: Option<nat>, q: real, price: real)
    requires l < |listing| && h < |listing| && l != h
    requires k.Some? ==> k.value < |listing| && k.value != l && k.value != h
    ensures Pain(Loaded(listing, l, c, h, p, k, q), price)
         == RowPain(price)(Row(listing, l, CE, c)) + RowPain(price)(Row(listing, h, PE, p))
          + if k.Some? then RowPain(price)(Row(listing, k.value, CE, q)) else 0.0
  {
    var idle := Idle(listing);
    var one := With(idle, l, CE, c);
    var two := With(one, h, PE, p);
    IdlePain(listing, price);
    WithPain(idle, l, CE, c, price);
    WithPain(one, h, PE, p, price);
    if k.Some? {
      WithPain(two, k.value, CE, q, price);
    }
  }

  lemma CallPays(b: OptionRow, price: real)
    requires b.kind == CE
    ensures b.strike <= price ==> RowPain(price)(b) == b.oi * (price - b.strike)
    ensures price <= b.strike ==> RowPain(price)(b) == 0.0
  {
  }

  lemma PutPays(b: OptionRow, price: real)
    requires b.kind == PE && price <= b.strike
    ensures RowPain(price)(b) == b.oi * (b.strike - price)
  {
  }

  // What a call at `low`, a put at `high` and a call at `t` pay together, the pain at `t`,
  // and its bound by the distance of the ends.
  function Base(m: real, low: real, high: real, t: real): real {
    (m + 1.0) * (t - low) + (m + 2.0) * (high - t)
  }

  function Spread(m: real, span: real): real {
    (m + 1.0) * span
  }

  lemma BaseIsLarge(m: real, low: real, high: real, t: real)
    requires m >= 1.0 && low <= t <= high
    ensures Base(m, low, high, t) >= Spread(m, high - low)
  {
    assert (m + 1.0) * (t - low) + (m + 1.0) * (high - t) == (m + 1.0) * (high - low);
    assert (m + 2.0) * (high - t) == (m + 1.0) * (high - t) + (high - t);
  }

  // Between the ends, with slopes m + 1 and m + 2 of the two and 2 of the third, the pain is
  // least at `t` and grows by the distance from it.
  lemma VShape(m: real, low: real, high: real, t: real, x: real)
    requires m >= 1.0 && low <= t <= high && low <= x <= high
    ensures (m + 1.0) * (x - low) + (m + 2.0) * (high - x) + (if x <= t then 0.0 else 2.0 * (x - t))
         == Base(m, low, high, t) + Distance(x, t)
  {
    assert (m + 1.0) * (x - low) - (m + 1.0) * (t - low) == (m + 1.0) * (x - t);
    assert (m + 2.0) * (high - x) - (m + 2.0) * (high - t) == -((m + 1.0) * (x - t)) - (x - t);
  }

  // The pain of the three options at a price between the ends; the third is not needed when
  // `t` is the upper end.
  lemma ThreeOptions(call: OptionRow, put: OptionRow, third: OptionRow, m: real, t: real, price: real)
    requires m >= 1.0 && call.strike <= t <= put.strike && call.strike <= price <= put.strike && third.strike == t
    requires call.kind == CE && call.oi == m + 1.0 && put.kind == PE && put.oi == m + 2.0
    requires third.kind == CE && third.oi == 2.0
    ensures RowPain(price)(call) + RowPain(price)(put) + RowPain(price)(third)
         == Base(m, call.strike, put.strike, t) + Distance(price, t)
    ensures t == put.strike ==> RowPain(price)(third) == 0.0
  {
    CallPays(call, price);
    PutPays(put, price);
    CallPays(third, price);
    VShape(m, call.strike, put.strike, t, price);
  }

  function Distance(x: real, y: real): real { if x < y then y - x else x - y }

  lemma {:induction false} LowestRow(listing: Chain) returns (l: nat)
    requires listing != []
    ensures l < |listing| && forall b :: b in listing ==> listing[l].strike <= b.strike
  {
    var n := |listing| - 1;
    assert listing == listing[..n] + [listing[n]];
    if n == 0 {
      return 0;
    }
    l := LowestRow(listing[..n]);
    l := if listing[n].strike < listing[l].strike then n else l;
  }

  lemma {:induction false} HighestRow(listing: Chain) returns (h: nat)
    requires listing != []
    ensures h < |listing| && forall b :: b in listing ==> b.strike <= listing[h].strike
  {
    var n := |listing| - 1;
    assert listing == listing[..n] + [listing[n]];
    if n == 0 {
      return 0;
    }
    h := HighestRow(listing[..n]);
    h := if listing[h].strike < listing[n].strike then n else h;
  }

  // A group of two rows or more has one besides row `l`.
  lemma {:induction false} AnotherRow(listing: Chain, b: OptionRow, l: nat) returns (k: nat)
    requires GroupSize(listing, b) >= if l < |listing| && SameGroup(listing[l], b) then 2 else 1
    ensures k < |listing| && k != l && SameGroup(listing[k], b)
  {
    var n := |listing| - 1;
    if n != l && SameGroup(listing[n], b) {
      k := n;
    } else {
      k := AnotherRow(listing[..n], b, l);
    }
  }

  // The rows that carry the three options: a lowest, a highest and, below the highest
  // strike, another one at the strike of `b`.
  ghost predicate Placed(listing: Chain, l: nat, h: nat, k: Option<nat>, b: OptionRow) {
    && l < |listing| && h < |listing| && listing[l].strike < listing[h].strike
    && b in listing
    && (forall r :: r in listing ==> listing[l].strike <= r.strike <= listing[h].strike)
    && (if b.strike == listing[h].strike then k.None?
        else k.Some? && k.value < |listing| && k.value != l && k.value != h && listing[k.value].strike == b.strike)
  }

  lemma Ends(listing: Chain, b: OptionRow) returns (l: nat, h: nat, k: Option<nat>)
    requires b in listing && GroupSize(listing, b) > 1 && exists a :: a in listing && a.strike != b.strike
    ensures Placed(listing, l, h, k, b)
  {
    l := LowestRow(listing);
    h := HighestRow(listing);
    k := None;
    if b.strike < listing[h].strike {
      var another := AnotherRow(listing, b, l);
      k := Some(another);
    }
  }

  function ChainAt(listing: Chain, l: nat, h: nat, k: Option<nat>, b: OptionRow, m: real): Chain
    requires Placed(listing, l, h, k, b)
  {
    Loaded(listing, l, m + 1.0, h, m + 2.0, k, 2.0)
  }

  lemma ChainAtSpec(listing: Chain, l: nat, h: nat, k: Option<nat>, b: OptionRow, m: real)
    requires m >= 1.0 && Placed(listing, l, h, k, b)
    ensures Lists(ChainAt(listing, l, h, k, b, m), listing) && NonNegativeInterest(ChainAt(listing, l, h, k, b, m))
  {
    LoadedSpec(listing, l, m + 1.0, h, m + 2.0, k, 2.0);
  }

  // How the pain of such a chain grows away from `t`.
  lemma PainAt(listing: Chain, l: nat, h: nat, k: Option<nat>, b: OptionRow, m: real, r: OptionRow)
    requires m >= 1.0 && Placed(listing, l, h, k, b) && r in listing
    ensures Pain(ChainAt(listing, l, h, k, b, m), r.strike)
         == Base(m, listing[l].strike, listing[h].strike, b.strike) + Distance(r.strike, b.strike)
  {
    var third := if k.Some? then Row(listing, k.value, CE, 2.0) else b.(kind := CE, oi := 2.0);
    LoadedPain(listing, l, m + 1.0, h, m + 2.0, k, 2.0, r.strike);
    ThreeOptions(Row(listing, l, CE, m + 1.0), Row(listing, h, PE, m + 2.0), third, m, b.strike, r.strike);
  }

  // The chain: its pain grows away from the strike of `b` by the distance.
  ghost predicate Shaped(chain: Chain, listing: Chain, b: OptionRow, base: real) {
    forall r :: r in listing ==> Pain(chain, r.strike) == base + Distance(r.strike, b.strike)
  }

  function BaseOf(listing: Chain, l: nat, h: nat, b: OptionRow, m: real): real
    requires l < |listing| && h < |listing|
  {
    Base(m, listing[l].strike, listing[h].strike, b.strike)
  }

  lemma {:induction false} ShapedChain(listing: Chain, l: nat, h: nat, k: Option<nat>, b: OptionRow, m: real,
                                       base: real)
      returns (chain: Chain)
    requires m >= 1.0 && Placed(listing, l, h, k, b) && base == BaseOf(listing, l, h, b, m)
    ensures Lists(chain, listing) && NonNegativeInterest(chain) && Shaped(chain, listing, b, base)
  {
    chain := ChainAt(listing, l, h, k, b, m);
    ChainAtSpec(listing, l, h, k, b, m);
    forall r | r in listing
      ensures Pain(chain, r.strike) == base + Distance(r.strike, b.strike)
    {
      PainAt(listing, l, h, k, b, m, r);
    }
  }

  // All strikes lie within a span of that of `b`, and the least pain is large for it.
  ghost predicate Bounded(listing: Chain, b: OptionRow, m: real, base: real, span: real) {
    && span > 0.0 && base >= Spread(m, span)
    && (forall r :: r in listing ==> Distance(r.strike, b.strike) <= span)
  }

  lemma SpanIsBounded(listing: Chain, l: nat, h: nat, k: Option<nat>, b: OptionRow, m: real)
    requires m >= 1.0 && Placed(listing, l, h, k, b)
    ensures Bounded(listing, b, m, BaseOf(listing, l, h, b, m), listing[h].strike - listing[l].strike)
  {
    BaseIsLarge(m, listing[l].strike, listing[h].strike, b.strike);
  }

  lemma MisleadingChain(listing: Chain, m: nat, b: OptionRow) returns (chain: Chain, base: real, span: real)
    requires m >= 1 && b in listing && GroupSize(listing, b) > m
    requires exists a :: a in listing && a.strike != b.strike
    ensures Lists(chain, listing) && NonNegativeInterest(chain) && Shaped(chain, listing, b, base)
    ensures Bounded(listing, b, m as real, base, span)
  {
    var l, h, k := Ends(listing, b);
    chain, base, span := ChainOfEnds(listing, l, h, k, b, m as real);
  }

  lemma ChainOfEnds(listing: Chain, l: nat, h: nat, k: Option<nat>, b: OptionRow, m: real)
      returns (chain: Chain, base: real, span: real)
    requires m >= 1.0 && Placed(listing, l, h, k, b)
    ensures Lists(chain, listing) && NonNegativeInterest(chain) && Shaped(chain, listing, b, base)
    ensures Bounded(listing, b, m, base, span)
  {
    base := BaseOf(listing, l, h, b, m);
    span := listing[h].strike - listing[l].strike;
    chain := ShapedChain(listing, l, h, k, b, m, base);
    SpanIsBounded(listing, l, h, k, b, m);
  }

  // No row of a strike all of whose groups have more than `m` rows can be the answer of that
  // chain, when some group has `m`.
  lemma MisleadingTotals(m: nat, n: nat, base: real, span: real, distance: real)
    requires 1 <= m < n && 0.0 <= distance <= span && span > 0.0 && base >= Spread(m as real, span)
    ensures Times(m, base + distance) < Times(n, base)
  {
    var x := m as real;
    TimesIsProduct(m, base + distance);
    assert x * (base + distance) == x * base + x * distance;
    assert x * distance <= x * span;
    assert (x + 1.0) * span == x * span + span;
    assert base > x * distance;
    assert x * span > 0.0;
    TimesIsProduct(m + 1, base);
    assert (m + 1) as real == x + 1.0;
    assert (x + 1.0) * base == x * base + base;
    TimesMonotone(m + 1, n, base, base);
  }

  // An uneven listing: the query answers with a strike that has more pain than another one.
  lemma UnevenMisleads(listing: Chain, a: OptionRow, b: OptionRow) returns (chain: Chain, r: OptionRow)
    requires a in listing && b in listing && !HasSmallGroup(listing, b.strike, GroupSize(listing, a))
    ensures Lists(chain, listing) && NonNegativeInterest(chain) && IsMaxPain(chain, r)
    ensures r.strike != b.strike && Pain(chain, b.strike) < Pain(chain, r.strike)
  {
    var m := GroupSize(listing, a);
    GroupsAreNotEmpty(listing, a);
    assert a.strike != b.strike && GroupSize(listing, b) > m;
    var base, span;
    chain, base, span := MisleadingChain(listing, m, b);
    r := FirstByPain(chain, chain);
    var listed := ListedAs(chain, listing, r);
    if r.strike == b.strike {
      assert GroupSize(listing, listed) > m;
      var other := RowOf(chain, listing, a);
      SmallerTotal(chain, r, other, base, span, Distance(a.strike, b.strike));
    }
  }

  lemma SmallerTotal(chain: Chain, r: OptionRow, other: OptionRow, base: real, span: real, distance: real)
    requires Pain(chain, r.strike) == base && Pain(chain, other.strike) == base + distance
    requires 1 <= GroupSize(chain, other) < GroupSize(chain, r) && 0.0 <= distance <= span && span > 0.0
    requires base >= Spread(GroupSize(chain, other) as real, span)
    ensures TotalPain(chain, chain, other) < TotalPain(chain, chain, r)
  {
    TotalIsSizeTimesPain(chain, chain, r);
    TotalIsSizeTimesPain(chain, chain, other);
    MisleadingTotals(GroupSize(chain, other), GroupSize(chain, r), base, span, distance);
  }

  // ---- Main results -------------------------------------------------------------------------

  // The query is right for every option type and interest exactly on the even listings.
  lemma AlwaysRightIff(listing: Chain)
    ensures AlwaysRight(listing) <==> Even(listing)
  {
    if Even(listing) {
      forall chain, r, price | Lists(chain, listing) && NonNegativeInterest(chain) && IsMaxPain(chain, r)
        ensures Pain(chain, r.strike) <= Pain(chain, price)
      {
        EvenIsRight(listing, chain, r, price);
      }
    } else {
      var a, b :| a in listing && b in listing && !HasSmallGroup(listing, b.strike, GroupSize(listing, a));
      var chain, r := UnevenMisleads(listing, a, b);
    }
  }

  // In a chain the query answers with `answer`, listed `m` times, although `other`, listed `n`
  // times, has less pain.
  ghost predicate Misled(chain: Chain, answer: OptionRow, other: OptionRow, m: nat, n: nat) {
    && NonNegativeInterest(chain) && IsMaxPain(chain, answer) && other in chain
    && GroupSize(chain, answer) == m && GroupSize(chain, other) == n
    && Pain(chain, other.strike) < Pain(chain, answer.strike)
  }

  // For which two row counts that can happen: exactly when the other row is listed more often.
  lemma MisledIff(m: nat, n: nat)
    ensures (exists chain, answer, other :: Misled(chain, answer, other, m, n)) <==> 1 <= m < n
  {
    forall chain, answer, other | Misled(chain, answer, other, m, n)
      ensures 1 <= m < n
    {
      GroupsAreNotEmpty(chain, answer);
      if n <= m {
        NotPassedOver(chain, answer, other, other.strike);
      }
    }
    if 1 <= m < n {
      var chain, answer, other := TwoStrikesMislead(m, n);
    }
  }

  function Repeated(b: OptionRow, n: nat): Chain {
    if n == 0 then [] else Repeated(b, n - 1) + [b]
  }

  lemma {:induction false} GroupSizeOfRepeated(chain: Chain, b: OptionRow, n: nat, group: OptionRow)
    ensures GroupSize(chain + Repeated(b, n), group) == GroupSize(chain, group) + if SameGroup(b, group) then n else 0
    ensures forall a :: a in chain + Repeated(b, n) <==> a in chain || (n > 0 && a == b)
  {
    if n == 0 {
      assert chain + Repeated(b, n) == chain;
    } else {
      var rows := chain + Repeated(b, n);
      GroupSizeOfRepeated(chain, b, n - 1, group);
      assert rows[..|rows| - 1] == chain + Repeated(b, n - 1) && rows[|rows| - 1] == b;
      assert rows == rows[..|rows| - 1] + [b];
    }
  }

  lemma TwoStrikesMislead(m: nat, n: nat) returns (chain: Chain, answer: OptionRow, other: OptionRow)
    requires 1 <= m < n
    ensures Misled(chain, answer, other, m, n)
  {
    var a, b := OptionRow(100.0, 105.0, CE, 0.0), OptionRow(110.0, 105.0, CE, 0.0);
    var listing := ([] + Repeated(a, m)) + Repeated(b, n);
    forall g: OptionRow
      ensures GroupSize(listing, g) == (if SameGroup(a, g) then m else 0) + (if SameGroup(b, g) then n else 0)
      ensures forall r :: r in listing <==> r == a || r == b
    {
      GroupSizeOfRepeated([], a, m, g);
      GroupSizeOfRepeated([] + Repeated(a, m), b, n, g);
    }
    assert GroupSize(listing, a) == m && GroupSize(listing, b) == n;
    chain, answer := UnevenMisleads(listing, a, b);
    var listed := ListedAs(chain, listing, answer);
    other := RowOf(chain, listing, b);
    assert Pain(chain, other.strike) == Pain(chain, b.strike);
  }
}
