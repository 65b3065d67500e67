// Which trades share a position (make_position_key in src/domain/symbols.py, and its use in
// src/domain/simulation.py): those whose symbols and exchanges agree up to surrounding white
// space and the case of ASCII letters.
module PositionKeys {
  import opened Common
  import opened Positions
  import opened Fills
  import opened FillSafety

  // The same character, or the two cases of one ASCII letter.
  predicate SameLetter(c: char, d: char) {
    || c == d
    || ('a' <= c <= 'z' && c as int - d as int == 32)
    || ('a' <= d <= 'z' && d as int - c as int == 32)
  }

  predicate SameLetters(a: string, b: string) {
    |a| == |b| && forall i :: 0 <= i < |a| ==> SameLetter(a[i], b[i])
  }

  // `a` is `core` between white space.
  ghost predicate Padded(a: string, core: string) {
    exists i, j {:trigger a[i..j]} ::
      0 <= i <= j <= |a| && a[i..j] == core
      && (forall k :: 0 <= k < i ==> IsSpace(a[k])) && (forall k :: j <= k < |a| ==> IsSpace(a[k]))
  }

  // The texts agree up to surrounding white space and the case of letters.
  ghost predicate Alike(a: string, b: string) {
    exists x, y :: Padded(a, x) && Padded(b, y) && SameLetters(x, y)
  }

  ghost predicate NoColon(s: string) {
    forall i :: 0 <= i < |s| ==> s[i] != ':'
  }

  // ---- Case -------------------------------------------------------------------------------

  lemma UpperIff(a: string, b: string)
    ensures Upper(a) == Upper(b) <==> SameLetters(a, b)
  {
    if SameLetters(a, b) {
      assert forall i :: 0 <= i < |a| ==> Upper(a)[i] == Upper(b)[i];
    }
    if Upper(a) == Upper(b) {
      assert |a| == |Upper(a)| == |b|;
      forall i | 0 <= i < |a|
        ensures SameLetter(a[i], b[i])
      {
        assert Upper(a)[i] == Upper(b)[i];
      }
    }
  }

  lemma UpperKeepsSpace(s: string)
    ensures |Upper(s)| == |s| && forall i :: 0 <= i < |s| ==> (IsSpace(Upper(s)[i]) <==> IsSpace(s[i]))
    ensures NoColon(s) ==> NoColon(Upper(s))
  {
  }

  lemma {:induction false} StripLeftOfUpper(s: string)
    ensures StripLeft(Upper(s)) == Upper(StripLeft(s))
  {
    UpperKeepsSpace(s);
    if s != [] && IsSpace(s[0]) {
      StripLeftOfUpper(s[1..]);
      assert Upper(s)[1..] == Upper(s[1..]);
    }
  }

  lemma {:induction false} StripRightOfUpper(s: string)
    ensures StripRight(Upper(s)) == Upper(StripRight(s))
    decreases |s|
  {
    UpperKeepsSpace(s);
    if s != [] && IsSpace(s[|s| - 1]) {
      StripRightOfUpper(s[..|s| - 1]);
      assert Upper(s)[..|s| - 1] == Upper(s[..|s| - 1]);
    }
  }

  lemma StripOfUpper(s: string)
    ensures Strip(Upper(s)) == Upper(Strip(s))
  {
    StripLeftOfUpper(s);
    StripRightOfUpper(StripLeft(s));
  }

  // ---- White space ------------------------------------------------------------------------

  lemma {:induction false} StripLeftSpec(s: string) returns (i: nat)
    ensures i <= |s| && StripLeft(s) == s[i..] && forall k :: 0 <= k < i ==> IsSpace(s[k])
  {
    if s != [] && IsSpace(s[0]) {
      i := StripLeftSpec(s[1..]);
      i := i + 1;
      assert s[1..][i - 1..] == s[i..];
      forall k | 0 <= k < i
        ensures IsSpace(s[k])
      {
        assert k > 0 ==> s[k] == s[1..][k - 1];
      }
    } else {
      i := 0;
    }
  }

  lemma {:induction false} StripRightSpec(s: string) returns (j: nat)
    ensures j <= |s| && StripRight(s) == s[..j] && forall k :: j <= k < |s| ==> IsSpace(s[k])
    decreases |s|
  {
    if s != [] && IsSpace(s[|s| - 1]) {
      j := StripRightSpec(s[..|s| - 1]);
      assert s[..|s| - 1][..j] == s[..j];
      assert forall k :: 0 <= k < |s| - 1 ==> s[..|s| - 1][k] == s[k];
    } else {
      j := |s|;
    }
  }

  // Stripping takes white space only.
  lemma StripIsPadded(s: string)
    ensures Padded(s, Strip(s))
  {
    var i := StripLeftSpec(s);
    var j := StripRightSpec(s[i..]);
    assert s[i..][..j] == s[i..i + j];
    forall k | i + j <= k < |s|
      ensures IsSpace(s[k])
    {
      assert s[k] == s[i..][k - i];
    }
  }

  // And all of it: what is left after stripping does not depend on the padding.
  lemma StripOfPadded(a: string, core: string)
    requires Padded(a, core)
    ensures Strip(a) == Strip(core)
  {
    var i, j :| 0 <= i <= j <= |a| && a[i..j] == core
                && (forall k :: 0 <= k < i ==> IsSpace(a[k])) && (forall k :: j <= k < |a| ==> IsSpace(a[k]));
    StripWithout(a, i, j);
  }

  lemma SliceOfTail(a: string, i: int, j: int)
    requires 0 < i <= j <= |a|
    ensures a[1..][i - 1..j - 1] == a[i..j]
  {
    var x, y := a[1..][i - 1..j - 1], a[i..j];
    assert |x| == |y|;
    forall k | 0 <= k < |x|
      ensures x[k] == y[k]
    {
    }
  }

  lemma {:induction false} StripWithout(a: string, i: int, j: int)
    requires 0 <= i <= j <= |a|
    requires (forall k :: 0 <= k < i ==> IsSpace(a[k])) && (forall k :: j <= k < |a| ==> IsSpace(a[k]))
    ensures Strip(a) == Strip(a[i..j])
    decreases |a|
  {
    if i > 0 {
      StripWithout(a[1..], i - 1, j - 1);
      SliceOfTail(a, i, j);
    } else if j < |a| {
      StripTail(a);
      StripWithout(a[..|a| - 1], i, j);
      assert a[..|a| - 1][i..j] == a[i..j];
    } else {
      assert a[i..j] == a;
    }
  }

  // White space at the end makes no difference to stripping.
  lemma {:induction false} StripTail(a: string)
    requires a != [] && IsSpace(a[|a| - 1])
    ensures Strip(a) == Strip(a[..|a| - 1])
    decreases |a|
  {
    var front := a[..|a| - 1];
    if front == [] {
      assert a[1..] == [];
    } else if IsSpace(a[0]) {
      StripTail(a[1..]);
      assert a[1..][..|a| - 2] == front[1..];
    } else {
      assert StripLeft(a) == a && StripLeft(front) == front;
    }
  }

  // ---- Keys -------------------------------------------------------------------------------

  lemma StrippedUpperIff(a: string, b: string)
    ensures Upper(Strip(a)) == Upper(Strip(b)) <==> Alike(a, b)
  {
    if Upper(Strip(a)) == Upper(Strip(b)) {
      UpperIff(Strip(a), Strip(b));
      StripIsPadded(a);
      StripIsPadded(b);
    }
    if x, y :| Padded(a, x) && Padded(b, y) && SameLetters(x, y) {
      UpperIff(x, y);
      StripOfPadded(a, x);
      StripOfPadded(b, y);
      StripOfUpper(x);
      StripOfUpper(y);
    }
  }

  // The part behind the last colon is the same.
  lemma LastColon(s: string, e: string, s': string, e': string)
    requires s + ":" + e == s' + ":" + e' && NoColon(e) && NoColon(e')
    ensures s == s' && e == e'
  {
    var all := s + ":" + e;
    assert all[|s|] == ':' && all[|s'|] == ':';
    assert forall k :: |s| < k < |all| ==> all[k] == e[k - |s| - 1] != ':';
    assert forall k :: |s'| < k < |all| ==> all[k] == e'[k - |s'| - 1] != ':';
    assert |s| == |s'|;
    assert s == all[..|s|] && s' == all[..|s'|];
    assert e == all[|s| + 1..] && e' == all[|s'| + 1..];
  }

  lemma StripKeepsNoColon(s: string)
    requires NoColon(s)
    ensures NoColon(Upper(Strip(s)))
  {
    var i := StripLeftSpec(s);
    var j := StripRightSpec(s[i..]);
    UpperKeepsSpace(Strip(s));
  }

  // Two pairs of symbol and exchange have one key exactly when the symbols agree and the
  // exchanges agree.
  lemma SameKeyIff(symbol: string, exchange: string, symbol': string, exchange': string)
    requires NoColon(exchange) && NoColon(exchange')
    ensures PositionKey(symbol, exchange) == PositionKey(symbol', exchange')
       <==> Alike(symbol, symbol') && Alike(exchange, exchange')
  {
    StrippedUpperIff(symbol, symbol');
    StrippedUpperIff(exchange, exchange');
    StripKeepsNoColon(exchange);
    StripKeepsNoColon(exchange');
    if PositionKey(symbol, exchange) == PositionKey(symbol', exchange') {
      LastColon(Upper(Strip(symbol)), Upper(Strip(exchange)), Upper(Strip(symbol')), Upper(Strip(exchange')));
    }
  }

  // ---- Positions --------------------------------------------------------------------------

  // The trade is of this symbol and exchange.
  ghost predicate Concerns(t: Trade, symbol: string, exchange: string) {
    Alike(t.symbol, symbol) && Alike(t.exchange, exchange)
  }

  // A trade moves the position of its own symbol and exchange by its whole shares, up for a
  // purchase and down for a sale, and leaves every other position alone.
  lemma TradeMovesItsOwnPosition(book: Book, t: Trade, symbol: string, exchange: string)
    requires NoColon(t.exchange) && NoColon(exchange)
    ensures
      var key, after := PositionKey(symbol, exchange), Project(book, t);
      if Concerns(t, symbol, exchange) then
        key in after && after[key].quantity == Held(book, key) + if t.side.Buy? then Shares(t) else -Shares(t)
      else
        (key in after <==> key in book) && (key in book ==> after[key] == book[key])
  {
    SameKeyIff(t.symbol, t.exchange, symbol, exchange);
  }

  ghost function BoughtOf(symbol: string, exchange: string): Trade -> int {
    (t: Trade) => if Concerns(t, symbol, exchange) && t.side.Buy? then Shares(t) else 0
  }

  ghost function SoldOf(symbol: string, exchange: string): Trade -> int {
    (t: Trade) => if Concerns(t, symbol, exchange) && t.side.Sell? then Shares(t) else 0
  }

  ghost function PaidOf(symbol: string, exchange: string): Trade -> real {
    (t: Trade) => if Concerns(t, symbol, exchange) && t.side.Buy? then Cost(Shares(t), t.price) else 0.0
  }

  ghost function ReceivedOf(symbol: string, exchange: string): Trade -> real {
    (t: Trade) => if Concerns(t, symbol, exchange) && t.side.Sell? then Cost(Shares(t), t.price) else 0.0
  }

  ghost predicate PlainExchanges(ts: seq<Trade>) {
    forall i :: 0 <= i < |ts| ==> NoColon(ts[i].exchange)
  }

  lemma {:induction false} NetIsBoughtLessSold(ts: seq<Trade>, symbol: string, exchange: string)
    requires PlainExchanges(ts) && NoColon(exchange)
    ensures SumOf(ts, NetOf(PositionKey(symbol, exchange)))
         == SumOf(ts, BoughtOf(symbol, exchange)) - SumOf(ts, SoldOf(symbol, exchange))
    ensures RealSumOf(ts, CostOf(PositionKey(symbol, exchange)))
         == RealSumOf(ts, PaidOf(symbol, exchange)) - RealSumOf(ts, ReceivedOf(symbol, exchange))
  {
    if ts != [] {
      var t := ts[|ts| - 1];
      NetIsBoughtLessSold(ts[..|ts| - 1], symbol, exchange);
      SameKeyIff(t.symbol, t.exchange, symbol, exchange);
      CostOfSide(t);
    }
  }

  lemma CostOfSide(t: Trade)
    ensures Cost(SignedShares(t), t.price)
         == if t.side.Buy? then Cost(Shares(t), t.price) else -Cost(Shares(t), t.price)
  {
  }

  // After any deliveries the position of a symbol and exchange is what was bought of it less
  // what was sold, and its cash balance what was received less what was paid.
  lemma PositionIsBoughtLessSold(ds: seq<Delivery>, symbol: string, exchange: string)
    requires PlainExchanges(AppliedTrades(START, ds)) && NoColon(exchange)
    ensures
      var book, applied := Run(START, ds).book, AppliedTrades(START, ds);
      && Held(book, PositionKey(symbol, exchange))
         == SumOf(applied, BoughtOf(symbol, exchange)) - SumOf(applied, SoldOf(symbol, exchange))
      && CashOf(book, PositionKey(symbol, exchange))
         == RealSumOf(applied, ReceivedOf(symbol, exchange)) - RealSumOf(applied, PaidOf(symbol, exchange))
  {
    BookIsSumOfAppliedTrades(ds, PositionKey(symbol, exchange));
    CashIsSumOfAppliedTrades(ds, PositionKey(symbol, exchange));
    NetIsBoughtLessSold(AppliedTrades(START, ds), symbol, exchange);
  }

  ghost predicate OwnKeys(book: Book) {
    forall key :: key in book ==> PositionKey(book[key].symbol, book[key].exchange) == key
  }

  lemma ProjectKeepsKeys(book: Book, t: Trade)
    requires OwnKeys(book)
    ensures OwnKeys(Project(book, t))
  {
    var after := Project(book, t);
    forall key | key in after
      ensures PositionKey(after[key].symbol, after[key].exchange) == key
    {
      if key == Key(t) {
        var current := if key in book then book[key] else Flat(t.symbol, t.exchange);
        assert after[key].symbol == current.symbol && after[key].exchange == current.exchange;
      }
    }
  }

  // Every position is kept under the key of its own symbol and exchange.
  lemma {:induction false} KeysAreOfTheirPositions(ds: seq<Delivery>)
    ensures OwnKeys(Run(START, ds).book)
  {
    if ds != [] {
      var s := Run(START, ds[..|ds| - 1]);
      KeysAreOfTheirPositions(ds[..|ds| - 1]);
      ProjectKeepsKeys(s.book, ds[|ds| - 1].trade);
    }
  }
}
