// Crash recovery of the book when days of the log are out of order: replay then reads the
// fills in another order than they were appended, and what does not depend on the order is
// recovered all the same.
module LogRecovery {
  import opened Common
  import opened LogFiles
  import opened BufferedLog
  import Fills
  import opened FillSafety
  import opened LedgerRecovery

  // How replay reads a record: a fill, or another kind of event.
  type FillDecoder = Record -> Option<LedgerFill>

  function FillsIn(records: seq<Record>, decode: FillDecoder): seq<LedgerFill> {
    if records == [] then []
    else
      var last := decode(records[|records| - 1]);
      FillsIn(records[..|records| - 1], decode) + if last.Some? then [last.value] else []
  }

  lemma {:induction false} FillsOfRecords(records: seq<Record>, decode: FillDecoder)
    ensures forall f :: f in FillsIn(records, decode) <==> exists r :: r in records && decode(r) == Some(f)
  {
    if records != [] {
      var front, last := records[..|records| - 1], records[|records| - 1];
      assert records == front + [last];
      FillsOfRecords(front, decode);
      forall f
        ensures f in FillsIn(records, decode) <==> exists r :: r in records && decode(r) == Some(f)
      {
        if r :| r in records && decode(r) == Some(f) {
          assert r == last || r in front;
        }
      }
    }
  }

  lemma SameFills(a: seq<Record>, b: seq<Record>, decode: FillDecoder)
    requires forall r :: r in a <==> r in b
    ensures forall f :: f in FillsIn(a, decode) <==> f in FillsIn(b, decode)
  {
    FillsOfRecords(a, decode);
    FillsOfRecords(b, decode);
  }

  // The same elements without repeats are the same collection.
  lemma {:induction false} SameDistinctElements(a: seq<LedgerFill>, b: seq<LedgerFill>)
    requires Distinct(a) && Distinct(b) && forall x :: x in a <==> x in b
    ensures multiset(a) == multiset(b)
  {
    DistinctCounts(a);
    DistinctCounts(b);
    forall x: LedgerFill
      ensures multiset(a)[x] == multiset(b)[x]
    {
      assert x in a <==> x in b;
    }
  }

  lemma {:induction false} SameElementsSameLedger(a: seq<LedgerFill>, b: seq<LedgerFill>)
    requires forall x :: x in a <==> x in b
    ensures multiset(Dedupe(a)) == multiset(Dedupe(b))
  {
    DedupeSpec(a);
    DedupeSpec(b);
    SameDistinctElements(Dedupe(a), Dedupe(b));
  }

  // ---- A part of a ledger that overfills no order ------------------------------------------

  lemma {:induction false} PrefixStaysWithin(fs: seq<LedgerFill>, n: nat)
    requires n <= |fs| && Consistent(fs) && WithinOrders(fs)
    ensures Consistent(fs[..n]) && WithinOrders(fs[..n])
    decreases |fs| - n
  {
    if n == |fs| {
      assert fs[..n] == fs;
    } else {
      PrefixStaysWithin(fs, n + 1);
      OneLessStaysWithin(fs[..n + 1]);
      assert fs[..n + 1][..n] == fs[..n];
    }
  }

  lemma OneLessStaysWithin(fs: seq<LedgerFill>)
    requires fs != [] && Consistent(fs) && WithinOrders(fs)
    ensures Consistent(fs[..|fs| - 1]) && WithinOrders(fs[..|fs| - 1])
  {
    var front, f := fs[..|fs| - 1], fs[|fs| - 1];
    assert fs == front + [f];
    forall g | g in front
      ensures OrderTotal(front, g.orderId) <= g.orderQuantity
    {
      assert g in fs && f in fs;
      OrderTotalSnoc(fs, g.orderId);
    }
  }

  lemma {:induction false} DedupeOfPrefix(records: seq<Record>, n: nat, decode: FillDecoder) returns (m: nat)
    requires n <= |records|
    ensures m <= |Dedupe(FillsIn(records, decode))|
    ensures Dedupe(FillsIn(records[..n], decode)) == Dedupe(FillsIn(records, decode))[..m]
    decreases |records|
  {
    if n == |records| {
      assert records[..n] == records;
      m := |Dedupe(FillsIn(records, decode))|;
    } else {
      var front := records[..|records| - 1];
      m := DedupeOfPrefix(front, n, decode);
      assert front[..n] == records[..n];
      DedupeGrows(FillsIn(front, decode), decode(records[|records| - 1]), m);
    }
  }

  lemma DedupeGrows(fs: seq<LedgerFill>, next: Option<LedgerFill>, m: nat)
    requires m <= |Dedupe(fs)|
    ensures
      var grown := Dedupe(fs + if next.Some? then [next.value] else []);
      m <= |grown| && grown[..m] == Dedupe(fs)[..m]
  {
    if next.Some? {
      assert (fs + [next.value])[..|fs|] == fs;
    } else {
      assert fs + [] == fs;
    }
  }

  // ---- Recovery --------------------------------------------------------------------------------

  function BookOf(records: seq<Record>, decode: FillDecoder): Fills.Book {
    Fills.Run(Fills.START, Deliveries(FillsIn(records, decode))).book
  }

  // A crash at any point, days in any order: when the appended fills, without repeats, are a
  // ledger that overfills no order, reading the daily files back gives the net quantity and
  // the cash of every instrument after some prefix of the appended records, which includes
  // all that had left the buffer.
  lemma {:induction false} CrashRecoversHoldings(ops: seq<Op>, c: Settings, decode: FillDecoder, key: string)
      returns (n: nat)
    requires Consistent(Dedupe(FillsIn(Appended(ops), decode))) && WithinOrders(Dedupe(FillsIn(Appended(ops), decode)))
    ensures |Appended(ops)| - |Run(ops, c).buffer| <= n <= |Appended(ops)|
    ensures
      var replayed, live := BookOf(Lines(ReplayOrder(Run(ops, c).written)), decode), BookOf(Appended(ops)[..n], decode);
      && Fills.Held(replayed, key) == Fills.Held(live, key)
      && CashOf(replayed, key) == CashOf(live, key)
  {
    n := CrashLosesAtMostTheBuffer(ops, c);
    var written, prefix := Run(ops, c).written, Appended(ops)[..n];
    SameRecords(written, prefix);
    var m := DedupeOfPrefix(Appended(ops), n, decode);
    PrefixStaysWithin(Dedupe(FillsIn(Appended(ops), decode)), m);
    SameHoldings(Lines(ReplayOrder(written)), prefix, decode, key);
  }

  lemma SameRecords(written: seq<Filed<Record>>, prefix: seq<Record>)
    requires Dedupe(Lines(written)) == Dedupe(prefix)
    ensures forall r :: r in Lines(ReplayOrder(written)) <==> r in prefix
  {
    ReplayKeepsLines(written);
    DedupeSpec(Lines(written));
    DedupeSpec(prefix);
    forall r
      ensures r in Lines(ReplayOrder(written)) <==> r in Lines(written)
    {
      LineOfFiled(ReplayOrder(written), r);
      LineOfFiled(written, r);
    }
  }

  lemma LineOfFiled(log: seq<Filed<Record>>, r: Record)
    ensures r in Lines(log) <==> exists x :: x in log && x.line == r
  {
    if r in Lines(log) {
      var i :| 0 <= i < |log| && Lines(log)[i] == r;
      assert log[i] in log;
    }
    if x :| x in log && x.line == r {
      var i :| 0 <= i < |log| && log[i] == x;
      assert Lines(log)[i] == r;
    }
  }

  lemma {:induction false} SameHoldings(a: seq<Record>, b: seq<Record>, decode: FillDecoder, key: string)
    requires forall r :: r in a <==> r in b
    requires Consistent(Dedupe(FillsIn(b, decode))) && WithinOrders(Dedupe(FillsIn(b, decode)))
    ensures Fills.Held(BookOf(a, decode), key) == Fills.Held(BookOf(b, decode), key)
    ensures CashOf(BookOf(a, decode), key) == CashOf(BookOf(b, decode), key)
  {
    var ledger := Dedupe(FillsIn(b, decode));
    SameFills(a, b, decode);
    SameElementsSameLedger(FillsIn(a, decode), FillsIn(b, decode));
    RecoveryEqualsLive(ledger, FillsIn(a, decode), key);
    RecoveryEqualsLive(ledger, FillsIn(b, decode), key);
  }
}
