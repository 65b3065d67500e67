// Bounded parallel execution of a batch (src/infrastructure/batch_executor.py). The
// arbitrary choices below stand for every order in which the workers may finish.
module BatchExecutor {
  import opened Common

  datatype TaskOutcome<+T> = Value(value: T) | Failure(error: string)

  // What running the n-th submitted item gives.
  type Task<!T> = (nat, string) -> TaskOutcome<T>

  // ---- One sequential order of completion -----------------------------------------------

  ghost predicate IsSchedule(order: seq<nat>, n: nat) {
    && |order| == n
    && (forall i :: 0 <= i < |order| ==> order[i] < n)
    && Distinct(order)
  }

  // The results when submissions complete in this order: a later success of an item
  // replaces an earlier one.
  function Collected<T>(items: seq<string>, run: Task<T>, order: seq<nat>): map<string, T>
    requires forall i :: 0 <= i < |order| ==> order[i] < |items|
  {
    if order == [] then map[]
    else
      var before, k := Collected(items, run, order[..|order| - 1]), order[|order| - 1];
      if run(k, items[k]).Value? then before[items[k] := run(k, items[k]).value] else before
  }

  // The failures reported, in this order.
  function Reported<T>(items: seq<string>, run: Task<T>, order: seq<nat>): seq<(string, string)>
    requires forall i :: 0 <= i < |order| ==> order[i] < |items|
  {
    if order == [] then []
    else
      var before, k := Reported(items, run, order[..|order| - 1]), order[|order| - 1];
      if run(k, items[k]).Failure? then before + [(items[k], run(k, items[k]).error)] else before
  }

  // ---- The pool ---------------------------------------------------------------------------

  // Pending submissions by number, the iterator's position, and what has come out so far.
  datatype Pool<!T> = Pool(
    pending: map<nat, string>, next: nat, results: map<string, T>, errors: seq<(string, string)>)

  function SubmitNext<T>(items: seq<string>, p: Pool<T>): Pool<T> {
    if p.next < |items| then p.(pending := p.pending[p.next := items[p.next]], next := p.next + 1) else p
  }

  // Submission `k` has completed: take it out and keep its outcome.
  function Settle<T>(run: Task<T>, p: Pool<T>, k: nat): Pool<T>
    requires k in p.pending
  {
    var item := p.pending[k];
    match run(k, item)
    case Value(v) => p.(pending := p.pending - {k}, results := p.results[item := v])
    case Failure(e) => p.(pending := p.pending - {k}, errors := p.errors + [(item, e)])
  }

  // Finished, pending and unsubmitted items together are the input.
  ghost predicate Partition<T(!new)>(items: seq<string>, p: Pool<T>, order: seq<nat>) {
    && p.next <= |items|
    && Distinct(order)
    && (forall k :: k in order ==> k < p.next && k !in p.pending)
    && (forall k :: k in p.pending ==> k < p.next && p.pending[k] == items[k])
    && (forall k: nat :: k < p.next ==> k in order || k in p.pending)
  }

  // The pool never exceeds the limit and is full while items remain.
  ghost predicate Full<T(!new)>(items: seq<string>, limit: nat, p: Pool<T>) {
    |p.pending| <= limit && (p.next < |items| ==> |p.pending| == limit)
  }

  ghost predicate Outcomes<T(!new)>(items: seq<string>, run: Task<T>, p: Pool<T>, order: seq<nat>) {
    && (forall i :: 0 <= i < |order| ==> order[i] < |items|)
    && p.results == Collected(items, run, order)
    && p.errors == Reported(items, run, order)
  }

  lemma SettleKeepsPartition<T(!new)>(items: seq<string>, run: Task<T>, p: Pool<T>, order: seq<nat>, k: nat)
    requires Partition(items, p, order) && k in p.pending
    ensures Partition(items, Settle(run, p, k), order + [k])
  {
    var left := Settle(run, p, k).pending;
    assert forall i :: i in left <==> i in p.pending && i != k;
    assert forall i :: i in order + [k] <==> i in order || i == k;
  }

  lemma SettleShrinks<T>(run: Task<T>, p: Pool<T>, k: nat)
    requires k in p.pending
    ensures |Settle(run, p, k).pending| == |p.pending| - 1
  {
    var left := Settle(run, p, k).pending;
    assert left.Keys == p.pending.Keys - {k};
    assert |left| == |left.Keys| && |p.pending| == |p.pending.Keys|;
  }

  lemma SubmitKeepsPartition<T(!new)>(items: seq<string>, p: Pool<T>, order: seq<nat>)
    requires Partition(items, p, order)
    ensures Partition(items, SubmitNext(items, p), order)
    ensures |SubmitNext(items, p).pending| == |p.pending| + if p.next < |items| then 1 else 0
  {
  }

  lemma SettleKeepsOutcomes<T(!new)>(items: seq<string>, run: Task<T>, p: Pool<T>, order: seq<nat>, k: nat)
    requires Partition(items, p, order) && k in p.pending
    requires Outcomes(items, run, p, order)
    ensures Outcomes(items, run, SubmitNext(items, Settle(run, p, k)), order + [k])
  {
    assert (order + [k])[..|order|] == order;
  }

  lemma {:induction false} NextIsSound<T(!new)>(items: seq<string>, run: Task<T>, limit: nat, p: Pool<T>,
                                                order: seq<nat>, k: nat)
    requires Partition(items, p, order) && k in p.pending
    requires Full(items, limit, p) && Outcomes(items, run, p, order)
    ensures
      var after := SubmitNext(items, Settle(run, p, k));
      && Partition(items, after, order + [k])
      && Full(items, limit, after) && Outcomes(items, run, after, order + [k])
      && p.pending.Keys - {k} <= after.pending.Keys
  {
    SettleKeepsOutcomes(items, run, p, order, k);
    SettleKeepsPartition(items, run, p, order, k);
    SettleShrinks(run, p, k);
    SubmitKeepsPartition(items, Settle(run, p, k), order + [k]);
  }

  // ---- The executor ---------------------------------------------------------------------

  method Prime<T(!new)>(items: seq<string>, first: nat) returns (p: Pool<T>)
    requires first <= |items|
    ensures p == Pool(p.pending, first, map[], [])
    ensures |p.pending| == first && Partition(items, p, [])
  {
    p := Pool(map[], 0, map[], []);
    while p.next < first
      invariant p == Pool(p.pending, p.next, map[], []) && p.next <= first
      invariant |p.pending| == p.next && Partition(items, p, [])
    {
      SubmitKeepsPartition(items, p, []);
      p := SubmitNext(items, p);
    }
  }

  // Runs the batch. Whatever the workers do, the outcome is that of completing all
  // submissions once each in some order; at most `maxWorkers` are pending at a time, and
  // that many are as soon as there are items enough.
  method BatchExecute<T(!new)>(items: seq<string>, run: Task<T>, maxWorkers: int)
      returns (rejected: bool, results: map<string, T>, errors: seq<(string, string)>,
               ghost order: seq<nat>, ghost peak: nat)
    ensures rejected <==> items != [] && maxWorkers < 1
    ensures !rejected ==> IsSchedule(order, |items|)
    ensures !rejected ==> results == Collected(items, run, order) && errors == Reported(items, run, order)
    ensures !rejected ==> forall item, e :: multiset(errors)[(item, e)] == |FailedWith(items, run, item, e)|
    ensures !rejected ==> peak == if |items| <= maxWorkers then |items| else if items == [] then 0 else maxWorkers
  {
    order, peak := [], 0;
    if items == [] {
      EveryReportCounts(items, run, order);
      return false, map[], [], order, peak;
    }
    if maxWorkers < 1 {
      return true, map[], [], order, peak;
    }
    var first := if maxWorkers < |items| then maxWorkers else |items|;
    var pool := Prime(items, first);
    peak := |pool.pending|;
    while pool.pending != map[]
      invariant peak == first && Partition(items, pool, order)
      invariant Full(items, first, pool) && Outcomes(items, run, pool, order)
      decreases |items| - |order|
    {
      // Some non-empty part of the pending submissions has completed.
      assert pool.pending.Keys != {};
      var done: set<nat> :| done != {} && done <= pool.pending.Keys;
      ScheduleSize(items, pool, order);
      pool, order, peak := CompleteAll(items, run, first, done, pool, order, peak);
      ScheduleSize(items, pool, order);
    }
    ScheduleSize(items, pool, order);
    EveryReportCounts(items, run, order);
    return false, pool.results, pool.errors, order, peak;
  }

  // One pass of the loop over the completed submissions, in any order.
  method CompleteAll<T(!new)>(items: seq<string>, run: Task<T>, ghost limit: nat, completed: set<nat>, p: Pool<T>,
                              ghost order: seq<nat>, ghost peak: nat)
      returns (pool: Pool<T>, ghost order': seq<nat>, ghost peak': nat)
    requires completed <= p.pending.Keys && Partition(items, p, order)
    requires Full(items, limit, p) && Outcomes(items, run, p, order)
    ensures Partition(items, pool, order')
    ensures Full(items, limit, pool) && Outcomes(items, run, pool, order')
    ensures |order'| == |order| + |completed|
    ensures peak <= limit ==> peak <= peak' <= limit
  {
    var done := completed;
    pool, order', peak' := p, order, peak;
    while done != {}
      invariant done <= pool.pending.Keys && done <= completed
      invariant Partition(items, pool, order')
      invariant Full(items, limit, pool) && Outcomes(items, run, pool, order')
      invariant |order'| + |done| == |order| + |completed|
      invariant peak <= limit ==> peak <= peak' <= limit
      decreases |done|
    {
      var k :| k in done;
      done := done - {k};
      NextIsSound(items, run, limit, pool, order', k);
      pool := Settle(run, pool, k);
      pool := SubmitNext(items, pool);
      order' := order' + [k];
      peak' := if |pool.pending| > peak' then |pool.pending| else peak';
    }
  }

  function Below(n: nat): (r: set<nat>)
    ensures forall k: nat :: k in r <==> k < n
  {
    if n == 0 then {} else Below(n - 1) + {n - 1}
  }

  lemma {:induction false} BelowSize(n: nat)
    ensures |Below(n)| == n
  {
    if n > 0 {
      BelowSize(n - 1);
    }
  }

  function SetOf(order: seq<nat>): set<nat> {
    set k | k in order
  }

  lemma {:induction false} SetOfSize(order: seq<nat>)
    requires Distinct(order)
    ensures |SetOf(order)| == |order|
  {
    if order != [] {
      var front, k := order[..|order| - 1], order[|order| - 1];
      assert order == front + [k];
      SetOfSize(front);
      assert SetOf(order) == SetOf(front) + {k};
    }
  }

  lemma ScheduleSize<T(!new)>(items: seq<string>, p: Pool<T>, order: seq<nat>)
    requires Partition(items, p, order)
    ensures |order| + |p.pending| == p.next
  {
    SetOfSize(order);
    BelowSize(p.next);
    SizesAdd(SetOf(order), p.pending.Keys, Below(p.next));
  }

  lemma SizesAdd(a: set<nat>, b: set<nat>, both: set<nat>)
    requires a !! b && forall k: nat :: k in both <==> k in a || k in b
    ensures |a| + |b| == |both|
  {
    assert a + b == both;
  }

  // ---- Schedule independence -------------------------------------------------------------

  lemma ScheduleCoversAll(order: seq<nat>, n: nat)
    requires IsSchedule(order, n)
    ensures forall k: nat :: k < n <==> k in order
  {
    SetOfSize(order);
    BelowSize(n);
    EqualSizedSubset(SetOf(order), Below(n));
    forall k: nat
      ensures k < n <==> k in order
    {
      assert k in Below(n) <==> k in SetOf(order);
    }
  }

  lemma EqualSizedSubset(a: set<nat>, b: set<nat>)
    requires a <= b && |a| == |b|
    ensures a == b
  {
    assert |b - a| == |b| - |a|;
    assert b - a == {};
  }

  ghost predicate Succeeds<T(!new)>(items: seq<string>, run: Task<T>, k: nat, item: string, v: T) {
    k < |items| && items[k] == item && run(k, item) == Value(v)
  }

  // The i-th submission to complete succeeded for `item`, and no later one did.
  ghost predicate LastSuccess<T(!new)>(items: seq<string>, run: Task<T>, order: seq<nat>, i: nat, item: string, v: T)
  {
    && i < |order| && Succeeds(items, run, order[i], item, v)
    && forall j, w :: i < j < |order| ==> !Succeeds(items, run, order[j], item, w)
  }

  // The result map holds exactly the items one of whose submissions succeeded, each with
  // the value of the last of them to complete.
  lemma {:induction false} ResultsAreTheSuccesses<T(!new)>(items: seq<string>, run: Task<T>, order: seq<nat>)
    requires forall i :: 0 <= i < |order| ==> order[i] < |items|
    ensures forall item :: item in Collected(items, run, order) ==>
              exists i: nat :: LastSuccess(items, run, order, i, item, Collected(items, run, order)[item])
    ensures forall k, v :: k in order && Succeeds(items, run, k, items[k], v) ==>
              items[k] in Collected(items, run, order)
  {
    if order != [] {
      var front, last := order[..|order| - 1], order[|order| - 1];
      assert order == front + [last];
      ResultsAreTheSuccesses(items, run, front);
      var before, after := Collected(items, run, front), Collected(items, run, order);
      forall item | item in after
        ensures exists i: nat :: LastSuccess(items, run, order, i, item, after[item])
      {
        if item == items[last] && run(last, item).Value? {
          assert LastSuccess(items, run, order, |front|, item, after[item]);
        } else {
          var i: nat :| LastSuccess(items, run, front, i, item, before[item]);
          assert LastSuccess(items, run, order, i, item, after[item]);
        }
      }
    }
  }

  ghost predicate Deterministic<T(!new)>(run: Task<T>) {
    forall k, item :: run(k, item) == run(0, item)
  }

  // For a deterministic task every schedule gives one and the same map: the items that
  // succeed, with their values.
  lemma ResultsDoNotDependOnSchedule<T(!new)>(items: seq<string>, run: Task<T>, order: seq<nat>)
    requires IsSchedule(order, |items|) && Deterministic(run)
    ensures Collected(items, run, order) == map item | item in items && run(0, item).Value? :: run(0, item).value
  {
    ResultsAreTheSuccesses(items, run, order);
    ScheduleCoversAll(order, |items|);
    var results := Collected(items, run, order);
    forall item | item in items && run(0, item).Value?
      ensures item in results
    {
      var k :| 0 <= k < |items| && items[k] == item;
      assert run(k, item) == run(0, item);
      assert k in order && Succeeds(items, run, k, items[k], run(0, item).value);
    }
    forall item | item in results
      ensures item in items && run(0, item) == Value(results[item])
    {
      var i: nat :| LastSuccess(items, run, order, i, item, results[item]);
      assert run(order[i], item) == run(0, item);
    }
  }

  lemma {:induction false} ReportedAppend<T>(items: seq<string>, run: Task<T>, a: seq<nat>, b: seq<nat>)
    requires forall i :: 0 <= i < |a| ==> a[i] < |items|
    requires forall i :: 0 <= i < |b| ==> b[i] < |items|
    ensures Reported(items, run, a + b) == Reported(items, run, a) + Reported(items, run, b)
  {
    if b == [] {
      assert a + b == a;
    } else {
      ReportedAppend(items, run, a, b[..|b| - 1]);
      assert (a + b)[..|a + b| - 1] == a + b[..|b| - 1];
    }
  }

  lemma {:induction false} ReportedAround<T>(items: seq<string>, run: Task<T>, a: seq<nat>, k: nat, b: seq<nat>)
    requires k < |items|
    requires forall i :: 0 <= i < |a| ==> a[i] < |items|
    requires forall i :: 0 <= i < |b| ==> b[i] < |items|
    ensures multiset(Reported(items, run, a + [k] + b))
         == multiset(Reported(items, run, a + b)) + multiset(Reported(items, run, [k]))
  {
    ReportedAppend(items, run, a, b);
    ReportedAppend(items, run, a + [k], b);
    ReportedAppend(items, run, a, [k]);
  }

  // The submissions of `item` that fail with `e`.
  ghost function FailedWith<T(!new)>(items: seq<string>, run: Task<T>, item: string, e: string): set<nat> {
    set k: nat | k < |items| && items[k] == item && run(k, item) == Failure(e)
  }

  lemma CommonGrows(a: set<nat>, b: set<nat>, x: nat)
    requires x !in a
    ensures |(a + {x}) * b| == |a * b| + if x in b then 1 else 0
  {
    if x in b {
      assert (a + {x}) * b == a * b + {x};
    } else {
      assert (a + {x}) * b == a * b;
    }
  }

  lemma {:induction false} ReportsCountCompleted<T(!new)>(items: seq<string>, run: Task<T>, order: seq<nat>,
                                                          item: string, e: string)
    requires Distinct(order) && forall i :: 0 <= i < |order| ==> order[i] < |items|
    ensures multiset(Reported(items, run, order))[(item, e)] == |SetOf(order) * FailedWith(items, run, item, e)|
  {
    var failed := FailedWith(items, run, item, e);
    if order != [] {
      var front, last := order[..|order| - 1], order[|order| - 1];
      assert order == front + [last];
      ReportsCountCompleted(items, run, front, item, e);
      CommonGrows(SetOf(front), failed, last);
      assert SetOf(order) == SetOf(front) + {last};
      assert last in failed <==> items[last] == item && run(last, item) == Failure(e);
    }
  }

  // Whatever the schedule, a failure is reported as often as submissions of its item end
  // with it: none is lost, repeated or made up.
  lemma {:induction false} EveryFailureIsReported<T(!new)>(items: seq<string>, run: Task<T>, order: seq<nat>,
                                                           item: string, e: string)
    requires IsSchedule(order, |items|)
    ensures multiset(Reported(items, run, order))[(item, e)]
         == |set k: nat | k < |items| && items[k] == item && run(k, item) == Failure(e)|
  {
    ReportsCountCompleted(items, run, order, item, e);
    ScheduleCoversAll(order, |items|);
    assert SetOf(order) * FailedWith(items, run, item, e) == FailedWith(items, run, item, e);
  }

  lemma EveryReportCounts<T(!new)>(items: seq<string>, run: Task<T>, order: seq<nat>)
    requires IsSchedule(order, |items|)
    ensures forall item, e ::
              multiset(Reported(items, run, order))[(item, e)] == |FailedWith(items, run, item, e)|
  {
    forall item, e
      ensures multiset(Reported(items, run, order))[(item, e)] == |FailedWith(items, run, item, e)|
    {
      EveryFailureIsReported(items, run, order, item, e);
    }
  }

  // Whatever the task and the schedule, the failures reported are the same, each failing
  // submission once.
  lemma {:induction false} ReportsDoNotDependOnSchedule<T>(items: seq<string>, run: Task<T>, a: seq<nat>, b: seq<nat>)
    requires forall i :: 0 <= i < |a| ==> a[i] < |items|
    requires forall i :: 0 <= i < |b| ==> b[i] < |items|
    requires multiset(a) == multiset(b)
    ensures multiset(Reported(items, run, a)) == multiset(Reported(items, run, b))
    decreases |a|
  {
    if a == [] {
      assert |multiset(b)| == |b|;
    } else {
      var i := SplitRearrangement(a, b);
      ReportsDoNotDependOnSchedule(items, run, a[..|a| - 1], b[..i] + b[i + 1..]);
      ReportedAround(items, run, b[..i], b[i], b[i + 1..]);
      ReportedAppend(items, run, a[..|a| - 1], [b[i]]);
      assert b == b[..i] + [b[i]] + b[i + 1..];
      assert a == a[..|a| - 1] + [b[i]];
    }
  }

  lemma AnyTwoSchedules(a: seq<nat>, b: seq<nat>, n: nat)
    requires IsSchedule(a, n) && IsSchedule(b, n)
    ensures multiset(a) == multiset(b)
  {
    ScheduleCoversAll(a, n);
    ScheduleCoversAll(b, n);
    DistinctCounts(a);
    DistinctCounts(b);
    forall k: nat
      ensures multiset(a)[k] == multiset(b)[k]
    {
      assert k in a <==> k in b;
    }
  }
}
