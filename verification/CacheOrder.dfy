// Exactly which keys the cache keeps (src/infrastructure/cache.py), for every run of sets,
// gets, deletes and clears with expiring entries: those beside which there never stood as
// many younger live keys as the cache may hold. Gets make no difference.
module CacheOrder {
  import opened Common
  import opened Cache

  // The key was set, not deleted or cleared since, and its time is not over.
  predicate Alive<V>(ops: seq<Op<V>>, key: string, clock: int) {
    Current(ops, key).Some? && Current(ops, key).value.Lives(clock)
  }

  // The live keys that were set after the latest set of a key.
  ghost function Beside<V>(ops: seq<Op<V>>, key: string, clock: int): set<string> {
    set j | j in SetSince(ops, key) && Alive(ops, j, clock)
  }

  // At no point since its latest set did `limit` such keys stand beside it.
  ghost predicate Uncrowded<V>(ops: seq<Op<V>>, key: string, limit: nat, start: int) {
    ops != [] ==>
      var front, op := ops[..|ops| - 1], ops[|ops| - 1];
      && |Beside(ops, key, Clock(ops, start))| < limit
      && ((op.SetOp? && op.key == key) || Uncrowded(front, key, limit, start))
  }

  // Of two keys only one was set after the other.
  lemma {:induction false} OneIsLater<V>(ops: seq<Op<V>>, j: string, k: string)
    requires Current(ops, j).Some? && Current(ops, k).Some?
    ensures !(j in SetSince(ops, k) && k in SetSince(ops, j))
    ensures k !in SetSince(ops, k)
  {
    var front, op := ops[..|ops| - 1], ops[|ops| - 1];
    if !op.SetOp? || (op.key != j && op.key != k) {
      OneIsLater(front, j, k);
    } else if op.key != k {
      OneIsLater(front, k, k);
    }
  }

  // ---- What each state owes to its history ---------------------------------------------------

  // The live keys set after a stored key are stored too.
  ghost predicate LaterOnesStored<V(!new)>(ops: seq<Op<V>>, s: CacheState<V>, clock: int) {
    forall j, k :: k in s.store && j in Beside(ops, k, clock) ==> j in s.store
  }

  // Of the live keys exactly the uncrowded ones are stored.
  ghost predicate KeepsUncrowded<V(!new)>(ops: seq<Op<V>>, s: CacheState<V>, limit: nat, start: int) {
    forall k {:trigger Uncrowded(ops, k, limit, start)} {:trigger k in s.store} ::
      Alive(ops, k, Clock(ops, start)) ==> (k in s.store <==> Uncrowded(ops, k, limit, start))
  }

  lemma BesideShrinks<V>(ops: seq<Op<V>>, key: string, clock: int, later: int)
    requires clock <= later
    ensures Beside(ops, key, later) <= Beside(ops, key, clock)
    ensures |Beside(ops, key, later)| <= |Beside(ops, key, clock)|
  {
    SubsetSize(Beside(ops, key, later), Beside(ops, key, clock));
  }

  // ---- A set ------------------------------------------------------------------------------

  lemma BesideAfterSet<V(!new)>(ops: seq<Op<V>>, op: Op<V>, k: string, clock: int)
    requires op.SetOp?
    ensures k == op.key ==> Beside(ops + [op], k, clock) == {}
    ensures forall j :: j in Beside(ops + [op], k, clock) ==> j in Beside(ops, k, clock) || j == op.key
  {
    KeySet(ops, op, k);
    forall j | j in Beside(ops + [op], k, clock)
      ensures j in Beside(ops, k, clock) || j == op.key
    {
      KeySet(ops, op, j);
    }
  }

  lemma PutKeepsLater<V(!new)>(ops: seq<Op<V>>, s: CacheState<V>, op: Op<V>, clock: int, now: int)
    requires op.SetOp? && clock <= now && LaterOnesStored(ops, s, clock)
    ensures LaterOnesStored(ops + [op], s.Put(op.key, op.setting.NewEntry()), now)
  {
    forall j, k | k in s.Put(op.key, op.setting.NewEntry()).store && j in Beside(ops + [op], k, now)
      ensures j in s.Put(op.key, op.setting.NewEntry()).store
    {
      BesideAfterSet(ops, op, k, now);
      BesideShrinks(ops, k, clock, now);
    }
  }

  // Dropping expired entries and then the oldest ones takes no live key set after one that
  // stays.
  lemma DropKeepsLater<V(!new)>(ops: seq<Op<V>>, s: CacheState<V>, now: int)
    requires Holds(ops, s) && LaterOnesStored(ops, s, now)
    ensures LaterOnesStored(ops, s.DropExpired(now), now)
  {
    forall j, k | k in s.DropExpired(now).store && j in Beside(ops, k, now)
      ensures j in s.DropExpired(now).store
    {
      assert j in s.store && Current(ops, j).Some? && s.store[j] == Current(ops, j).value.NewEntry();
    }
  }

  lemma EvictionKeepsLater<V(!new)>(ops: seq<Op<V>>, s: CacheState<V>, t: CacheState<V>, limit: nat, now: int)
    requires Holds(ops, s) && LaterOnesStored(ops, s, now) && OldestGone(s, t, limit)
    ensures LaterOnesStored(ops, t, now)
  {
    forall j, k | k in t.store && j in Beside(ops, k, now)
      ensures j in t.store
    {
      assert j in s.store;
      if j !in t.store {
        assert s.order[j] < s.order[k] && k in SetSince(ops, j);
        OneIsLater(ops, j, k);
      }
    }
  }

  // The state of a set before the oldest entries go.
  function Live<V>(s: CacheState<V>, op: Op<V>, maxsize: int): CacheState<V>
    requires op.SetOp?
  {
    var put := s.Put(op.key, op.setting.NewEntry());
    if |put.store| > maxsize then put.DropExpired(op.evictionTime) else put
  }

  lemma {:induction false} LiveHolds<V(!new)>(ops: seq<Op<V>>, s: CacheState<V>, op: Op<V>, maxsize: int, clock: int)
    requires op.SetOp? && Faithful(ops, s, maxsize, clock) && clock <= op.evictionTime
    ensures Holds(ops + [op], Live(s, op, maxsize))
  {
    var put := s.Put(op.key, op.setting.NewEntry());
    PutHolds(ops, s, op, Limit(maxsize), clock);
    LaterClock(ops + [op], put, Limit(maxsize), clock, op.evictionTime);
    if |put.store| > maxsize {
      DropExpiredHolds(ops + [op], put, Limit(maxsize), op.evictionTime, op.evictionTime);
    }
  }

  lemma {:induction false} LiveKeepsLater<V(!new)>(ops: seq<Op<V>>, s: CacheState<V>, op: Op<V>, maxsize: int,
                                                   clock: int)
    requires op.SetOp? && Faithful(ops, s, maxsize, clock) && clock <= op.evictionTime
    requires LaterOnesStored(ops, s, clock)
    ensures LaterOnesStored(ops + [op], Live(s, op, maxsize), op.evictionTime)
  {
    var put := s.Put(op.key, op.setting.NewEntry());
    PutHolds(ops, s, op, Limit(maxsize), clock);
    PutKeepsLater(ops, s, op, clock, op.evictionTime);
    if |put.store| > maxsize {
      DropKeepsLater(ops + [op], put, op.evictionTime);
    }
  }

  lemma {:induction false} LiveSpec<V(!new)>(ops: seq<Op<V>>, s: CacheState<V>, op: Op<V>, maxsize: int, clock: int)
    requires op.SetOp? && Faithful(ops, s, maxsize, clock) && clock <= op.evictionTime
    requires LaterOnesStored(ops, s, clock)
    ensures Holds(ops + [op], Live(s, op, maxsize))
    ensures LaterOnesStored(ops + [op], Live(s, op, maxsize), op.evictionTime)
    ensures forall k :: Alive(ops + [op], k, op.evictionTime) ==>
              (k in Live(s, op, maxsize).store <==> k in s.store || k == op.key)
    ensures |Live(s, op, maxsize).store| > Limit(maxsize) ==>
              forall k :: k in Live(s, op, maxsize).store ==> Alive(ops + [op], k, op.evictionTime)
  {
    LiveHolds(ops, s, op, maxsize, clock);
    LiveKeepsLater(ops, s, op, maxsize, clock);
    PutHolds(ops, s, op, Limit(maxsize), clock);
  }

  lemma {:induction false} AfterSetSpec<V(!new)>(ops: seq<Op<V>>, s: CacheState<V>, op: Op<V>, maxsize: int,
                                                 clock: int, t: CacheState<V>)
    requires op.SetOp? && Faithful(ops, s, maxsize, clock) && clock <= op.evictionTime
    requires LaterOnesStored(ops, s, clock) && AfterSet(s, op.key, op.setting.NewEntry(), maxsize, op.evictionTime, t)
    ensures LaterOnesStored(ops + [op], t, op.evictionTime)
  {
    LiveSpec(ops, s, op, maxsize, clock);
    if |Live(s, op, maxsize).store| > Limit(maxsize) {
      EvictionKeepsLater(ops + [op], Live(s, op, maxsize), t, Limit(maxsize), op.evictionTime);
    }
  }

  // A live key that an eviction takes has `limit` younger live keys beside it.
  lemma EvictedIsCrowded<V(!new)>(ops: seq<Op<V>>, s: CacheState<V>, t: CacheState<V>, limit: nat, now: int, k: string)
    requires Holds(ops, s) && OldestGone(s, t, limit) && k in s.store && k !in t.store
    requires forall j :: j in s.store ==> Alive(ops, j, now)
    ensures |Beside(ops, k, now)| >= limit
  {
    forall j | j in t.store
      ensures j in Beside(ops, k, now)
    {
      assert s.order[k] < s.order[j];
    }
    SubsetSize(t.store.Keys, Beside(ops, k, now));
    assert |t.store| == |t.store.Keys|;
  }

  // A stored key has fewer live keys beside it than the cache may hold.
  lemma StoredHasRoom<V(!new)>(ops: seq<Op<V>>, s: CacheState<V>, limit: nat, now: int, k: string)
    requires LaterOnesStored(ops, s, now) && |s.store| <= limit && k in s.store && Current(ops, k).Some?
    ensures |Beside(ops, k, now)| < limit
  {
    OneIsLater(ops, k, k);
    assert Beside(ops, k, now) <= s.store.Keys - {k};
    SubsetSize(Beside(ops, k, now), s.store.Keys - {k});
    assert |s.store.Keys| == |s.store|;
  }

  // Who is stored after a set, among the live keys.
  lemma {:induction false} StoredAfterSet<V(!new)>(ops: seq<Op<V>>, s: CacheState<V>, op: Op<V>, maxsize: int,
                                                  clock: int, t: CacheState<V>, k: string)
    requires op.SetOp? && Faithful(ops, s, maxsize, clock) && clock <= op.evictionTime
    requires LaterOnesStored(ops, s, clock) && AfterSet(s, op.key, op.setting.NewEntry(), maxsize, op.evictionTime, t)
    requires Alive(ops + [op], k, op.evictionTime)
    ensures k in t.store
       <==> (k in s.store || k == op.key) && |Beside(ops + [op], k, op.evictionTime)| < Limit(maxsize)
  {
    var live := Live(s, op, maxsize);
    LiveSpec(ops, s, op, maxsize, clock);
    AfterSetSpec(ops, s, op, maxsize, clock, t);
    SetIsFaithful(ops, s, op, maxsize, clock, t);
    if k in t.store {
      StoredHasRoom(ops + [op], t, Limit(maxsize), op.evictionTime, k);
    } else if k in live.store {
      EvictedIsCrowded(ops + [op], live, t, Limit(maxsize), op.evictionTime, k);
    }
  }

  lemma {:induction false} SetKeepsUncrowded<V(!new)>(ops: seq<Op<V>>, s: CacheState<V>, op: Op<V>, maxsize: int,
                                                  start: int, t: CacheState<V>)
    requires op.SetOp? && Faithful(ops, s, maxsize, Clock(ops, start)) && Clock(ops, start) <= op.evictionTime
    requires LaterOnesStored(ops, s, Clock(ops, start)) && KeepsUncrowded(ops, s, Limit(maxsize), start)
    requires AfterSet(s, op.key, op.setting.NewEntry(), maxsize, op.evictionTime, t)
    ensures LaterOnesStored(ops + [op], t, op.evictionTime) && KeepsUncrowded(ops + [op], t, Limit(maxsize), start)
  {
    AfterSetSpec(ops, s, op, maxsize, Clock(ops, start), t);
    forall k | Alive(ops + [op], k, op.evictionTime)
      ensures k in t.store <==> Uncrowded(ops + [op], k, Limit(maxsize), start)
    {
      StoredAfterSet(ops, s, op, maxsize, Clock(ops, start), t, k);
      KeySet(ops, op, k);
      UncrowdedSnoc(ops, op, k, Limit(maxsize), start);
    }
    assert Clock(ops + [op], start) == op.evictionTime;
  }

  lemma UncrowdedSnoc<V>(ops: seq<Op<V>>, op: Op<V>, k: string, limit: nat, start: int)
    ensures Uncrowded(ops + [op], k, limit, start)
       <==> |Beside(ops + [op], k, Clock(ops + [op], start))| < limit
            && ((op.SetOp? && op.key == k) || Uncrowded(ops, k, limit, start))
  {
    assert (ops + [op])[..|ops|] == ops;
  }

  // ---- The other operations --------------------------------------------------------------

  lemma BesideAfterOther<V(!new)>(ops: seq<Op<V>>, op: Op<V>, k: string, clock: int, later: int)
    requires !op.SetOp? && clock <= later
    ensures Beside(ops + [op], k, later) <= Beside(ops, k, clock)
    ensures |Beside(ops + [op], k, later)| <= |Beside(ops, k, clock)|
  {
    NothingSet(ops, op, k);
    forall j | j in Beside(ops + [op], k, later)
      ensures j in Beside(ops, k, clock)
    {
      NothingSet(ops, op, j);
    }
    SubsetSize(Beside(ops + [op], k, later), Beside(ops, k, clock));
  }

  // An operation that sets nothing takes expired, deleted or cleared keys only.
  lemma {:induction false} OtherKeepsUncrowded<V(!new)>(ops: seq<Op<V>>, s: CacheState<V>, op: Op<V>, limit: nat,
                                                  start: int, t: CacheState<V>)
    requires !op.SetOp? && Clock(ops, start) <= Clock(ops + [op], start) && Holds(ops, s)
    requires LaterOnesStored(ops, s, Clock(ops, start)) && KeepsUncrowded(ops, s, limit, start)
    requires forall k :: k in t.store ==> k in s.store
    requires forall k :: k in s.store && Alive(ops + [op], k, Clock(ops + [op], start)) ==> k in t.store
    ensures LaterOnesStored(ops + [op], t, Clock(ops + [op], start)) && KeepsUncrowded(ops + [op], t, limit, start)
  {
    var clock, later := Clock(ops, start), Clock(ops + [op], start);
    forall j, k | k in t.store && j in Beside(ops + [op], k, later)
      ensures j in t.store
    {
      BesideAfterOther(ops, op, k, clock, later);
    }
    forall k | Alive(ops + [op], k, later)
      ensures k in t.store <==> Uncrowded(ops + [op], k, limit, start)
    {
      NothingSet(ops, op, k);
      BesideAfterOther(ops, op, k, clock, later);
      UncrowdedSnoc(ops, op, k, limit, start);
      assert Alive(ops, k, clock) && ops != [];
    }
  }

  lemma {:induction false} StepKeepsUncrowded<V(!new)>(ops: seq<Op<V>>, s: CacheState<V>, op: Op<V>, maxsize: int,
                                                  start: int, t: CacheState<V>)
    requires Faithful(ops, s, maxsize, Clock(ops, start)) && Step(s, op, maxsize, t) && ClockAdvances(ops + [op], start)
    requires LaterOnesStored(ops, s, Clock(ops, start)) && KeepsUncrowded(ops, s, Limit(maxsize), start)
    ensures LaterOnesStored(ops + [op], t, Clock(ops + [op], start))
    ensures KeepsUncrowded(ops + [op], t, Limit(maxsize), start)
  {
    assert (ops + [op])[..|ops|] == ops;
    if op.SetOp? {
      SetKeepsUncrowded(ops, s, op, maxsize, start, t);
    } else {
      LiveOnesStay(ops, s, op, maxsize, start, t);
      OtherKeepsUncrowded(ops, s, op, Limit(maxsize), start, t);
    }
  }

  // Only a set takes a live entry out of the store.
  lemma LiveOnesStay<V(!new)>(ops: seq<Op<V>>, s: CacheState<V>, op: Op<V>, maxsize: int, start: int, t: CacheState<V>)
    requires !op.SetOp? && Faithful(ops, s, maxsize, Clock(ops, start)) && Step(s, op, maxsize, t)
    requires ClockAdvances(ops + [op], start)
    ensures forall k :: k in s.store && Alive(ops + [op], k, Clock(ops + [op], start)) ==> k in t.store
  {
    assert (ops + [op])[..|ops|] == ops;
    forall k | k in s.store && Alive(ops + [op], k, Clock(ops + [op], start))
      ensures k in t.store
    {
      NothingSet(ops, op, k);
      assert Current(ops, k).Some? && s.store[k] == Current(ops, k).value.NewEntry();
    }
  }

  lemma {:induction false} RunKeepsUncrowded<V(!new)>(ops: seq<Op<V>>, maxsize: int, start: int, t: CacheState<V>)
    requires Reaches(ops, maxsize, t) && ClockAdvances(ops, start)
    ensures LaterOnesStored(ops, t, Clock(ops, start)) && KeepsUncrowded(ops, t, Limit(maxsize), start)
  {
    if ops != [] {
      var front, op := ops[..|ops| - 1], ops[|ops| - 1];
      var s: CacheState<V> :| Reaches(front, maxsize, s) && s.Sound() && Step(s, op, maxsize, t);
      assert ops == front + [op];
      RunKeepsUncrowded(front, maxsize, start, s);
      RunIsFaithful(front, maxsize, start, s);
      StepKeepsUncrowded(front, s, op, maxsize, start, t);
    }
  }

  // ---- Main results ---------------------------------------------------------------------------

  // After any run: a get is answered, with the value of the latest set, exactly when that set
  // was not deleted or cleared and has not expired, and at no point since then did as many
  // younger live keys as the cache may hold stand beside the key.
  lemma {:induction false} GetIsAnsweredIff<V(!new)>(ops: seq<Op<V>>, maxsize: int, start: int, s: CacheState<V>,
                                                  key: string, now: int)
    requires Reaches(ops, maxsize, s) && ClockAdvances(ops, start) && Clock(ops, start) <= now
    ensures s.Get(key, now).0
         == if Alive(ops, key, now) && Uncrowded(ops, key, if maxsize < 0 then 0 else maxsize, start)
            then Some(Current(ops, key).value.value) else None
  {
    RunIsFaithful(ops, maxsize, start, s);
    RunKeepsUncrowded(ops, maxsize, start, s);
    if key in s.store {
      assert Current(ops, key).Some? && s.store[key] == Current(ops, key).value.NewEntry();
    }
    if Alive(ops, key, now) {
      assert Alive(ops, key, Clock(ops, start));
      assert key in s.store <==> Uncrowded(ops, key, Limit(maxsize), start);
    }
  }

  // ---- Every run leads somewhere ---------------------------------------------------------

  lemma GreatestNumber<V(!new)>(s: CacheState<V>, keys: set<string>) returns (k: string)
    requires s.Sound() && keys != {} && keys <= s.store.Keys
    ensures k in keys && forall j :: j in keys ==> s.order[j] <= s.order[k]
    decreases |keys|
  {
    k :| k in keys;
    if keys != {k} {
      var j := GreatestNumber(s, keys - {k});
      k := if s.order[k] < s.order[j] then j else k;
    }
  }

  // Some keys in the order of their insertion numbers.
  lemma InOrderOfNumbers<V(!new)>(s: CacheState<V>, keys: set<string>) returns (sorted: seq<string>)
    requires s.Sound() && keys <= s.store.Keys
    ensures |sorted| == |keys| && forall k :: k in sorted <==> k in keys
    ensures forall i, j :: 0 <= i < j < |sorted| ==> s.order[sorted[i]] < s.order[sorted[j]]
    decreases |keys|
  {
    if keys == {} {
      return [];
    }
    var k := GreatestNumber(s, keys);
    var front := InOrderOfNumbers(s, keys - {k});
    sorted := front + [k];
    forall i | 0 <= i < |front|
      ensures s.order[front[i]] < s.order[k]
    {
      assert front[i] in front;
    }
  }

  lemma {:induction false} SomeEviction<V(!new)>(s: CacheState<V>, limit: nat) returns (t: CacheState<V>)
    requires s.Sound() && |s.store| > limit
    ensures t.Sound() && OldestGone(s, t, limit)
  {
    var sorted := InOrderOfNumbers(s, s.store.Keys);
    var n := |s.store| - limit;
    assert |s.store.Keys| == |s.store|;
    FirstOnesGone(s, sorted, n);
    t := s.Without(sorted[..n]);
  }

  lemma {:induction false} SomeSetState<V(!new)>(s: CacheState<V>, key: string, e: Entry<V>, maxsize: int, now: int)
      returns (t: CacheState<V>)
    requires s.Sound()
    ensures t.Sound() && AfterSet(s, key, e, maxsize, now, t)
  {
    PutIsSound(s, key, e);
    DropExpiredIsSound(s.Put(key, e), now);
    var put := s.Put(key, e);
    t := if |put.store| > maxsize then put.DropExpired(now) else put;
    if |t.store| > Limit(maxsize) {
      t := SomeEviction(t, Limit(maxsize));
    }
  }

  lemma {:induction false} EveryRunReaches<V(!new)>(ops: seq<Op<V>>, maxsize: int) returns (t: CacheState<V>)
    ensures Reaches(ops, maxsize, t) && t.Sound()
  {
    if ops == [] {
      return CacheState(map[], map[], 0);
    }
    var s := EveryRunReaches(ops[..|ops| - 1], maxsize);
    match ops[|ops| - 1]
    case SetOp(key, setting, time) => t := SomeSetState(s, key, setting.NewEntry(), maxsize, time);
    case GetOp(key, now) => t := s.Get(key, now).1;
    case DeleteOp(key) => t := s.Drop(key);
    case ClearOp => t := CacheState(map[], map[], s.counter);
  }

  // A value set for some seconds is answered by a later get, with nothing in between, exactly
  // as long as they have not passed, and for ever when they are not positive; only a cache
  // without room for an entry answers nothing.
  lemma {:induction false} SetIsAnsweredIff<V(!new)>(s: CacheState<V>, key: string, value: V, seconds: int, at: int,
                                                     maxsize: int, evictionTime: int, t: CacheState<V>, now: int)
    requires s.Sound() && at <= evictionTime <= now
    requires AfterSet(s, key, EntryFor(value, seconds, at), maxsize, evictionTime, t)
    ensures t.Get(key, now).0
         == if maxsize >= 1 && (seconds <= 0 || now <= at + seconds) then Some(value) else None
  {
    var e := EntryFor(value, seconds, at);
    assert e.Expired(now) <==> !(seconds <= 0 || now <= at + seconds);
    assert e.Expired(evictionTime) ==> e.Expired(now);
    NewestAnswers(s, key, e, maxsize, evictionTime, t);
  }

  // The new entry is stored unless it has already expired or there is no room at all.
  lemma {:induction false} NewestAnswers<V(!new)>(s: CacheState<V>, key: string, e: Entry<V>, maxsize: int,
                                                  evictionTime: int, t: CacheState<V>)
    requires s.Sound() && AfterSet(s, key, e, maxsize, evictionTime, t)
    ensures key in t.store ==> t.store[key] == e && maxsize >= 1
    ensures maxsize >= 1 && !e.Expired(evictionTime) ==> key in t.store
  {
    var put := s.Put(key, e);
    PutIsSound(s, key, e);
    PutIsNewest(s, key, e);
    if |put.store| > maxsize {
      var live := put.DropExpired(evictionTime);
      DropExpiredIsSound(put, evictionTime);
      assert live.order == put.order;
      assert key in live.store <==> !e.Expired(evictionTime);
      NewestStays(key, e, live, t, Limit(maxsize));
    } else {
      NewestStays(key, e, put, t, Limit(maxsize));
    }
  }

  lemma PutIsNewest<V>(s: CacheState<V>, key: string, e: Entry<V>)
    requires s.Sound()
    ensures key in s.Put(key, e).store && s.Put(key, e).store[key] == e && key in s.Put(key, e).order
    ensures forall k :: k in s.Put(key, e).order && k != key ==> s.Put(key, e).order[k] < s.Put(key, e).order[key]
  {
  }

  // The entry with the greatest number: an eviction that leaves anything leaves it.
  lemma {:induction false} NewestStays<V(!new)>(key: string, e: Entry<V>, live: CacheState<V>, t: CacheState<V>,
                                                limit: nat)
    requires live.Sound() && key in live.order && (key in live.store ==> live.store[key] == e)
    requires forall k :: k in live.order && k != key ==> live.order[k] < live.order[key]
    requires if |live.store| > limit then OldestGone(live, t, limit) else t == live
    ensures key in t.store <==> key in live.store && limit > 0
    ensures key in t.store ==> t.store[key] == e
  {
    assert |t.store.Keys| == |t.store|;
    if |live.store| > limit {
      assert limit > 0 <==> t.store.Keys != {};
    } else if key in live.store {
      assert live.store.Keys != {};
    }
  }

  // ---- Gets make no difference -----------------------------------------------------------------

  lemma {:induction false} SetsOnly<V(!new)>(a: seq<Op<V>>, b: seq<Op<V>>, op: Op<V>, key: string)
    requires op.GetOp?
    ensures Current(a + [op] + b, key) == Current(a + b, key) && SetSince(a + [op] + b, key) == SetSince(a + b, key)
    decreases |b|
  {
    if b == [] {
      assert (a + [op] + b)[..|a|] == a && a + b == a;
    } else {
      var front, last := b[..|b| - 1], b[|b| - 1];
      SetsOnly(a, front, op, key);
      assert (a + [op] + b)[..|a| + |b|] == a + [op] + front;
      assert (a + b)[..|a| + |front|] == a + front;
    }
  }

  lemma {:induction false} ClockWithoutGet<V(!new)>(a: seq<Op<V>>, b: seq<Op<V>>, op: Op<V>, start: int)
    requires op.GetOp? && ClockAdvances(a + [op] + b, start)
    ensures ClockAdvances(a + b, start) && Clock(a + b, start) <= Clock(a + [op] + b, start)
    decreases |b|
  {
    if b == [] {
      assert (a + [op] + b)[..|a|] == a && a + b == a;
    } else {
      var front, last := b[..|b| - 1], b[|b| - 1];
      assert (a + [op] + b)[..|a| + |b|] == a + [op] + front;
      assert (a + b)[..|a| + |front|] == a + front;
      ClockWithoutGet(a, front, op, start);
    }
  }

  lemma SameBeside<V(!new)>(a: seq<Op<V>>, b: seq<Op<V>>, op: Op<V>, key: string, clock: int)
    requires op.GetOp?
    ensures Beside(a + [op] + b, key, clock) == Beside(a + b, key, clock)
  {
    SetsOnly(a, b, op, key);
    forall j
      ensures Alive(a + [op] + b, j, clock) == Alive(a + b, j, clock)
    {
      SetsOnly(a, b, op, j);
    }
  }

  lemma {:induction false} UncrowdedWithoutGet<V(!new)>(a: seq<Op<V>>, b: seq<Op<V>>, op: Op<V>, key: string,
                                                        limit: nat, start: int)
    requires op.GetOp? && ClockAdvances(a + [op] + b, start) && Current(a + b, key).Some?
    ensures Uncrowded(a + [op] + b, key, limit, start) <==> Uncrowded(a + b, key, limit, start)
    decreases |b|
  {
    ClockWithoutGet(a, b, op, start);
    if b == [] {
      assert a + [op] + b == a + [op] && a + b == a && (a + [op])[..|a|] == a;
      UncrowdedSnoc(a, op, key, limit, start);
      BesideAfterOther(a, op, key, Clock(a, start), op.now);
    } else {
      var front, last := b[..|b| - 1], b[|b| - 1];
      assert (a + [op] + front) + [last] == a + [op] + b && (a + front) + [last] == a + b;
      UncrowdedSnoc(a + [op] + front, last, key, limit, start);
      UncrowdedSnoc(a + front, last, key, limit, start);
      BesideOfBoth(a, b, op, key, start);
      if !(last.SetOp? && last.key == key) {
        CurrentBefore(a + front, last, key);
        assert (a + [op] + b)[..|a| + |b|] == a + [op] + front;
        UncrowdedWithoutGet(a, front, op, key, limit, start);
        if !last.SetOp? && !last.GetOp? {
          BesideAfterOther(a + front, last, key, Clock(a + front, start), Clock(a + b, start));
        }
      }
    }
  }

  lemma CurrentBefore<V(!new)>(ops: seq<Op<V>>, last: Op<V>, key: string)
    requires Current(ops + [last], key).Some? && !(last.SetOp? && last.key == key)
    ensures Current(ops, key).Some?
    ensures !last.SetOp? && !last.GetOp? ==> forall start :: Clock(ops + [last], start) == Clock(ops, start)
  {
    assert (ops + [last])[..|ops|] == ops;
  }

  // With the get the clock may be later, but only as long as nothing else reads it.
  lemma BesideOfBoth<V(!new)>(a: seq<Op<V>>, b: seq<Op<V>>, op: Op<V>, key: string, start: int)
    requires op.GetOp? && ClockAdvances(a + [op] + b, start) && b != []
    ensures
      var with := Beside(a + [op] + b, key, Clock(a + [op] + b, start));
      var without := Beside(a + b, key, Clock(a + b, start));
      && |with| <= |without|
      && (b[|b| - 1].SetOp? || b[|b| - 1].GetOp? ==> with == without)
  {
    ClockWithoutGet(a, b, op, start);
    SameBeside(a, b, op, key, Clock(a + [op] + b, start));
    BesideShrinks(a + b, key, Clock(a + b, start), Clock(a + [op] + b, start));
  }

  // A get anywhere in any run changes no later answer, for its own key or any other.
  lemma {:induction false} GetSavesNothing<V(!new)>(a: seq<Op<V>>, b: seq<Op<V>>, op: Op<V>, maxsize: int, start: int,
                                                    s: CacheState<V>, t: CacheState<V>, key: string, now: int)
    requires op.GetOp? && ClockAdvances(a + [op] + b, start) && Clock(a + [op] + b, start) <= now
    requires Reaches(a + b, maxsize, s) && Reaches(a + [op] + b, maxsize, t)
    ensures s.Get(key, now).0 == t.Get(key, now).0
  {
    ClockWithoutGet(a, b, op, start);
    SetsOnly(a, b, op, key);
    if Alive(a + b, key, now) {
      UncrowdedWithoutGet(a, b, op, key, Limit(maxsize), start);
    }
    GetIsAnsweredIff(a + b, maxsize, start, s, key, now);
    GetIsAnsweredIff(a + [op] + b, maxsize, start, t, key, now);
  }

  // ---- Sets and gets without expiry ---------------------------------------------------------

  // Only sets and gets, and no entry has expired yet.
  ghost predicate OnlySetsAndGets<V(!new)>(ops: seq<Op<V>>, clock: int) {
    forall i :: 0 <= i < |ops| ==> ops[i].GetOp? || (ops[i].SetOp? && ops[i].setting.Lives(clock))
  }

  predicate WasSet<V>(ops: seq<Op<V>>, key: string) {
    Current(ops, key).Some?
  }

  lemma {:induction false} LatestNotExpired<V(!new)>(ops: seq<Op<V>>, clock: int, key: string)
    requires OnlySetsAndGets(ops, clock)
    ensures WasSet(ops, key) ==> Current(ops, key).value.Lives(clock)
  {
    if ops != [] {
      LatestNotExpired(ops[..|ops| - 1], clock, key);
    }
  }

  lemma {:induction false} SetSinceWasSet<V(!new)>(ops: seq<Op<V>>, clock: int, k: string)
    requires OnlySetsAndGets(ops, clock)
    ensures forall j :: j in SetSince(ops, k) ==> WasSet(ops, j)
  {
    if ops != [] {
      SetSinceWasSet(ops[..|ops| - 1], clock, k);
    }
  }

  lemma StillNotExpired<V(!new)>(ops: seq<Op<V>>, op: Op<V>, clock: int, later: int)
    requires OnlySetsAndGets(ops + [op], later) && clock <= later
    ensures OnlySetsAndGets(ops, clock)
  {
    forall i | 0 <= i < |ops|
      ensures ops[i].GetOp? || (ops[i].SetOp? && ops[i].setting.Lives(clock))
    {
      assert (ops + [op])[i] == ops[i];
    }
  }

  lemma AllSetAreAlive<V(!new)>(ops: seq<Op<V>>, key: string, clock: int)
    requires OnlySetsAndGets(ops, clock)
    ensures Beside(ops, key, clock) == SetSince(ops, key)
  {
    SetSinceWasSet(ops, clock, key);
    forall j | j in SetSince(ops, key)
      ensures Alive(ops, j, clock)
    {
      LatestNotExpired(ops, clock, j);
    }
  }

  lemma {:induction false} RoomBySets<V(!new)>(ops: seq<Op<V>>, key: string, limit: nat, start: int)
    requires ClockAdvances(ops, start) && OnlySetsAndGets(ops, Clock(ops, start)) && WasSet(ops, key)
    ensures Uncrowded(ops, key, limit, start) <==> |SetSince(ops, key)| < limit
  {
    var front, op := ops[..|ops| - 1], ops[|ops| - 1];
    assert ops == front + [op];
    AllSetAreAlive(ops, key, Clock(ops, start));
    UncrowdedSnoc(front, op, key, limit, start);
    if !(op.SetOp? && op.key == key) {
      StillNotExpired(front, op, Clock(front, start), Clock(ops, start));
      RoomBySets(front, key, limit, start);
      if op.SetOp? {
        KeySet(front, op, key);
      } else {
        NothingSet(front, op, key);
      }
    }
  }

  // A key is stored exactly when it was set and fewer other keys than the cache may hold
  // were set since: the store is the youngest keys by last set.
  lemma {:induction false} StoreIsYoungestBySet<V(!new)>(ops: seq<Op<V>>, maxsize: int, start: int, t: CacheState<V>,
                                                  key: string)
    requires Reaches(ops, maxsize, t) && ClockAdvances(ops, start) && OnlySetsAndGets(ops, Clock(ops, start))
    ensures key in t.store <==> WasSet(ops, key) && |SetSince(ops, key)| < maxsize
  {
    RunIsFaithful(ops, maxsize, start, t);
    RunKeepsUncrowded(ops, maxsize, start, t);
    LatestNotExpired(ops, Clock(ops, start), key);
    if WasSet(ops, key) {
      RoomBySets(ops, key, Limit(maxsize), start);
      assert key in t.store <==> Uncrowded(ops, key, Limit(maxsize), start);
    }
  }

  // Two sets, a get of the first key, and a third set.
  function TwoSetsAndGet<V>(a: string, b: string, e: Setting<V>, now: int): seq<Op<V>> {
    [SetOp(a, e, now), SetOp(b, e, now), GetOp(a, now)]
  }

  function ReadThenSet<V>(a: string, b: string, c: string, e: Setting<V>, now: int): seq<Op<V>> {
    TwoSetsAndGet(a, b, e, now) + [SetOp(c, e, now)]
  }

  // Of a cache of two the key read last goes, although a least-recently-used cache would
  // keep it.
  lemma {:induction false} GetDoesNotSave<V(!new)>(a: string, b: string, c: string, e: Setting<V>, now: int)
      returns (t: CacheState<V>)
    requires a != b && b != c && c != a && e.seconds <= 0 && e.at == now
    ensures Reaches(ReadThenSet(a, b, c, e, now), 2, t)
    ensures t.store.Keys == {b, c}
  {
    forall k
      ensures WasSet(ReadThenSet(a, b, c, e, now), k) && |SetSince(ReadThenSet(a, b, c, e, now), k)| < 2
         <==> k in {b, c}
    {
      SetSinceOfFour(a, b, c, e, now, k);
    }
    assert AllAt(ReadThenSet(a, b, c, e, now), now);
    t := StoredAtOneTime(ReadThenSet(a, b, c, e, now), now, {b, c});
  }

  lemma StoredAtOneTime<V(!new)>(ops: seq<Op<V>>, now: int, keys: set<string>) returns (t: CacheState<V>)
    requires AllAt(ops, now)
    requires forall k :: WasSet(ops, k) && |SetSince(ops, k)| < 2 <==> k in keys
    ensures Reaches(ops, 2, t) && t.store.Keys == keys
  {
    t := EveryRunReaches(ops, 2);
    TimesOfOps(ops, now);
    forall k
      ensures k in t.store <==> k in keys
    {
      StoreIsYoungestBySet(ops, 2, now, t, k);
    }
  }

  // All operations are sets and gets at one time and without expiry.
  ghost predicate AllAt<V(!new)>(ops: seq<Op<V>>, now: int) {
    forall i :: 0 <= i < |ops| ==>
      (ops[i].GetOp? && ops[i].now == now)
      || (ops[i].SetOp? && ops[i].setting.at == now && ops[i].evictionTime == now && ops[i].setting.seconds <= 0)
  }

  lemma SetSinceOfFour<V(!new)>(a: string, b: string, c: string, e: Setting<V>, now: int, k: string)
    requires a != b && b != c && c != a
    ensures
      var ops := ReadThenSet(a, b, c, e, now);
      WasSet(ops, k) && |SetSince(ops, k)| < 2 <==> k == b || k == c
  {
    SetsOfThree(a, b, e, now, TwoSetsAndGet(a, b, e, now));
    KeySet(TwoSetsAndGet(a, b, e, now), SetOp(c, e, now), k);
    if k == a {
      assert {b} + {c} == {b, c} && |{b, c}| == 2;
    } else if k == b {
      assert {} + {c} == {c} && |{c}| == 1;
    }
  }

  lemma SetsOfThree<V(!new)>(a: string, b: string, e: Setting<V>, now: int, ops: seq<Op<V>>)
    requires a != b && ops == [SetOp(a, e, now), SetOp(b, e, now), GetOp(a, now)]
    ensures forall k :: WasSet(ops, k) <==> k == a || k == b
    ensures SetSince(ops, a) == {b} && SetSince(ops, b) == {}
  {
    var one, two: seq<Op<V>> := [SetOp(a, e, now)], [SetOp(a, e, now), SetOp(b, e, now)];
    assert ops == two + [GetOp(a, now)] && two == one + [SetOp(b, e, now)] && one == [] + [SetOp(a, e, now)];
    forall k
      ensures WasSet(ops, k) <==> k == a || k == b
      ensures k == a ==> SetSince(ops, k) == {b}
      ensures k == b ==> SetSince(ops, k) == {}
    {
      NothingSet(two, GetOp(a, now), k);
      KeySet(one, SetOp(b, e, now), k);
      KeySet([], SetOp(a, e, now), k);
    }
  }

  lemma {:induction false} TimesOfOps<V(!new)>(ops: seq<Op<V>>, now: int)
    requires AllAt(ops, now)
    ensures ClockAdvances(ops, now) && Clock(ops, now) == now && OnlySetsAndGets(ops, now)
  {
    if ops != [] {
      TimesOfOps(ops[..|ops| - 1], now);
    }
  }
}
