// The in-memory cache with time-to-live and bounded size (src/infrastructure/cache.py).
// Clock readings come from outside and never go back.
module Cache {
  import opened Common

  // `None` for an entry that never expires.
  datatype Entry<+V> = Entry(value: V, expiresAt: Option<int>) {
    predicate Expired(now: int) {
      expiresAt.Some? && now > expiresAt.value
    }
  }

  datatype CacheState<+V> = CacheState(store: map<string, Entry<V>>, order: map<string, nat>, counter: nat) {

    // Insertion numbers are distinct, cover the store and lie below the counter.
    ghost predicate Sound() {
      && (forall k :: k in store ==> k in order)
      && (forall k :: k in order ==> order[k] < counter)
      && (forall j, k :: j in order && k in order && j != k ==> order[j] != order[k])
    }

    function Put(key: string, e: Entry<V>): CacheState<V> {
      CacheState(store[key := e], order[key := counter], counter + 1)
    }

    // Expired entries leave the store; their insertion numbers stay behind.
    function DropExpired(now: int): CacheState<V> {
      this.(store := map k | k in store && !store[k].Expired(now) :: store[k])
    }

    function Drop(key: string): CacheState<V> {
      CacheState(store - {key}, order - {key}, counter)
    }

    function Without(keys: seq<string>): CacheState<V> {
      this.(store := map k | k in store && k !in keys :: store[k],
            order := map k | k in order && k !in keys :: order[k])
    }

    function Get(key: string, now: int): (Option<V>, CacheState<V>) {
      if key !in store then (None, this)
      else if store[key].Expired(now) then (None, this.(store := store - {key}))
      else (Some(store[key].value), this)
    }
  }

  function Limit(maxsize: int): nat {
    if maxsize < 0 then 0 else maxsize
  }

  function EntryFor<V>(value: V, ttl: int, now: int): Entry<V> {
    Entry(value, if ttl > 0 then Some(now + ttl) else None)
  }

  // A set as its caller asks for it: a value for some seconds, at some time.
  datatype Setting<+V> = Setting(value: V, seconds: int, at: int) {
    // Until when the value may be answered: for ever when the seconds are not positive.
    predicate Lives(now: int) {
      seconds <= 0 || now <= at + seconds
    }

    function NewEntry(): Entry<V> {
      EntryFor(value, seconds, at)
    }
  }

  // `t` is `s` without some entries and their numbers, all of them older than every entry
  // that stays; `limit` entries stay.
  ghost predicate OldestGone<V(!new)>(s: CacheState<V>, t: CacheState<V>, limit: nat)
    requires s.Sound()
  {
    && t.counter == s.counter
    && |t.store| == limit
    && (forall k :: k in t.store ==> k in s.store && t.store[k] == s.store[k])
    && (forall k :: k in t.order <==> k in s.order && (k in s.store ==> k in t.store))
    && (forall k :: k in t.order ==> t.order[k] == s.order[k])
    && (forall j, k :: j in s.store && j !in t.store && k in t.store ==> s.order[j] < s.order[k])
  }

  // The state after a set; evictions happen only when the store has grown too large.
  ghost predicate AfterSet<V(!new)>(s: CacheState<V>, key: string, e: Entry<V>, maxsize: int, now: int,
                                    t: CacheState<V>)
    requires s.Sound()
  {
    var put := s.Put(key, e);
    var live := if |put.store| > maxsize then put.DropExpired(now) else put;
    if |live.store| > Limit(maxsize) then OldestGone(live, t, Limit(maxsize)) else t == live
  }

  class MemoryCache<V(!new)> {
    const defaultTtl: int
    const maxsize: int
    var store: map<string, Entry<V>>
    var insertionOrder: map<string, nat>
    var insertionCounter: nat

    function State(): CacheState<V>
      reads this
    {
      CacheState(store, insertionOrder, insertionCounter)
    }

    ghost predicate Valid()
      reads this
    {
      State().Sound() && |store| <= Limit(maxsize)
    }

    constructor (ttl: int, size: int)
      ensures Valid() && State() == CacheState(map[], map[], 0)
      ensures defaultTtl == ttl && maxsize == size
    {
      defaultTtl := ttl;
      maxsize := size;
      store := map[];
      insertionOrder := map[];
      insertionCounter := 0;
    }

    method Get(key: string, now: int) returns (r: Option<V>)
      requires Valid()
      modifies this`store
      ensures Valid()
      ensures (r, State()) == old(State()).Get(key, now)
    {
      if key !in store {
        return None;
      }
      var e := store[key];
      if e.Expired(now) {
        KeysWithout(store, key);
        store := store - {key};
        return None;
      }
      return Some(e.value);
    }

    method Has(key: string, now: int) returns (found: bool)
      requires Valid()
      modifies this`store
      ensures Valid()
      ensures found == old(State()).Get(key, now).0.Some?
      ensures State() == old(State()).Get(key, now).1
    {
      var r := Get(key, now);
      return r.Some?;
    }

    method Set(key: string, value: V, ttl: Option<int>, now: int, evictionTime: int)
      requires Valid()
      modifies this
      ensures Valid()
      ensures
        var seconds := if ttl.Some? then ttl.value else defaultTtl;
        AfterSet(old(State()), key, EntryFor(value, seconds, now), maxsize, evictionTime, State())
    {
      var seconds := if ttl.Some? then ttl.value else defaultTtl;
      ghost var before, e := State(), EntryFor(value, seconds, now);
      PutIsSound(before, key, e);
      DropExpiredIsSound(before.Put(key, e), evictionTime);
      store := store[key := EntryFor(value, seconds, now)];
      insertionOrder := insertionOrder[key := insertionCounter];
      insertionCounter := insertionCounter + 1;
      assert State() == before.Put(key, e);
      if |store| > maxsize {
        EvictExpired(evictionTime);
      }
      ghost var live := State();
      assert live.Sound() && |live.store| == |store|;
      if |store| > maxsize {
        EvictOldest();
      }
      assert if |live.store| > Limit(maxsize) then OldestGone(live, State(), Limit(maxsize)) else State() == live;
    }

    method EvictExpired(now: int)
      modifies this`store
      ensures State() == old(State()).DropExpired(now)
    {
      store := map k | k in store && !store[k].Expired(now) :: store[k];
    }

    // Sorts the keys by insertion number and deletes the first ones.
    method EvictOldest()
      requires State().Sound() && |store| > maxsize
      modifies this`store, this`insertionOrder
      ensures State().Sound()
      ensures if |old(store)| > Limit(maxsize) then OldestGone(old(State()), State(), Limit(maxsize))
              else State() == old(State())
    {
      ghost var before := State();
      var sorted := SortedKeys(store, insertionOrder);
      var toRemove := |store| - Limit(maxsize);
      if toRemove <= 0 {
        return;
      }
      for n := 0 to toRemove
        invariant State() == before.Without(sorted[..n])
      {
        var k := sorted[n];
        WithoutOneMore(before, sorted, n);
        store := store - {k};
        insertionOrder := insertionOrder - {k};
      }
      FirstOnesGone(before, sorted, toRemove);
    }

    method Delete(key: string)
      requires Valid()
      modifies this`store, this`insertionOrder
      ensures Valid() && State() == old(State()).Drop(key)
    {
      KeysWithout(store, key);
      store := store - {key};
      insertionOrder := insertionOrder - {key};
    }

    method Clear()
      modifies this`store, this`insertionOrder
      ensures State() == CacheState(map[], map[], insertionCounter)
      ensures Valid()
    {
      store := map[];
      insertionOrder := map[];
    }
  }

  lemma KeysWithout<V>(m: map<string, Entry<V>>, key: string)
    ensures |m - {key}| == |m| - if key in m then 1 else 0
  {
    assert (m - {key}).Keys == m.Keys - {key};
    assert |(m - {key})| == |(m - {key}).Keys| && |m| == |m.Keys|;
  }

  ghost predicate Sorted<V(!new)>(s: CacheState<V>, keys: seq<string>)
    requires s.Sound()
  {
    && (forall k :: k in keys <==> k in s.store)
    && (forall i, j :: 0 <= i < j < |keys| ==> s.order[keys[i]] < s.order[keys[j]])
  }

  lemma {:induction false} WithoutOneMore<V(!new)>(s: CacheState<V>, keys: seq<string>, n: nat)
    requires s.Sound() && Sorted(s, keys) && n < |keys|
    ensures keys[n] in s.Without(keys[..n]).store
    ensures s.Without(keys[..n]).Drop(keys[n]) == s.Without(keys[..n + 1])
  {
    assert keys[n] in keys;
    assert keys[n] !in keys[..n];
    assert keys[..n + 1] == keys[..n] + [keys[n]];
    WithoutSnoc(s, keys[..n], keys[n]);
  }

  lemma WithoutSnoc<V>(s: CacheState<V>, keys: seq<string>, k: string)
    ensures s.Without(keys).Drop(k) == s.Without(keys + [k])
  {
    assert s.Without(keys).Drop(k).store == s.Without(keys + [k]).store;
    assert s.Without(keys).Drop(k).order == s.Without(keys + [k]).order;
  }

  lemma {:induction false} SizeWithout<V(!new)>(s: CacheState<V>, keys: seq<string>, n: nat)
    requires s.Sound() && Sorted(s, keys) && n <= |keys|
    ensures |s.Without(keys[..n]).store| == |s.store| - n
  {
    if n == 0 {
      assert s.Without(keys[..0]).store == s.store;
    } else {
      SizeWithout(s, keys, n - 1);
      WithoutOneMore(s, keys, n - 1);
      KeysWithout(s.Without(keys[..n - 1]).store, keys[n - 1]);
    }
  }

  lemma PutIsSound<V>(s: CacheState<V>, key: string, e: Entry<V>)
    requires s.Sound()
    ensures s.Put(key, e).Sound()
    ensures |s.Put(key, e).store| <= |s.store| + 1
  {
  }

  lemma DropExpiredIsSound<V>(s: CacheState<V>, now: int)
    requires s.Sound()
    ensures s.DropExpired(now).Sound()
    ensures |s.DropExpired(now).store| <= |s.store|
  {
    SubsetSize(s.DropExpired(now).store.Keys, s.store.Keys);
  }

  lemma {:induction false} FirstOnesGone<V(!new)>(s: CacheState<V>, keys: seq<string>, n: nat)
    requires s.Sound() && Sorted(s, keys) && n <= |keys|
    ensures n <= |s.store| && s.Without(keys[..n]).Sound()
    ensures OldestGone(s, s.Without(keys[..n]), |s.store| - n)
  {
    var t := s.Without(keys[..n]);
    SizeWithout(s, keys, n);
    forall j, k | j in s.store && j !in t.store && k in t.store
      ensures s.order[j] < s.order[k]
    {
      var a :| 0 <= a < n && keys[a] == j;
      assert k in keys;
      var b :| 0 <= b < |keys| && keys[b] == k;
      assert n <= b;
    }
  }

  // The keys of the store in the order of their insertion numbers.
  method SortedKeys<V>(store: map<string, Entry<V>>, order: map<string, nat>) returns (sorted: seq<string>)
    requires forall k :: k in store ==> k in order
    requires forall j, k :: j in order && k in order && j != k ==> order[j] != order[k]
    ensures |sorted| == |store|
    ensures forall k :: k in sorted <==> k in store
    ensures forall i, j :: 0 <= i < j < |sorted| ==> order[sorted[i]] < order[sorted[j]]
  {
    sorted := [];
    var rest := store.Keys;
    while rest != {}
      invariant rest <= store.Keys && |sorted| + |rest| == |store.Keys|
      invariant forall k :: k in sorted <==> k in store && k !in rest
      invariant forall i, j :: 0 <= i < j < |sorted| ==> order[sorted[i]] < order[sorted[j]]
      invariant forall j, k :: j in sorted && k in rest ==> order[j] < order[k]
      decreases |rest|
    {
      var k := LeastNumber(rest, order);
      sorted := sorted + [k];
      rest := rest - {k};
    }
    assert |store| == |store.Keys|;
  }

  method LeastNumber(keys: set<string>, order: map<string, nat>) returns (least: string)
    requires keys != {} && forall k :: k in keys ==> k in order
    ensures least in keys && forall k :: k in keys ==> order[least] <= order[k]
  {
    least :| least in keys;
    var rest := keys - {least};
    while rest != {}
      invariant rest <= keys && least in keys
      invariant forall k :: k in keys && k !in rest ==> order[least] <= order[k]
      decreases |rest|
    {
      var k :| k in rest;
      rest := rest - {k};
      if order[k] < order[least] {
        least := k;
      }
    }
  }

  // ---- Whole runs, against the history of operations --------------------------------------

  datatype Op<+V> =
    | SetOp(key: string, setting: Setting<V>, evictionTime: int)
    | GetOp(key: string, now: int)
    | DeleteOp(key: string)
    | ClearOp

  ghost predicate Step<V(!new)>(s: CacheState<V>, op: Op<V>, maxsize: int, t: CacheState<V>)
    requires s.Sound()
  {
    match op
    case SetOp(key, setting, time) => AfterSet(s, key, setting.NewEntry(), maxsize, time, t)
    case GetOp(key, now) => t == s.Get(key, now).1
    case DeleteOp(key) => t == s.Drop(key)
    case ClearOp => t == CacheState(map[], map[], s.counter)
  }

  // The latest clock reading, and whether the readings never went back.
  function Clock<V>(ops: seq<Op<V>>, start: int): int {
    if ops == [] then start
    else
      var op := ops[|ops| - 1];
      if op.SetOp? then op.evictionTime else if op.GetOp? then op.now else Clock(ops[..|ops| - 1], start)
  }

  predicate ClockAdvances<V>(ops: seq<Op<V>>, start: int) {
    ops != [] ==>
      var front, op := ops[..|ops| - 1], ops[|ops| - 1];
      && ClockAdvances(front, start)
      && (op.SetOp? ==> Clock(front, start) <= op.setting.at <= op.evictionTime)
      && (op.GetOp? ==> Clock(front, start) <= op.now)
  }

  // The latest set of a key, unless it was deleted or cleared since.
  function Current<V>(ops: seq<Op<V>>, key: string): Option<Setting<V>> {
    if ops == [] then None
    else
      match ops[|ops| - 1]
      case SetOp(k, setting, _) => if k == key then Some(setting) else Current(ops[..|ops| - 1], key)
      case GetOp(_, _) => Current(ops[..|ops| - 1], key)
      case DeleteOp(k) => if k == key then None else Current(ops[..|ops| - 1], key)
      case ClearOp => None
  }

  // The other keys set since the latest set of a key.
  function SetSince<V>(ops: seq<Op<V>>, key: string): set<string> {
    if ops == [] then {}
    else
      var op := ops[|ops| - 1];
      if !op.SetOp? then SetSince(ops[..|ops| - 1], key)
      else if op.key == key then {}
      else SetSince(ops[..|ops| - 1], key) + {op.key}
  }

  // What a state owes to its history. Only an unexpired entry counts as lost.
  ghost predicate Holds<V(!new)>(ops: seq<Op<V>>, s: CacheState<V>) {
    && s.Sound()
    && (forall k :: k in s.store ==> Current(ops, k).Some? && s.store[k] == Current(ops, k).value.NewEntry())
    && (forall j, k :: j in s.store && k in s.store && s.order[k] < s.order[j] ==> j in SetSince(ops, k))
  }

  ghost predicate LostOnlyToOthers<V(!new)>(ops: seq<Op<V>>, s: CacheState<V>, limit: nat, clock: int) {
    forall k :: k !in s.store && Current(ops, k).Some? && Current(ops, k).value.Lives(clock) ==>
      |SetSince(ops, k)| >= limit
  }

  ghost predicate Faithful<V(!new)>(ops: seq<Op<V>>, s: CacheState<V>, maxsize: int, clock: int) {
    && Holds(ops, s) && |s.store| <= Limit(maxsize)
    && LostOnlyToOthers(ops, s, Limit(maxsize), clock)
  }

  lemma PutHolds<V(!new)>(ops: seq<Op<V>>, s: CacheState<V>, op: Op<V>, limit: nat, clock: int)
    requires op.SetOp? && Holds(ops, s) && LostOnlyToOthers(ops, s, limit, clock)
    ensures Holds(ops + [op], s.Put(op.key, op.setting.NewEntry()))
    ensures LostOnlyToOthers(ops + [op], s.Put(op.key, op.setting.NewEntry()), limit, clock)
  {
    forall k
      ensures Current(ops + [op], k) == if k == op.key then Some(op.setting) else Current(ops, k)
      ensures SetSince(ops + [op], k) == if k == op.key then {} else SetSince(ops, k) + {op.key}
      ensures k != op.key ==> |SetSince(ops, k)| <= |SetSince(ops + [op], k)|
    {
      KeySet(ops, op, k);
    }
  }

  lemma KeySet<V(!new)>(ops: seq<Op<V>>, op: Op<V>, k: string)
    requires op.SetOp?
    ensures Current(ops + [op], k) == if k == op.key then Some(op.setting) else Current(ops, k)
    ensures SetSince(ops + [op], k) == if k == op.key then {} else SetSince(ops, k) + {op.key}
    ensures k != op.key ==> |SetSince(ops, k)| <= |SetSince(ops + [op], k)|
  {
    assert (ops + [op])[..|ops|] == ops;
    if k != op.key {
      SubsetSize(SetSince(ops, k), SetSince(ops + [op], k));
    }
  }

  lemma DropExpiredHolds<V(!new)>(ops: seq<Op<V>>, s: CacheState<V>, limit: nat, clock: int, now: int)
    requires Holds(ops, s) && LostOnlyToOthers(ops, s, limit, clock) && clock <= now
    ensures Holds(ops, s.DropExpired(now)) && LostOnlyToOthers(ops, s.DropExpired(now), limit, now)
  {
  }

  lemma {:induction false} OldestGoneHolds<V(!new)>(ops: seq<Op<V>>, s: CacheState<V>, t: CacheState<V>, limit: nat,
                                                  clock: int)
    requires Holds(ops, s) && LostOnlyToOthers(ops, s, limit, clock) && OldestGone(s, t, limit)
    ensures Holds(ops, t) && LostOnlyToOthers(ops, t, limit, clock)
  {
    forall k | k in s.store && k !in t.store
      ensures |SetSince(ops, k)| >= limit
    {
      forall j | j in t.store
        ensures j in SetSince(ops, k)
      {
        assert s.order[k] < s.order[j];
      }
      SubsetSize(t.store.Keys, SetSince(ops, k));
      assert |t.store| == |t.store.Keys|;
    }
  }

  lemma LaterClock<V(!new)>(ops: seq<Op<V>>, s: CacheState<V>, limit: nat, clock: int, now: int)
    requires LostOnlyToOthers(ops, s, limit, clock) && clock <= now
    ensures LostOnlyToOthers(ops, s, limit, now)
  {
  }

  lemma {:induction false} SetIsFaithful<V(!new)>(ops: seq<Op<V>>, s: CacheState<V>, op: Op<V>, maxsize: int,
                                                  clock: int, t: CacheState<V>)
    requires Faithful(ops, s, maxsize, clock) && op.SetOp? && clock <= op.evictionTime
    requires AfterSet(s, op.key, op.setting.NewEntry(), maxsize, op.evictionTime, t)
    ensures Faithful(ops + [op], t, maxsize, op.evictionTime)
  {
    var limit := Limit(maxsize);
    var put := s.Put(op.key, op.setting.NewEntry());
    PutIsSound(s, op.key, op.setting.NewEntry());
    PutHolds(ops, s, op, limit, clock);
    LaterClock(ops + [op], put, limit, clock, op.evictionTime);
    DropExpiredHolds(ops + [op], put, limit, clock, op.evictionTime);
    var live := if |put.store| > maxsize then put.DropExpired(op.evictionTime) else put;
    if |live.store| > limit {
      OldestGoneHolds(ops + [op], live, t, limit, op.evictionTime);
    }
  }

  // Operations that set nothing leave the sets since untouched.
  lemma NothingSet<V(!new)>(ops: seq<Op<V>>, op: Op<V>, k: string)
    requires !op.SetOp?
    ensures SetSince(ops + [op], k) == SetSince(ops, k)
    ensures Current(ops + [op], k) == (if op.ClearOp? || (op.DeleteOp? && op.key == k) then None else Current(ops, k))
  {
    assert (ops + [op])[..|ops|] == ops;
  }

  lemma {:induction false} GetIsFaithful<V(!new)>(ops: seq<Op<V>>, s: CacheState<V>, op: Op<V>, maxsize: int,
                                                  clock: int)
    requires Faithful(ops, s, maxsize, clock) && op.GetOp? && clock <= op.now
    ensures Faithful(ops + [op], s.Get(op.key, op.now).1, maxsize, op.now)
  {
    LaterClock(ops, s, Limit(maxsize), clock, op.now);
    var t := s.Get(op.key, op.now).1;
    if t != s {
      ForgettingExpired(ops, s, maxsize, op.now, op.key);
    }
    AfterGet(ops, t, op, maxsize, op.now);
  }

  lemma ForgettingExpired<V(!new)>(ops: seq<Op<V>>, s: CacheState<V>, maxsize: int, now: int, key: string)
    requires Faithful(ops, s, maxsize, now) && key in s.store && s.store[key].Expired(now)
    ensures Faithful(ops, s.(store := s.store - {key}), maxsize, now)
  {
    KeysWithout(s.store, key);
  }

  lemma AfterGet<V(!new)>(ops: seq<Op<V>>, s: CacheState<V>, op: Op<V>, maxsize: int, clock: int)
    requires Faithful(ops, s, maxsize, clock) && op.GetOp?
    ensures Faithful(ops + [op], s, maxsize, clock)
  {
    forall k
      ensures SetSince(ops + [op], k) == SetSince(ops, k) && Current(ops + [op], k) == Current(ops, k)
    {
      NothingSet(ops, op, k);
    }
  }

  lemma {:induction false} DeleteHolds<V(!new)>(ops: seq<Op<V>>, s: CacheState<V>, op: Op<V>)
    requires Holds(ops, s) && op.DeleteOp?
    ensures Holds(ops + [op], s.Drop(op.key))
  {
    var t := s.Drop(op.key);
    forall k | k in t.store
      ensures Current(ops + [op], k).Some? && t.store[k] == Current(ops + [op], k).value.NewEntry()
    {
      NothingSet(ops, op, k);
    }
    forall j, k | j in t.store && k in t.store && t.order[k] < t.order[j]
      ensures j in SetSince(ops + [op], k)
    {
      NothingSet(ops, op, k);
    }
  }

  lemma {:induction false} DeleteLoses<V(!new)>(ops: seq<Op<V>>, s: CacheState<V>, op: Op<V>, limit: nat, clock: int)
    requires LostOnlyToOthers(ops, s, limit, clock) && op.DeleteOp?
    ensures LostOnlyToOthers(ops + [op], s.Drop(op.key), limit, clock)
  {
    forall k | Current(ops + [op], k).Some?
      ensures k != op.key && Current(ops + [op], k) == Current(ops, k) && SetSince(ops + [op], k) == SetSince(ops, k)
    {
      NothingSet(ops, op, k);
    }
  }

  lemma {:induction false} DeleteIsFaithful<V(!new)>(ops: seq<Op<V>>, s: CacheState<V>, op: Op<V>, maxsize: int,
                                                     clock: int)
    requires Faithful(ops, s, maxsize, clock) && op.DeleteOp?
    ensures Faithful(ops + [op], s.Drop(op.key), maxsize, clock)
  {
    KeysWithout(s.store, op.key);
    DeleteHolds(ops, s, op);
    DeleteLoses(ops, s, op, Limit(maxsize), clock);
  }

  lemma ClearIsFaithful<V(!new)>(ops: seq<Op<V>>, s: CacheState<V>, op: Op<V>, maxsize: int, clock: int)
    requires op.ClearOp?
    ensures Faithful(ops + [op], CacheState(map[], map[], s.counter), maxsize, clock)
  {
    forall k
      ensures Current(ops + [op], k) == None
    {
      NothingSet(ops, op, k);
    }
  }

  lemma {:induction false} StepIsFaithful<V(!new)>(ops: seq<Op<V>>, s: CacheState<V>, op: Op<V>, maxsize: int,
                                                  start: int, t: CacheState<V>)
    requires Faithful(ops, s, maxsize, Clock(ops, start)) && Step(s, op, maxsize, t)
    requires ClockAdvances(ops + [op], start)
    ensures Faithful(ops + [op], t, maxsize, Clock(ops + [op], start))
  {
    assert (ops + [op])[..|ops|] == ops;
    match op
    case SetOp(_, _, _) => SetIsFaithful(ops, s, op, maxsize, Clock(ops, start), t);
    case GetOp(_, _) => GetIsFaithful(ops, s, op, maxsize, Clock(ops, start));
    case DeleteOp(_) => DeleteIsFaithful(ops, s, op, maxsize, Clock(ops, start));
    case ClearOp => ClearIsFaithful(ops, s, op, maxsize, Clock(ops, start));
  }

  // The states that a sequence of operations can lead to, from an empty cache.
  ghost predicate Reaches<V(!new)>(ops: seq<Op<V>>, maxsize: int, t: CacheState<V>) {
    if ops == [] then t == CacheState(map[], map[], 0)
    else
      var front, op := ops[..|ops| - 1], ops[|ops| - 1];
      exists s: CacheState<V> :: Reaches(front, maxsize, s) && s.Sound() && Step(s, op, maxsize, t)
  }

  lemma {:induction false} RunIsFaithful<V(!new)>(ops: seq<Op<V>>, maxsize: int, start: int, t: CacheState<V>)
    requires Reaches(ops, maxsize, t) && ClockAdvances(ops, start)
    ensures Faithful(ops, t, maxsize, Clock(ops, start))
  {
    if ops != [] {
      var front, op := ops[..|ops| - 1], ops[|ops| - 1];
      assert ops == front + [op];
      var s: CacheState<V> :| Reaches(front, maxsize, s) && s.Sound() && Step(s, op, maxsize, t);
      RunIsFaithful(front, maxsize, start, s);
      assert ClockAdvances(front + [op], start);
      StepIsFaithful(front, s, op, maxsize, start, t);
    }
  }

  // After any run, a hit returns the value of the latest set, which was not deleted,
  // cleared or expired; and a miss on such an entry means that at least as many other
  // keys as the cache may hold were set after it.
  lemma {:induction false} GetAnswersFromLatestSet<V(!new)>(ops: seq<Op<V>>, maxsize: int, start: int, s: CacheState<V>,
                                                            key: string, now: int)
    requires Reaches(ops, maxsize, s) && ClockAdvances(ops, start) && Clock(ops, start) <= now
    ensures |s.store| <= if maxsize < 0 then 0 else maxsize
    ensures
      var answer, latest := s.Get(key, now).0, Current(ops, key);
      && (answer.Some? ==> latest.Some? && latest.value.Lives(now) && answer.value == latest.value.value)
      && (answer.None? && latest.Some? && latest.value.Lives(now) ==> |SetSince(ops, key)| >= maxsize)
  {
    RunIsFaithful(ops, maxsize, start, s);
    LaterClock(ops, s, Limit(maxsize), Clock(ops, start), now);
  }
}
