// Any interleaving of registrations, unregistrations and any number of overlapping
// shutdowns of one resource manager (src/infrastructure/resource_manager.py). A step is
// what a caller does without being interrupted: the flag test, which is outside the lock,
// each locked section, and the start and end of one cleanup.
module ShutdownRaces {
  import opened Common
  import opened ResourceManager

  // Where a shutdown call stands.
  datatype Progress =
    | NotCalled
    | PastTest
    | Popping(names: seq<string>)
    | Popped(entry: Entry, names: seq<string>)
    | Cleaning(entry: Entry, names: seq<string>)
    | Finished

  // What has become of a registration.
  datatype Fate = Registered | TakenBy(call: nat) | CleanupStarted | Unregistered

  datatype World = World(
    resources: Resources,
    nextId: nat,
    shutdownCalled: bool,
    calls: map<nat, Progress>,
    started: seq<nat>,
    fate: map<nat, Fate>
  ) {
    function At(c: nat): Progress {
      if c in calls then calls[c] else NotCalled
    }
  }

  datatype Action =
    | RegisterNew(name: string)
    | Unregister(name: string)
    | TestFlag(call: nat)
    | TakeNames(call: nat)
    | PopNext(call: nat)
    | StartCleanup(call: nat)
    | EndCleanup(call: nat)

  const INITIAL := World([], 0, false, map[], [], map[])

  // The world after an action; an action that is not possible changes nothing.
  function Next(w: World, a: Action): World {
    match a
    case RegisterNew(name) =>
      if Has(w.resources, name) then w
      else w.(resources := w.resources + [Entry(w.nextId, name)],
              nextId := w.nextId + 1, fate := w.fate[w.nextId := Registered])
    case Unregister(name) =>
      if !Has(w.resources, name) then w
      else w.(resources := Remove(w.resources, name),
              fate := w.fate[EntryNamed(w.resources, name).id := Unregistered])
    case TestFlag(c) =>
      if w.At(c) != NotCalled then w
      else w.(calls := w.calls[c := if w.shutdownCalled then Finished else PastTest])
    case TakeNames(c) =>
      if w.At(c) != PastTest then w
      else w.(shutdownCalled := true, calls := w.calls[c := Popping(NamesReversed(w.resources))])
    case PopNext(c) =>
      if !w.At(c).Popping? then w
      else
        var names := w.At(c).names;
        if names == [] then w.(calls := w.calls[c := Finished])
        else if !Has(w.resources, names[0]) then w.(calls := w.calls[c := Popping(names[1..])])
        else
          var e := EntryNamed(w.resources, names[0]);
          w.(resources := Remove(w.resources, names[0]), fate := w.fate[e.id := TakenBy(c)],
             calls := w.calls[c := Popped(e, names[1..])])
    case StartCleanup(c) =>
      if !w.At(c).Popped? then w
      else
        var e := w.At(c).entry;
        w.(started := w.started + [e.id], fate := w.fate[e.id := CleanupStarted],
           calls := w.calls[c := Cleaning(e, w.At(c).names)])
    case EndCleanup(c) =>
      if !w.At(c).Cleaning? then w else w.(calls := w.calls[c := Popping(w.At(c).names)])
  }

  function Run(actions: seq<Action>): World {
    if actions == [] then INITIAL else Next(Run(actions[..|actions| - 1]), actions[|actions| - 1])
  }

  // Every registration is in one place only, and its fate says which.
  ghost predicate Consistent(w: World) {
    && (forall id: nat :: id in w.fate <==> id < w.nextId)
    && InPlace(w.resources, w.fate)
    && Owned(w.calls, w.fate)
    && Started(w.started, w.fate)
  }

  ghost predicate InPlace(rs: Resources, fate: map<nat, Fate>) {
    && UniqueNames(rs)
    && (forall e :: e in rs ==> e.id in fate && fate[e.id] == Registered)
    && (forall d, e :: d in rs && e in rs && d.id == e.id ==> d == e)
    && (forall id :: id in fate && fate[id] == Registered ==> Holds(rs, id))
  }

  ghost predicate Holds(rs: Resources, id: nat) {
    exists e :: e in rs && e.id == id
  }

  ghost predicate Owned(calls: map<nat, Progress>, fate: map<nat, Fate>) {
    && (forall c :: c in calls && calls[c].Popped? ==>
          calls[c].entry.id in fate && fate[calls[c].entry.id] == TakenBy(c))
    && (forall id :: id in fate && fate[id].TakenBy? ==>
          fate[id].call in calls && calls[fate[id].call].Popped? && calls[fate[id].call].entry.id == id)
  }

  ghost predicate Started(started: seq<nat>, fate: map<nat, Fate>) {
    && Distinct(started)
    && (forall id :: id in started <==> id in fate && fate[id] == CleanupStarted)
  }

  lemma {:induction false} NameIsUnique(rs: Resources, name: string)
    requires UniqueNames(rs) && Has(rs, name)
    ensures forall e :: e in rs && e.name == name ==> e == EntryNamed(rs, name)
  {
    var chosen := EntryNamed(rs, name);
    assert chosen in rs;
  }

  lemma Arrives(rs: Resources, e: Entry, fate: map<nat, Fate>)
    requires InPlace(rs, fate) && !Has(rs, e.name) && e.id !in fate
    ensures InPlace(rs + [e], fate[e.id := Registered])
  {
    forall id | id in fate && fate[id] == Registered
      ensures Holds(rs + [e], id)
    {
      var d :| d in rs && d.id == id;
      assert d in rs + [e];
    }
    assert e in rs + [e];
  }

  // The entry of a name leaves, for whatever new fate.
  lemma Leaves(rs: Resources, name: string, fate: map<nat, Fate>, f: Fate)
    requires InPlace(rs, fate) && Has(rs, name) && f != Registered
    ensures InPlace(Remove(rs, name), fate[EntryNamed(rs, name).id := f])
  {
    var gone := EntryNamed(rs, name);
    RemoveSpec(rs, name);
    NameIsUnique(rs, name);
    forall id | id in fate && fate[id] == Registered && id != gone.id
      ensures Holds(Remove(rs, name), id)
    {
      var e :| e in rs && e.id == id;
      assert e in Remove(rs, name);
    }
  }

  lemma RegisterKeepsConsistent(w: World, name: string)
    requires Consistent(w)
    ensures Consistent(Next(w, RegisterNew(name)))
  {
    if !Has(w.resources, name) {
      Arrives(w.resources, Entry(w.nextId, name), w.fate);
    }
  }

  lemma {:induction false} UnregisterKeepsConsistent(w: World, name: string)
    requires Consistent(w)
    ensures Consistent(Next(w, Action.Unregister(name)))
  {
    if Has(w.resources, name) {
      Leaves(w.resources, name, w.fate, Fate.Unregistered);
    }
  }

  lemma {:induction false} PopKeepsConsistent(w: World, c: nat)
    requires Consistent(w)
    ensures Consistent(Next(w, PopNext(c)))
  {
    if w.At(c).Popping? && w.At(c).names != [] && Has(w.resources, w.At(c).names[0]) {
      Leaves(w.resources, w.At(c).names[0], w.fate, TakenBy(c));
    }
  }

  lemma StartKeepsConsistent(w: World, c: nat)
    requires Consistent(w)
    ensures Consistent(Next(w, StartCleanup(c)))
  {
  }

  lemma {:induction false} NextKeepsConsistent(w: World, a: Action)
    requires Consistent(w)
    ensures Consistent(Next(w, a))
  {
    match a
    case RegisterNew(name) => RegisterKeepsConsistent(w, name);
    case Unregister(name) => UnregisterKeepsConsistent(w, name);
    case TestFlag(c) =>
    case TakeNames(c) =>
    case PopNext(c) => PopKeepsConsistent(w, c);
    case StartCleanup(c) => StartKeepsConsistent(w, c);
    case EndCleanup(c) =>
  }

  lemma {:induction false} RunIsConsistent(actions: seq<Action>)
    ensures Consistent(Run(actions))
  {
    if actions != [] {
      RunIsConsistent(actions[..|actions| - 1]);
      NextKeepsConsistent(Run(actions[..|actions| - 1]), actions[|actions| - 1]);
    }
  }

  // No registration's cleanup ever starts twice, however many shutdowns overlap.
  lemma CleanupAtMostOnce(actions: seq<Action>)
    ensures Distinct(Run(actions).started)
    ensures forall id :: id in Run(actions).started ==> !Holds(Run(actions).resources, id)
  {
    RunIsConsistent(actions);
  }

  // The flag is tested outside the lock, so two calls can both go ahead. (Within one event
  // loop a free asyncio lock is taken without giving way, so this needs two event loops in
  // two threads.)
  lemma TwoShutdownsCanBothPass()
    ensures
      var w := Run([TestFlag(0), TestFlag(1), TakeNames(0), TakeNames(1)]);
      w.At(0).Popping? && w.At(1).Popping?
  {
    RunAppend([], TestFlag(0));
    RunAppend([] + [TestFlag(0)], TestFlag(1));
    RunAppend([] + [TestFlag(0)] + [TestFlag(1)], TakeNames(0));
    RunAppend([] + [TestFlag(0)] + [TestFlag(1)] + [TakeNames(0)], TakeNames(1));
    assert [] + [TestFlag(0)] + [TestFlag(1)] + [TakeNames(0)] + [TakeNames(1)]
        == [TestFlag(0), TestFlag(1), TakeNames(0), TakeNames(1)];
  }

  // ---- Which calls do nothing ------------------------------------------------------------

  // Step `k` is a call past its test that takes the names.
  predicate TakesNames(actions: seq<Action>, k: nat) {
    k < |actions| && actions[k].TakeNames? && Run(actions[..k]).At(actions[k].call) == PastTest
  }

  lemma {:induction false} FlagIsSetIff(actions: seq<Action>)
    ensures Run(actions).shutdownCalled <==> exists k: nat :: TakesNames(actions, k)
  {
    if actions != [] {
      var n := |actions| - 1;
      FlagIsSetIff(actions[..n]);
      FlagStep(Run(actions[..n]), actions[n]);
      TakesNamesSnoc(actions);
    }
  }

  lemma TakesNamesSnoc(actions: seq<Action>)
    requires actions != []
    ensures
      var n := |actions| - 1;
      (exists k: nat :: TakesNames(actions, k))
      <==> (exists k: nat :: TakesNames(actions[..n], k)) || TakesNames(actions, n)
  {
    var front := actions[..|actions| - 1];
    forall k: nat | k < |front|
      ensures TakesNames(actions, k) <==> TakesNames(front, k)
    {
      assert front[..k] == actions[..k];
    }
  }

  // The steps of one call.
  predicate IsStepOf(a: Action, c: nat) {
    a in {TestFlag(c), TakeNames(c), PopNext(c), StartCleanup(c), EndCleanup(c)}
  }

  // A call ends at its flag test, with no step of it changing anything from then on, if and
  // only if some call took the names before that test.
  lemma {:induction false} LaterShutdownDoesNothingIff(pre: seq<Action>, c: nat, post: seq<Action>)
    requires Run(pre).At(c) == NotCalled
    ensures Run(pre + [TestFlag(c)]).At(c) == Finished <==> exists k: nat :: TakesNames(pre, k)
    ensures Run(pre + [TestFlag(c)]).At(c) == Finished ==>
              forall a :: IsStepOf(a, c) ==> Next(Run(pre + [TestFlag(c)] + post), a) == Run(pre + [TestFlag(c)] + post)
  {
    FlagIsSetIff(pre);
    RunAppend(pre, TestFlag(c));
    if Run(pre + [TestFlag(c)]).At(c) == Finished {
      FinishedStays(pre + [TestFlag(c)], post, c);
    }
  }

  lemma {:induction false} FinishedStays(pre: seq<Action>, post: seq<Action>, c: nat)
    requires Run(pre).At(c) == Finished
    ensures Run(pre + post).At(c) == Finished
  {
    if post == [] {
      assert pre + post == pre;
    } else {
      var front, a := post[..|post| - 1], post[|post| - 1];
      FinishedStays(pre, front, c);
      RunAppend(pre + front, a);
      FinishedStep(Run(pre + front), a, c);
      assert pre + post == (pre + front) + [a];
    }
  }

  lemma FinishedStep(w: World, a: Action, c: nat)
    requires w.At(c) == Finished
    ensures Next(w, a).At(c) == Finished
  {
  }

  lemma FlagStep(w: World, a: Action)
    ensures Next(w, a).shutdownCalled <==> w.shutdownCalled || (a.TakeNames? && w.At(a.call) == PastTest)
  {
  }

  // ---- A finished shutdown has missed nothing ----------------------------------------------

  predicate Working(p: Progress) {
    p.Popping? || p.Popped? || p.Cleaning?
  }

  // As long as it is registered, the call still has its name to come.
  ghost predicate Awaits(w: World, c: nat, e: Entry) {
    && e.id in w.fate
    && (w.fate[e.id] == Registered ==> e in w.resources && Working(w.At(c)) && e.name in w.At(c).names)
  }

  lemma {:induction false} NamesCoverEntries(rs: Resources, e: Entry)
    requires e in rs
    ensures e.name in NamesReversed(rs)
  {
    if rs[|rs| - 1] != e {
      assert rs == rs[..|rs| - 1] + [rs[|rs| - 1]];
      NamesCoverEntries(rs[..|rs| - 1], e);
    }
  }

  lemma LeavingKeepsOthers(rs: Resources, name: string, fate: map<nat, Fate>, e: Entry)
    requires InPlace(rs, fate) && Has(rs, name) && e in rs
    ensures EntryNamed(rs, name).id == e.id <==> e.name == name
    ensures e.name != name ==> e in Remove(rs, name)
  {
    RemoveSpec(rs, name);
    NameIsUnique(rs, name);
  }

  lemma {:induction false} NextKeepsAwaits(w: World, a: Action, c: nat, e: Entry)
    requires Consistent(w) && Awaits(w, c, e)
    ensures Awaits(Next(w, a), c, e)
  {
    if w.fate[e.id] == Registered {
      match a
      case RegisterNew(name) =>
      case Unregister(name) =>
        if Has(w.resources, name) {
          LeavingKeepsOthers(w.resources, name, w.fate, e);
        }
      case TestFlag(d) =>
      case TakeNames(d) =>
      case PopNext(d) =>
        if w.At(d).Popping? && w.At(d).names != [] && Has(w.resources, w.At(d).names[0]) {
          LeavingKeepsOthers(w.resources, w.At(d).names[0], w.fate, e);
        }
        if Next(w, a).fate[e.id] == Registered {
          PopKeepsName(w, d, c, e);
        }
      case StartCleanup(d) =>
      case EndCleanup(d) =>
    }
  }

  lemma {:induction false} PopKeepsName(w: World, d: nat, c: nat, e: Entry)
    requires Consistent(w) && e in w.resources && Working(w.At(c)) && e.name in w.At(c).names
    requires Next(w, PopNext(d)).fate[e.id] == Registered
    ensures Working(Next(w, PopNext(d)).At(c)) && e.name in Next(w, PopNext(d)).At(c).names
  {
    if d == c && w.At(c).Popping? {
      var names := w.At(c).names;
      assert names == [names[0]] + names[1..];
      if e.name == names[0] {
        NameIsUnique(w.resources, names[0]);
      }
    }
  }

  lemma {:induction false} RunAppend(pre: seq<Action>, a: Action)
    ensures Run(pre + [a]) == Next(Run(pre), a)
  {
    assert (pre + [a])[..|pre|] == pre;
  }

  lemma {:induction false} RunKeepsAwaits(pre: seq<Action>, post: seq<Action>, c: nat, e: Entry)
    requires Awaits(Run(pre), c, e)
    ensures Awaits(Run(pre + post), c, e)
  {
    if post == [] {
      assert pre + post == pre;
    } else {
      var front, a := post[..|post| - 1], post[|post| - 1];
      RunKeepsAwaits(pre, front, c, e);
      assert pre + post == (pre + front) + [a];
      RunAppend(pre + front, a);
      RunIsConsistent(pre + front);
      NextKeepsAwaits(Run(pre + front), a, c, e);
    }
  }

  // When a shutdown call that got past the flag finishes, every entry that was registered
  // when it took the names has had its cleanup started, was unregistered, or is in the
  // hands of another shutdown call.
  lemma FinishedShutdownMissesNothing(pre: seq<Action>, c: nat, post: seq<Action>, e: Entry)
    requires Run(pre).At(c) == PastTest && e in Run(pre).resources
    requires Run(pre + [TakeNames(c)] + post).At(c) == Finished
    ensures
      var end := Run(pre + [TakeNames(c)] + post);
      && e.id in end.fate
      && (end.fate[e.id] == CleanupStarted || end.fate[e.id] == Fate.Unregistered
          || (end.fate[e.id].TakenBy? && end.fate[e.id].call != c))
  {
    RunIsConsistent(pre);
    RunAppend(pre, TakeNames(c));
    NamesCoverEntries(Run(pre).resources, e);
    RunKeepsAwaits(pre + [TakeNames(c)], post, c, e);
    RunIsConsistent(pre + [TakeNames(c)] + post);
  }

  // Once every shutdown call has finished, no registration is ever cleaned up again: what
  // is registered later stays.
  ghost predicate Quiet(w: World) {
    w.shutdownCalled && forall c :: c in w.calls ==> w.calls[c] == Finished
  }

  lemma {:induction false} LateRegistrationsAreNeverCleaned(pre: seq<Action>, post: seq<Action>)
    requires Quiet(Run(pre))
    ensures Quiet(Run(pre + post)) && Run(pre + post).started == Run(pre).started
  {
    if post == [] {
      assert pre + post == pre;
    } else {
      var front, a := post[..|post| - 1], post[|post| - 1];
      LateRegistrationsAreNeverCleaned(pre, front);
      RunAppend(pre + front, a);
      QuietStep(Run(pre + front), a);
      assert pre + post == (pre + front) + [a];
    }
  }

  lemma QuietStep(w: World, a: Action)
    requires Quiet(w)
    ensures Quiet(Next(w, a)) && Next(w, a).started == w.started
  {
  }

  // ---- What each step does when it is possible ------------------------------------------------

  // Registering adds one entry at the end exactly when its name is free; unregistering
  // takes out the entry of that name and no other.
  lemma RegistryStepsSpec(actions: seq<Action>, name: string, k: nat)
    ensures
      var rs, id := Run(actions).resources, Run(actions).nextId;
      Run(actions + [RegisterNew(name)]).resources
      == if exists i :: 0 <= i < |rs| && rs[i].name == name then rs else rs + [Entry(id, name)]
    ensures
      var rs, after := Run(actions).resources, Run(actions + [Action.Unregister(name)]).resources;
      && (k < |rs| && rs[k].name == name ==> after == rs[..k] + rs[k + 1..])
      && (!Has(rs, name) ==> after == rs)
  {
    var rs := Run(actions).resources;
    RunIsConsistent(actions);
    RunAppend(actions, RegisterNew(name));
    RunAppend(actions, Action.Unregister(name));
    if k < |rs| && rs[k].name == name {
      RemoveTakesOne(rs, k);
    }
  }

  // How many steps of its own a call can still take.
  function Left(p: Progress): nat {
    match p
    case Popping(names) => 3 * |names| + 1
    case Cleaning(_, names) => 3 * |names| + 2
    case Popped(_, names) => 3 * |names| + 3
    case _ => 0
  }

  // No call is ever blocked: until it has finished, one of its own steps moves it on.
  lemma NeverBlocked(w: World, c: nat)
    requires w.At(c) != Finished
    ensures exists a :: IsStepOf(a, c) && Next(w, a).At(c) != w.At(c)
  {
    var a := match w.At(c)
      case NotCalled => TestFlag(c)
      case PastTest => TakeNames(c)
      case Popping(_) => PopNext(c)
      case Popped(_, _) => StartCleanup(c)
      case _ => EndCleanup(c);
    assert IsStepOf(a, c);
    if w.At(c).Popping? && w.At(c).names != [] {
      assert |w.At(c).names[1..]| < |w.At(c).names|;
    }
    assert Next(w, a).At(c) != w.At(c);
  }

  predicate MovesOn(w: World, a: Action, c: nat) {
    Next(w, a).At(c) != w.At(c)
  }

  // The steps that move a call on.
  function Moves(pre: seq<Action>, post: seq<Action>, c: nat): nat {
    if post == [] then 0
    else
      var front, a := post[..|post| - 1], post[|post| - 1];
      Moves(pre, front, c) + if MovesOn(Run(pre + front), a, c) then 1 else 0
  }

  predicate Underway(p: Progress) {
    Working(p) || p == Finished
  }

  lemma StepUsesUp(w: World, a: Action, c: nat)
    requires Underway(w.At(c))
    ensures Underway(Next(w, a).At(c))
    ensures Left(Next(w, a).At(c)) + (if MovesOn(w, a, c) then 1 else 0) <= Left(w.At(c))
    ensures MovesOn(w, a, c) ==> IsStepOf(a, c)
  {
  }

  lemma MovesSnoc(pre: seq<Action>, front: seq<Action>, a: Action, c: nat)
    ensures Moves(pre, front + [a], c) == Moves(pre, front, c) + if MovesOn(Run(pre + front), a, c) then 1 else 0
    ensures Run(pre + (front + [a])) == Next(Run(pre + front), a)
  {
    assert (front + [a])[..|front|] == front;
    assert pre + (front + [a]) == (pre + front) + [a];
    RunAppend(pre + front, a);
  }

  // Whatever else happens, a call that has taken n names is moved on only by its own steps,
  // and after at most 3 n + 1 of them it has finished.
  lemma {:induction false} FinishesAfterItsSteps(pre: seq<Action>, post: seq<Action>, c: nat)
    requires Working(Run(pre).At(c))
    ensures Underway(Run(pre + post).At(c))
    ensures Left(Run(pre + post).At(c)) + Moves(pre, post, c) <= Left(Run(pre).At(c))
  {
    if post == [] {
      assert pre + post == pre;
    } else {
      var front, a := post[..|post| - 1], post[|post| - 1];
      assert post == front + [a];
      FinishesAfterItsSteps(pre, front, c);
      MovesSnoc(pre, front, a, c);
      StepUsesUp(Run(pre + front), a, c);
    }
  }

  // ---- A shutdown without interference -----------------------------------------------------------

  function After(w: World, actions: seq<Action>): World
    decreases |actions|
  {
    if actions == [] then w else After(Next(w, actions[0]), actions[1..])
  }

  // Taking, starting and ending the cleanup of so many entries, then finding no more.
  function CleanupSteps(c: nat, n: nat): seq<Action> {
    if n == 0 then [PopNext(c)]
    else [PopNext(c)] + ([StartCleanup(c)] + ([EndCleanup(c)] + CleanupSteps(c, n - 1)))
  }

  lemma AfterOne(w: World, a: Action, rest: seq<Action>)
    ensures After(w, [a] + rest) == After(Next(w, a), rest)
  {
    assert ([a] + rest)[1..] == rest;
  }

  // The three steps that clean up the newest entry.
  lemma CleansNewest(w: World, c: nat)
    requires UniqueNames(w.resources) && w.resources != [] && w.At(c) == Popping(NamesReversed(w.resources))
    ensures
      var front, last := w.resources[..|w.resources| - 1], w.resources[|w.resources| - 1];
      var cleaned := Next(Next(Next(w, PopNext(c)), StartCleanup(c)), EndCleanup(c));
      && cleaned.resources == front && cleaned.At(c) == Popping(NamesReversed(front))
      && cleaned.started == w.started + [last.id] && cleaned.shutdownCalled == w.shutdownCalled
  {
    var rs := w.resources;
    LastHasItsName(rs, |rs|);
    assert rs[..|rs|] == rs;
    assert NamesReversed(rs)[1..] == NamesReversed(rs[..|rs| - 1]);
    assert Next(w, PopNext(c)).At(c) == Popped(rs[|rs| - 1], NamesReversed(rs[..|rs| - 1]));
  }

  lemma AfterThree(w: World, a: Action, x: World, b: Action, y: World, d: Action, z: World, rest: seq<Action>)
    requires x == Next(w, a) && y == Next(x, b) && z == Next(y, d)
    ensures After(w, [a] + ([b] + ([d] + rest))) == After(z, rest)
  {
    AfterOne(w, a, [b] + ([d] + rest));
    AfterOne(x, b, [d] + rest);
    AfterOne(y, d, rest);
  }

  // What cleaning up in order leaves of a world.
  ghost predicate AllCleaned(end: World, w: World, c: nat) {
    && end.resources == [] && end.At(c) == Finished && end.shutdownCalled == w.shutdownCalled
    && end.started == w.started + IdsReversed(w.resources)
  }

  lemma NothingToClean(w: World, c: nat)
    requires w.resources == [] && w.At(c) == Popping([])
    ensures AllCleaned(After(w, CleanupSteps(c, 0)), w, c)
  {
    AfterOne(w, PopNext(c), []);
    assert [PopNext(c)] + [] == CleanupSteps(c, 0);
    assert After(Next(w, PopNext(c)), []) == Next(w, PopNext(c));
  }

  lemma {:induction false} CleansAllEntries(w: World, c: nat)
    requires UniqueNames(w.resources) && w.At(c) == Popping(NamesReversed(w.resources))
    ensures AllCleaned(After(w, CleanupSteps(c, |w.resources|)), w, c)
    decreases |w.resources|
  {
    if w.resources == [] {
      NothingToClean(w, c);
    } else {
      var rest := CleanupSteps(c, |w.resources| - 1);
      var popped := Next(w, PopNext(c));
      var started := Next(popped, StartCleanup(c));
      var cleaned := Next(started, EndCleanup(c));
      CleansNewest(w, c);
      AfterThree(w, PopNext(c), popped, StartCleanup(c), started, EndCleanup(c), cleaned, rest);
      CleansAllEntries(cleaned, c);
      CleanedOneMore(After(cleaned, rest), w, cleaned, c);
    }
  }

  lemma CleanedOneMore(end: World, w: World, cleaned: World, c: nat)
    requires w.resources != [] && AllCleaned(end, cleaned, c)
    requires cleaned.resources == w.resources[..|w.resources| - 1] && cleaned.shutdownCalled == w.shutdownCalled
    requires cleaned.started == w.started + [w.resources[|w.resources| - 1].id]
    ensures AllCleaned(end, w, c)
  {
  }

  // A first shutdown whose steps nothing interrupts does what the whole call does: every
  // entry is cleaned up once, newest first, and none is left.
  lemma LoneShutdownCleansAll(w: World, c: nat)
    requires UniqueNames(w.resources) && w.At(c) == NotCalled && !w.shutdownCalled
    ensures
      var end := After(w, [TestFlag(c)] + ([TakeNames(c)] + CleanupSteps(c, |w.resources|)));
      && end.resources == [] && end.At(c) == Finished && end.shutdownCalled
      && end.started == w.started + IdsReversed(w.resources)
  {
    var steps := CleanupSteps(c, |w.resources|);
    AfterOne(w, TestFlag(c), [TakeNames(c)] + steps);
    AfterOne(Next(w, TestFlag(c)), TakeNames(c), steps);
    CleansAllEntries(Next(Next(w, TestFlag(c)), TakeNames(c)), c);
    assert AllCleaned(After(w, [TestFlag(c)] + ([TakeNames(c)] + steps)), Next(Next(w, TestFlag(c)), TakeNames(c)), c);
  }
}
