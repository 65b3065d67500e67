// Resource lifecycle (src/infrastructure/resource_manager.py): registration, and shutdown
// in reverse order of registration.
module ResourceManager {
  import opened Common

  // One registration; `id` tells apart registrations under the same name.
  datatype Entry = Entry(id: nat, name: string)

  // The dictionary of resources, in the order of registration.
  type Resources = seq<Entry>

  predicate Has(rs: Resources, name: string) {
    exists i :: 0 <= i < |rs| && rs[i].name == name
  }

  function Remove(rs: Resources, name: string): Resources {
    if rs == [] then []
    else Remove(rs[..|rs| - 1], name) + if rs[|rs| - 1].name == name then [] else [rs[|rs| - 1]]
  }

  function EntryNamed(rs: Resources, name: string): (e: Entry)
    requires Has(rs, name)
    ensures e in rs && e.name == name
  {
    if rs[|rs| - 1].name == name then rs[|rs| - 1] else EntryNamed(rs[..|rs| - 1], name)
  }

  function NamesReversed(rs: Resources): seq<string> {
    if rs == [] then [] else [rs[|rs| - 1].name] + NamesReversed(rs[..|rs| - 1])
  }

  ghost predicate UniqueNames(rs: Resources) {
    forall i, j :: 0 <= i < j < |rs| ==> rs[i].name != rs[j].name
  }

  lemma {:induction false} RemoveSpec(rs: Resources, name: string)
    ensures forall e :: e in Remove(rs, name) <==> e in rs && e.name != name
    ensures !Has(rs, name) ==> Remove(rs, name) == rs
    ensures UniqueNames(rs) ==> UniqueNames(Remove(rs, name))
  {
    if rs != [] {
      var front, last := rs[..|rs| - 1], rs[|rs| - 1];
      assert rs == front + [last];
      RemoveSpec(front, name);
      if UniqueNames(rs) && last.name != name {
        var r := Remove(front, name);
        forall i | 0 <= i < |r|
          ensures r[i].name != last.name
        {
          assert r[i] in front;
        }
      }
    }
  }

  // Removing takes out the entry of that name and leaves the others in their order.
  lemma {:induction false} RemoveTakesOne(rs: Resources, k: nat)
    requires UniqueNames(rs) && k < |rs|
    ensures Remove(rs, rs[k].name) == rs[..k] + rs[k + 1..]
  {
    var front, last := rs[..|rs| - 1], rs[|rs| - 1];
    if k == |front| {
      RemoveSpec(front, last.name);
      assert !Has(front, last.name);
      assert rs[..k] + rs[k + 1..] == front;
    } else {
      RemoveTakesOne(front, k);
      assert rs[..k] == front[..k];
      assert rs[k + 1..] == front[k + 1..] + [last];
    }
  }

  // ---- One thread: the class ------------------------------------------------------------

  function IdsReversed(rs: Resources): seq<nat> {
    if rs == [] then [] else [rs[|rs| - 1].id] + IdsReversed(rs[..|rs| - 1])
  }

  function Failing(ids: seq<nat>, fails: nat -> bool): seq<nat> {
    if ids == [] then []
    else Failing(ids[..|ids| - 1], fails) + if fails(ids[|ids| - 1]) then [ids[|ids| - 1]] else []
  }

  // The failing ones, in order, and no others.
  lemma {:induction false} FailingSpec(before: seq<nat>, id: nat, after: seq<nat>, fails: nat -> bool)
    ensures Failing(before + [id] + after, fails)
         == Failing(before, fails) + (if fails(id) then [id] else []) + Failing(after, fails)
    ensures id in Failing(before, fails) <==> id in before && fails(id)
  {
    if after != [] {
      var front, last := after[..|after| - 1], after[|after| - 1];
      FailingSpec(before, id, front, fails);
      assert (before + [id] + after)[..|before| + |after|] == before + [id] + front;
    } else {
      assert before + [id] + after == before + [id];
      assert (before + [id])[..|before|] == before;
      if before != [] {
        FailingSpec(before[..|before| - 1], id, [], fails);
        assert before == before[..|before| - 1] + [before[|before| - 1]];
      }
    }
  }

  class ResourceManager {
    var resources: Resources
    var shutdownCalled: bool
    var nextId: nat
    var cleaned: seq<nat>

    ghost predicate Valid()
      reads this
    {
      UniqueNames(resources)
    }

    constructor ()
      ensures Valid() && resources == [] && !shutdownCalled && nextId == 0 && cleaned == []
    {
      resources := [];
      shutdownCalled := false;
      nextId := 0;
      cleaned := [];
    }

    // Fails when the name is taken.
    method Register(name: string) returns (ok: bool)
      requires Valid()
      modifies this`resources, this`nextId
      ensures Valid()
      ensures ok <==> !Has(old(resources), name)
      ensures resources == if ok then old(resources) + [Entry(old(nextId), name)] else old(resources)
      ensures nextId == if ok then old(nextId) + 1 else old(nextId)
    {
      if Has(resources, name) {
        return false;
      }
      resources := resources + [Entry(nextId, name)];
      nextId := nextId + 1;
      return true;
    }

    method Unregister(name: string)
      requires Valid()
      modifies this`resources
      ensures Valid() && resources == Remove(old(resources), name)
    {
      RemoveSpec(resources, name);
      resources := Remove(resources, name);
    }

    // A lone shutdown cleans every entry once, newest first, and goes on past failures; a
    // second one does nothing.
    method ShutdownAll(fails: nat -> bool) returns (errors: seq<nat>)
      requires Valid()
      modifies this
      ensures Valid() && shutdownCalled && nextId == old(nextId)
      ensures old(shutdownCalled) ==> resources == old(resources) && cleaned == old(cleaned) && errors == []
      ensures !old(shutdownCalled) ==>
                && resources == []
                && cleaned == old(cleaned) + IdsReversed(old(resources))
                && errors == Failing(IdsReversed(old(resources)), fails)
    {
      errors := [];
      if shutdownCalled {
        return;
      }
      shutdownCalled := true;
      var names := NamesReversed(resources);
      ghost var before, ids := resources, IdsReversed(resources);
      NewestFirst(before, 0);
      for n := 0 to |names|
        invariant shutdownCalled && nextId == old(nextId)
        invariant |names| == |ids| == |before|
        invariant resources == before[..|before| - n]
        invariant cleaned == old(cleaned) + ids[..n]
        invariant errors == Failing(ids[..n], fails)
      {
        NewestFirst(before, n);
        LastHasItsName(before, |before| - n);
        var e := EntryNamed(resources, names[n]);
        resources := Remove(resources, names[n]);
        cleaned := cleaned + [e.id];
        assert ids[..n + 1][..n] == ids[..n];
        if fails(e.id) {
          errors := errors + [e.id];
        }
      }
      assert ids[..|ids|] == ids;
    }
  }

  lemma {:induction false} NewestFirst(rs: Resources, n: nat)
    ensures |NamesReversed(rs)| == |IdsReversed(rs)| == |rs|
    ensures n < |rs| ==> NamesReversed(rs)[n] == rs[|rs| - 1 - n].name
    ensures n < |rs| ==> IdsReversed(rs)[n] == rs[|rs| - 1 - n].id
  {
    if rs != [] {
      var front, last := rs[..|rs| - 1], rs[|rs| - 1];
      NewestFirst(front, if n > 0 then n - 1 else 0);
      assert NamesReversed(rs) == [last.name] + NamesReversed(front);
      assert IdsReversed(rs) == [last.id] + IdsReversed(front);
      if 0 < n < |rs| {
        assert front[|front| - 1 - (n - 1)] == rs[|rs| - 1 - n];
      }
    }
  }

  lemma LastHasItsName(rs: Resources, n: nat)
    requires UniqueNames(rs) && 0 < n <= |rs|
    ensures Has(rs[..n], rs[n - 1].name)
    ensures EntryNamed(rs[..n], rs[n - 1].name) == rs[n - 1]
    ensures Remove(rs[..n], rs[n - 1].name) == rs[..n - 1]
  {
    assert rs[..n][n - 1] == rs[n - 1];
    assert rs[..n][..n - 1] == rs[..n - 1];
    RemoveSpec(rs[..n - 1], rs[n - 1].name);
    assert !Has(rs[..n - 1], rs[n - 1].name);
  }
}
