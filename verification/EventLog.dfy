// The append-only event log with its bounded duplicate guard and daily rotation
// (class EventLog of src/infrastructure/event_log.py), used by one thread.
module EventLog {
  import opened Common
  import opened LogFiles

  const MAX_SEEN_IDS: nat := 200_000

  // `day` is the date of the event's time stamp; `content` is the rest of the record.
  datatype DomainEvent = DomainEvent(eventId: string, day: int, content: string)

  // What the file system does during one append.
  datatype Weather = Weather(openFails: bool, oldFileStaysOpen: bool, writeFails: bool)

  datatype Handle = NoHandle | OnFile(day: int, usable: bool)

  datatype Outcome = Written | Skipped | OpenError | WriteError

  // ---- The duplicate guard -------------------------------------------------------------

  // The ids, oldest first, without one of them.
  function Without(ids: seq<string>, id: string): seq<string> {
    if ids == [] then []
    else Without(ids[..|ids| - 1], id) + if ids[|ids| - 1] == id then [] else [ids[|ids| - 1]]
  }

  function Youngest(ids: seq<string>, cap: nat): seq<string> {
    if |ids| <= cap then ids else ids[|ids| - cap..]
  }

  function Touch(seen: seq<string>, id: string, cap: nat): seq<string> {
    if id in seen then Without(seen, id) + [id] else Youngest(seen + [id], cap)
  }

  // The guard after a history of touched ids.
  function Guard(history: seq<string>, cap: nat): seq<string> {
    if history == [] then [] else Touch(Guard(history[..|history| - 1], cap), history[|history| - 1], cap)
  }

  // ---- One append ------------------------------------------------------------------------

  // The handle after asking for the file of `day`. When the new file cannot be opened
  // the old handle stays in place, normally closed.
  function Rotate(h: Handle, day: int, w: Weather): Handle {
    if h.OnFile? && h.day == day then h
    else if !w.openFails then OnFile(day, true)
    else if h.OnFile? then OnFile(h.day, h.usable && w.oldFileStaysOpen)
    else NoHandle
  }

  datatype LogState = LogState(seen: seq<string>, handle: Handle, files: seq<Filed<DomainEvent>>, errors: nat) {

    function Decide(e: DomainEvent, w: Weather): Outcome {
      var h := Rotate(handle, e.day, w);
      if e.eventId != "" && e.eventId in seen then Skipped
      else if !(h.OnFile? && h.day == e.day) then OpenError
      else if w.writeFails || !h.usable then WriteError
      else Written
    }

    function Next(e: DomainEvent, w: Weather, cap: nat): LogState {
      var outcome := Decide(e, w);
      LogState(
        if e.eventId == "" then seen else Touch(seen, e.eventId, cap),
        if outcome == Skipped then handle else Rotate(handle, e.day, w),
        if outcome == Written then files + [Filed(e.day, e)] else files,
        if outcome == WriteError then errors + 1 else errors)
    }
  }

  class EventLog {
    var seenIds: seq<string>
    var current: Handle
    var files: seq<Filed<DomainEvent>>
    var appendErrors: nat

    function State(): LogState
      reads this
    {
      LogState(seenIds, current, files, appendErrors)
    }

    constructor ()
      ensures State() == LogState([], NoHandle, [], 0)
    {
      seenIds := [];
      current := NoHandle;
      files := [];
      appendErrors := 0;
    }

    method EnsureHandle(day: int, w: Weather) returns (isOpen: bool)
      modifies this`current
      ensures current == Rotate(old(current), day, w)
      ensures isOpen <==> current.OnFile? && current.day == day
    {
      if current.OnFile? && current.day == day {
        return true;
      }
      if current.OnFile? && !w.oldFileStaysOpen {
        current := current.(usable := false);
      }
      if w.openFails {
        return false;
      }
      current := OnFile(day, true);
      return true;
    }

    // The guard: touches the id, or takes it in and drops the oldest ids beyond the limit.
    method Remember(id: string) returns (known: bool)
      modifies this`seenIds
      ensures known <==> id in old(seenIds)
      ensures seenIds == Touch(old(seenIds), id, MAX_SEEN_IDS)
    {
      if id in seenIds {
        seenIds := Without(seenIds, id) + [id];
        return true;
      }
      seenIds := seenIds + [id];
      ghost var grown := seenIds;
      while |seenIds| > MAX_SEEN_IDS
        invariant |seenIds| <= |grown| && seenIds == grown[|grown| - |seenIds|..]
        invariant seenIds == grown || |seenIds| >= MAX_SEEN_IDS
      {
        seenIds := seenIds[1..];
      }
      return false;
    }

    method Append(e: DomainEvent, w: Weather) returns (o: Outcome)
      modifies this
      ensures o == old(State()).Decide(e, w)
      ensures State() == old(State()).Next(e, w, MAX_SEEN_IDS)
    {
      if e.eventId != "" {
        var known := Remember(e.eventId);
        if known {
          return Skipped;
        }
      }
      var isOpen := EnsureHandle(e.day, w);
      if !isOpen {
        return OpenError;
      }
      if w.writeFails || !current.usable {
        appendErrors := appendErrors + 1;
        return WriteError;
      }
      files := files + [Filed(e.day, e)];
      return Written;
    }

    method Close()
      modifies this`current
      ensures current == NoHandle
    {
      current := NoHandle;
    }
  }

  // ---- The guard is an exact LRU ---------------------------------------------------------

  // Independent definition: the distinct ids touched after the last touch of `id`.
  function TouchedAfter(history: seq<string>, id: string): set<string> {
    if history == [] || history[|history| - 1] == id then {}
    else TouchedAfter(history[..|history| - 1], id) + {history[|history| - 1]}
  }

  // All ids of a history, in the order of their last touches.
  function ByLastTouch(history: seq<string>): seq<string> {
    if history == [] then []
    else Without(ByLastTouch(history[..|history| - 1]), history[|history| - 1]) + [history[|history| - 1]]
  }

  function Elements(ids: seq<string>): set<string> {
    set x | x in ids
  }

  lemma {:induction false} WithoutSpec(ids: seq<string>, id: string)
    ensures forall x :: x in Without(ids, id) <==> x in ids && x != id
    ensures id !in ids ==> Without(ids, id) == ids
  {
    if ids != [] {
      WithoutSpec(ids[..|ids| - 1], id);
      assert ids == ids[..|ids| - 1] + [ids[|ids| - 1]];
    }
  }

  lemma DistinctSnoc(ids: seq<string>, id: string)
    requires Distinct(ids) && id !in ids
    ensures Distinct(ids + [id])
  {
  }

  lemma {:induction false} WithoutDistinct(ids: seq<string>, id: string)
    requires Distinct(ids)
    ensures Distinct(Without(ids, id))
    ensures |Without(ids, id)| == |ids| - if id in ids then 1 else 0
  {
    if ids != [] {
      var front, last := ids[..|ids| - 1], ids[|ids| - 1];
      assert ids == front + [last];
      WithoutDistinct(front, id);
      WithoutSpec(front, id);
      assert last !in front;
      if last != id {
        DistinctSnoc(Without(front, id), last);
      }
    }
  }

  lemma {:induction false} WithoutAppend(a: seq<string>, b: seq<string>, id: string)
    ensures Without(a + b, id) == Without(a, id) + Without(b, id)
  {
    if b == [] {
      assert a + b == a;
    } else {
      WithoutAppend(a, b[..|b| - 1], id);
      assert (a + b)[..|a + b| - 1] == a + b[..|b| - 1];
    }
  }

  lemma TouchedLast(ids: seq<string>, x: string)
    requires Distinct(ids)
    ensures Distinct(Without(ids, x) + [x])
    ensures forall y :: y in Without(ids, x) + [x] <==> y in ids || y == x
  {
    WithoutSpec(ids, x);
    WithoutDistinct(ids, x);
    DistinctSnoc(Without(ids, x), x);
  }

  lemma {:induction false} ByLastTouchSpec(history: seq<string>)
    ensures Distinct(ByLastTouch(history))
    ensures forall x :: x in ByLastTouch(history) <==> x in history
  {
    if history != [] {
      var front, x := history[..|history| - 1], history[|history| - 1];
      ByLastTouchSpec(front);
      TouchedLast(ByLastTouch(front), x);
      assert history == front + [x];
    }
  }

  lemma WithoutKeepsOthers(ids: seq<string>, x: string)
    ensures Elements(Without(ids, x) + [x]) == Elements(ids) + {x}
  {
    WithoutSpec(ids, x);
  }

  // Behind each id, in last-touch order, stand exactly the ids touched after it.
  lemma {:induction false} BehindEachId(history: seq<string>, p: nat)
    requires p < |ByLastTouch(history)|
    ensures Elements(ByLastTouch(history)[p + 1..]) == TouchedAfter(history, ByLastTouch(history)[p])
  {
    var front, x := history[..|history| - 1], history[|history| - 1];
    var before, all := ByLastTouch(front), ByLastTouch(history);
    if p < |all| - 1 {
      var q := PlaceBefore(before, x, p);
      assert all[p + 1..] == Without(before[q + 1..], x) + [x];
      BehindEachId(front, q);
      WithoutKeepsOthers(before[q + 1..], x);
    } else {
      assert all[p + 1..] == [];
    }
  }

  // Where the id in place `p` stood before the last touch.
  lemma {:induction false} PlaceBefore(ids: seq<string>, x: string, p: nat) returns (q: nat)
    requires p < |Without(ids, x)|
    ensures q < |ids| && ids[q] == Without(ids, x)[p] != x
    ensures Without(ids, x)[p + 1..] == Without(ids[q + 1..], x)
  {
    var front, last := ids[..|ids| - 1], ids[|ids| - 1];
    if last != x && p == |Without(ids, x)| - 1 {
      q := |ids| - 1;
    } else {
      q := PlaceBefore(front, x, p);
      assert ids[q + 1..] == front[q + 1..] + [last];
      assert (front[q + 1..] + [last])[..|front| - q - 1] == front[q + 1..];
    }
  }

  // After any history: an id is remembered exactly when it was touched and fewer than
  // `cap` distinct other ids have been touched since.
  lemma GuardIsLru(history: seq<string>, cap: nat, id: string)
    requires cap > 0
    ensures id in Guard(history, cap) <==> id in history && |TouchedAfter(history, id)| < cap
    ensures |Guard(history, cap)| <= cap
  {
    GuardIsYoungest(history, cap);
    ByLastTouchSpec(history);
    var all := ByLastTouch(history);
    if id in history {
      assert id in all;
      var p :| 0 <= p < |all| && all[p] == id;
      BehindEachId(history, p);
      DistinctSize(all[p + 1..]);
      assert |TouchedAfter(history, id)| == |all| - 1 - p;
      if |all| > cap {
        assert p >= |all| - cap ==> all[|all| - cap..][p - (|all| - cap)] == id;
      }
    }
  }

  lemma {:induction false} DistinctSize(ids: seq<string>)
    requires Distinct(ids)
    ensures |Elements(ids)| == |ids|
  {
    if ids != [] {
      DistinctSize(ids[..|ids| - 1]);
      assert ids == ids[..|ids| - 1] + [ids[|ids| - 1]];
      assert Elements(ids) == Elements(ids[..|ids| - 1]) + {ids[|ids| - 1]};
    }
  }

  // The guard is the youngest `cap` ids in the order of their last touches.
  lemma {:induction false} GuardIsYoungest(history: seq<string>, cap: nat)
    requires cap > 0
    ensures Guard(history, cap) == Youngest(ByLastTouch(history), cap)
  {
    if history != [] {
      var front, x := history[..|history| - 1], history[|history| - 1];
      GuardIsYoungest(front, cap);
      ByLastTouchSpec(front);
      TouchTracksOrder(ByLastTouch(front), x, cap);
    }
  }

  lemma {:induction false} TouchTracksOrder(all: seq<string>, x: string, cap: nat)
    requires Distinct(all) && cap > 0
    ensures Touch(Youngest(all, cap), x, cap) == Youngest(Without(all, x) + [x], cap)
  {
    var cut := if |all| <= cap then 0 else |all| - cap;
    var elder, young := all[..cut], all[cut..];
    assert all == elder + young && Youngest(all, cap) == young;
    if x in young {
      assert x !in elder by {
        assert forall i :: 0 <= i < |elder| ==> elder[i] == all[i];
        assert forall i :: 0 <= i < |young| ==> young[i] == all[cut + i];
      }
      TouchYoung(elder, young, x, cap);
    } else {
      TouchOther(elder, young, x, cap);
    }
  }

  lemma {:induction false} TouchYoung(elder: seq<string>, young: seq<string>, x: string, cap: nat)
    requires Distinct(young) && x in young && x !in elder
    requires |young| == cap || (elder == [] && |young| <= cap)
    ensures Touch(young, x, cap) == Youngest(Without(elder + young, x) + [x], cap)
  {
    WithoutAppend(elder, young, x);
    WithoutSpec(elder, x);
    WithoutDistinct(young, x);
    assert Without(elder + young, x) + [x] == elder + (Without(young, x) + [x]);
    YoungestOfAppend(elder, Without(young, x) + [x], cap);
  }

  lemma TouchOther(elder: seq<string>, young: seq<string>, x: string, cap: nat)
    requires x !in young
    requires |young| == cap || (elder == [] && |young| <= cap)
    ensures Touch(young, x, cap) == Youngest(Without(elder + young, x) + [x], cap)
  {
    WithoutAppend(elder, young, x);
    WithoutSpec(young, x);
    assert Without(elder + young, x) + [x] == Without(elder, x) + (young + [x]);
    if |young| == cap {
      YoungestOfLonger(Without(elder, x), young + [x], cap);
    } else {
      assert Without(elder, x) + (young + [x]) == young + [x];
    }
  }

  lemma YoungestOfAppend(elder: seq<string>, young: seq<string>, cap: nat)
    requires |young| == cap || (elder == [] && |young| <= cap)
    ensures Youngest(elder + young, cap) == young
  {
  }

  lemma YoungestOfLonger(elder: seq<string>, young: seq<string>, cap: nat)
    requires |young| >= cap
    ensures Youngest(elder + young, cap) == Youngest(young, cap)
  {
  }

  // Two attempts to write one id are separated by at least `cap` distinct other ids.
  lemma AttemptsAreFarApart(history: seq<string>, cap: nat, i: nat, j: nat)
    requires cap > 0 && i < j < |history| && history[i] == history[j]
    requires history[j] !in Guard(history[..j], cap)
    ensures |Elements(history[i + 1..j]) - {history[i]}| >= cap
  {
    var id := history[i];
    GuardIsLru(history[..j], cap, id);
    assert history[..j][i] == id;
    TouchedAfterWithin(history[..j], id, i);
    assert history[..j][i + 1..] == history[i + 1..j];
    SubsetSize(TouchedAfter(history[..j], id), Elements(history[i + 1..j]) - {id});
  }

  lemma {:induction false} TouchedAfterWithin(history: seq<string>, id: string, i: nat)
    requires i < |history| && history[i] == id
    ensures TouchedAfter(history, id) <= Elements(history[i + 1..]) - {id}
  {
    var front, x := history[..|history| - 1], history[|history| - 1];
    if x != id {
      TouchedAfterWithin(front, id, i);
      assert history[i + 1..] == front[i + 1..] + [x];
    }
  }
}
