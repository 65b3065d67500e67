// Whole runs of the event log (class EventLog of src/infrastructure/event_log.py): which
// appends are skipped, which reach a file and which fail, told from the calls alone.
module EventLogRuns {
  import opened Common
  import opened LogFiles
  import opened EventLog

  datatype Call = AppendCall(event: DomainEvent, weather: Weather) | CloseCall

  function After(s: LogState, c: Call, cap: nat): LogState {
    match c
    case AppendCall(e, w) => s.Next(e, w, cap)
    case CloseCall => s.(handle := NoHandle)
  }

  function Run(calls: seq<Call>, cap: nat): LogState {
    if calls == [] then LogState([], NoHandle, [], 0)
    else After(Run(calls[..|calls| - 1], cap), calls[|calls| - 1], cap)
  }

  lemma RunSnoc(calls: seq<Call>, c: Call, cap: nat)
    ensures Run(calls + [c], cap) == After(Run(calls, cap), c, cap)
  {
    assert (calls + [c])[..|calls|] == calls;
  }

  // ---- Which events are skipped -----------------------------------------------------------

  function OfferedBy(c: Call): seq<string> {
    if c.AppendCall? && c.event.eventId != "" then [c.event.eventId] else []
  }

  // The non-empty ids of the events offered to the log, written or not.
  function Offered(calls: seq<Call>): seq<string> {
    if calls == [] then [] else Offered(calls[..|calls| - 1]) + OfferedBy(calls[|calls| - 1])
  }

  // The id was offered, and fewer than `cap` distinct other ids were offered since.
  predicate Recent(calls: seq<Call>, id: string, cap: nat) {
    id in Offered(calls) && |TouchedAfter(Offered(calls), id)| < cap
  }

  lemma {:induction false} RunKeepsGuard(calls: seq<Call>, cap: nat)
    ensures Run(calls, cap).seen == Guard(Offered(calls), cap)
    ensures "" !in Offered(calls)
  {
    if calls != [] {
      var front, c := calls[..|calls| - 1], calls[|calls| - 1];
      RunKeepsGuard(front, cap);
      if OfferedBy(c) == [] {
        assert Offered(calls) == Offered(front);
      } else {
        assert Offered(calls)[..|Offered(calls)| - 1] == Offered(front);
      }
    }
  }

  // The log skips an event exactly when its id was offered before and fewer than `cap`
  // distinct other ids were offered since.
  lemma SkipsExactlyRecentIds(calls: seq<Call>, e: DomainEvent, w: Weather, cap: nat)
    requires cap > 0
    ensures Run(calls, cap).Decide(e, w) == Skipped <==> Recent(calls, e.eventId, cap)
  {
    RunKeepsGuard(calls, cap);
    GuardIsLru(Offered(calls), cap, e.eventId);
  }

  // ---- Which file is open ------------------------------------------------------------------

  // The append that opened the current file: the last one, not skipped and since the last
  // close, that needed another file than the current one and could open it.
  function Opener(calls: seq<Call>, cap: nat): (r: Option<nat>)
    ensures r.Some? ==> r.value < |calls| && calls[r.value].AppendCall?
  {
    if calls == [] then None
    else
      var front, c := calls[..|calls| - 1], calls[|calls| - 1];
      var before := Opener(front, cap);
      match c
      case CloseCall => None
      case AppendCall(e, w) =>
        if Recent(front, e.eventId, cap) || w.openFails || (before.Some? && front[before.value].event.day == e.day)
        then before else Some(|front|)
  }

  predicate HasFile(calls: seq<Call>, day: int, cap: nat) {
    var k := Opener(calls, cap);
    k.Some? && calls[k.value].event.day == day
  }

  // Append `m`, not skipped, closed the file of append `k` and could not open its own.
  predicate ClosesFor(calls: seq<Call>, k: nat, m: nat, cap: nat)
    requires k < |calls| && calls[k].AppendCall?
  {
    && m < |calls| && calls[m].AppendCall?
    && calls[m].event.day != calls[k].event.day
    && calls[m].weather.openFails && !calls[m].weather.oldFileStaysOpen
    && !Recent(calls[..m], calls[m].event.eventId, cap)
  }

  ghost predicate Broken(calls: seq<Call>, k: nat, cap: nat)
    requires k < |calls| && calls[k].AppendCall?
  {
    exists m: nat :: k < m && ClosesFor(calls, k, m, cap)
  }

  // The file of `day` is current, but closed by a rotation that failed.
  ghost predicate Stranded(calls: seq<Call>, day: int, cap: nat) {
    var k := Opener(calls, cap);
    k.Some? && calls[k.value].event.day == day && Broken(calls, k.value, cap)
  }

  lemma BrokenSnoc(calls: seq<Call>, k: nat, cap: nat)
    requires calls != [] && k < |calls| - 1 && calls[k].AppendCall?
    ensures Broken(calls, k, cap) <==> Broken(calls[..|calls| - 1], k, cap) || ClosesFor(calls, k, |calls| - 1, cap)
  {
    var front := calls[..|calls| - 1];
    forall m: nat | m < |front|
      ensures ClosesFor(calls, k, m, cap) <==> ClosesFor(front, k, m, cap)
    {
      assert calls[..m] == front[..m];
    }
    if Broken(calls, k, cap) && !ClosesFor(calls, k, |calls| - 1, cap) {
      var m: nat :| k < m && ClosesFor(calls, k, m, cap);
      assert ClosesFor(front, k, m, cap);
    }
    if Broken(front, k, cap) {
      var m: nat :| k < m && ClosesFor(front, k, m, cap);
      assert ClosesFor(calls, k, m, cap);
    }
  }

  // The handle, told from the calls.
  lemma {:induction false} HandleFromCalls(calls: seq<Call>, cap: nat)
    requires cap > 0
    ensures
      var k := Opener(calls, cap);
      Run(calls, cap).handle
      == if k.None? then NoHandle else OnFile(calls[k.value].event.day, !Broken(calls, k.value, cap))
  {
    if calls != [] {
      var front, c := calls[..|calls| - 1], calls[|calls| - 1];
      HandleFromCalls(front, cap);
      var before, k := Opener(front, cap), Opener(calls, cap);
      if c.AppendCall? {
        SkipsExactlyRecentIds(front, c.event, c.weather, cap);
        if before.Some? {
          BrokenSnoc(calls, before.value, cap);
        }
        assert Broken(calls, |front|, cap) ==> false;
      }
    }
  }

  // ---- What becomes of an append -----------------------------------------------------------

  ghost predicate Lands(calls: seq<Call>, e: DomainEvent, w: Weather, cap: nat) {
    && !Recent(calls, e.eventId, cap) && !w.writeFails
    && (if HasFile(calls, e.day, cap) then !Stranded(calls, e.day, cap) else !w.openFails)
  }

  predicate FailsToOpen(calls: seq<Call>, e: DomainEvent, w: Weather, cap: nat) {
    !Recent(calls, e.eventId, cap) && !HasFile(calls, e.day, cap) && w.openFails
  }

  // After any run: an event is skipped exactly when its id is recent, it fails to open
  // exactly when it needs a file that cannot be opened, and it is written exactly when it
  // is not recent, its file is or can be opened and is not stranded, and the write succeeds.
  lemma {:induction false} OutcomeFromCalls(calls: seq<Call>, e: DomainEvent, w: Weather, cap: nat)
    requires cap > 0
    ensures
      var outcome := Run(calls, cap).Decide(e, w);
      && (outcome == Skipped <==> Recent(calls, e.eventId, cap))
      && (outcome == OpenError <==> FailsToOpen(calls, e, w, cap))
      && (outcome == Written <==> Lands(calls, e, w, cap))
  {
    HandleFromCalls(calls, cap);
    SkipsExactlyRecentIds(calls, e, w, cap);
  }

  const FAIR := Weather(false, false, false)

  // With a healthy file system an event is written exactly when it is not recent and its
  // day is not stranded.
  lemma FairWeatherWritesIff(calls: seq<Call>, e: DomainEvent, cap: nat)
    requires cap > 0
    ensures Run(calls, cap).Decide(e, FAIR) == Written
       <==> !Recent(calls, e.eventId, cap) && !Stranded(calls, e.day, cap)
  {
    OutcomeFromCalls(calls, e, FAIR, cap);
  }

  // ---- Stranded days -------------------------------------------------------------------------

  // A rotation that fails between two days strands the first: nothing was counted as an
  // error, and yet a new event of that day cannot be written in fair weather.
  lemma FailedRotationStrands(first: DomainEvent, second: DomainEvent, w: Weather, third: DomainEvent, cap: nat)
    requires cap > 0 && first.day != second.day && third.day == first.day
    requires second.eventId == "" || second.eventId != first.eventId
    requires third.eventId == "" || third.eventId !in {first.eventId, second.eventId}
    requires w.openFails && !w.oldFileStaysOpen
    ensures
      var s := Run([AppendCall(first, FAIR), AppendCall(second, w)], cap);
      && s.handle == OnFile(first.day, false) && s.errors == 0
      && s.Decide(third, FAIR) == WriteError
  {
    RunOfTwo(AppendCall(first, FAIR), AppendCall(second, w), cap);
    var s := LogState([], NoHandle, [], 0).Next(first, FAIR, cap);
    TouchMembers([], first.eventId, cap);
    TouchMembers(s.seen, second.eventId, cap);
    assert s.handle == OnFile(first.day, true) && s.errors == 0;
    assert s.Decide(second, w) == OpenError;
    assert s.Next(second, w, cap).handle == OnFile(first.day, false);
  }

  lemma TouchMembers(seen: seq<string>, id: string, cap: nat)
    ensures forall x :: x in Touch(seen, id, cap) ==> x in seen || x == id
  {
    WithoutSpec(seen, id);
  }

  // What frees a stranded day: closing the log, or opening the file of another day.
  lemma {:induction false} StrandedStaysIff(calls: seq<Call>, c: Call, day: int, cap: nat)
    requires cap > 0 && Stranded(calls, day, cap)
    ensures Stranded(calls + [c], day, cap)
       <==> c.AppendCall? && (c.event.day == day || c.weather.openFails || Recent(calls, c.event.eventId, cap))
    ensures Stranded(calls + [c], day, cap) ==> Run(calls + [c], cap).files == Run(calls, cap).files
  {
    var k := Opener(calls, cap).value;
    assert (calls + [c])[..|calls|] == calls;
    assert (calls + [c])[k] == calls[k];
    BrokenSnoc(calls + [c], k, cap);
    RunSnoc(calls, c, cap);
    if c.AppendCall? {
      OutcomeFromCalls(calls, c.event, c.weather, cap);
    }
  }

  // An append for the stranded day, or one that cannot open its file.
  predicate LeavesStranded(c: Call, day: int) {
    c.AppendCall? && (c.event.day == day || c.weather.openFails)
  }

  // A run whose first `n` calls stranded a day: until then nothing more is written, for any
  // day.
  lemma {:induction false} FailedRotationStrandsTheDay(calls: seq<Call>, n: nat, day: int, cap: nat)
    requires cap > 0 && n <= |calls| && Stranded(calls[..n], day, cap)
    requires forall i :: n <= i < |calls| ==> LeavesStranded(calls[i], day)
    ensures Stranded(calls, day, cap) && Run(calls, cap).files == Run(calls[..n], cap).files
  {
    HandleFromCalls(calls[..n], cap);
    ClosedHandleStays(calls, n, day, cap);
    HandleFromCalls(calls, cap);
  }

  lemma {:induction false} ClosedHandleStays(calls: seq<Call>, n: nat, day: int, cap: nat)
    requires n <= |calls| && Run(calls[..n], cap).handle == OnFile(day, false)
    requires forall i :: n <= i < |calls| ==> LeavesStranded(calls[i], day)
    ensures Run(calls, cap).handle == OnFile(day, false)
    ensures Run(calls, cap).files == Run(calls[..n], cap).files
  {
    if n == |calls| {
      assert calls[..n] == calls;
    } else {
      var front := calls[..|calls| - 1];
      assert front[..n] == calls[..n];
      ClosedHandleStays(front, n, day, cap);
    }
  }

  // ---- Retrying ------------------------------------------------------------------------------

  lemma {:induction false} OfferedAppend(a: seq<Call>, b: seq<Call>)
    ensures Offered(a + b) == Offered(a) + Offered(b)
  {
    if b == [] {
      assert a + b == a;
    } else {
      var front, c := b[..|b| - 1], b[|b| - 1];
      OfferedAppend(a, front);
      assert (a + b)[..|a + b| - 1] == a + front && (a + b)[|a + b| - 1] == c;
      assert (Offered(a) + Offered(front)) + OfferedBy(c) == Offered(a) + (Offered(front) + OfferedBy(c));
    }
  }

  lemma {:induction false} TouchedSince(before: seq<string>, id: string, since: seq<string>)
    requires id !in since
    ensures TouchedAfter(before + [id] + since, id) == Elements(since)
  {
    var all := before + [id] + since;
    if since == [] {
      assert all[|all| - 1] == id;
    } else {
      TouchedSince(before, id, since[..|since| - 1]);
      assert all[..|all| - 1] == before + [id] + since[..|since| - 1];
      assert since == since[..|since| - 1] + [since[|since| - 1]];
    }
  }

  // An event once offered, whether it was written or failed, is skipped when it is offered
  // again exactly as long as fewer than `cap` distinct other ids were offered in between;
  // after that a healthy file system writes it unless its day is stranded.
  lemma RetryIsSkippedIff(calls: seq<Call>, e: DomainEvent, w: Weather, between: seq<Call>, retry: Weather, cap: nat)
    requires cap > 0 && e.eventId != "" && e.eventId !in Offered(between)
    ensures
      var all := calls + [AppendCall(e, w)] + between;
      && (Run(all, cap).Decide(e, retry) == Skipped <==> |Elements(Offered(between))| < cap)
      && (Run(all, cap).Decide(e, FAIR) == Written
          <==> |Elements(Offered(between))| >= cap && !Stranded(all, e.day, cap))
  {
    var all := calls + [AppendCall(e, w)] + between;
    OfferedAppend(calls + [AppendCall(e, w)], between);
    OfferedAppend(calls, [AppendCall(e, w)]);
    assert [AppendCall(e, w)][..0] == [];
    assert Offered([AppendCall(e, w)]) == [] + [e.eventId];
    assert Offered(all) == Offered(calls) + [e.eventId] + Offered(between);
    TouchedSince(Offered(calls), e.eventId, Offered(between));
    SkipsExactlyRecentIds(all, e, retry, cap);
    FairWeatherWritesIff(all, e, cap);
  }

  // ---- What the files and the counter hold -----------------------------------------------------

  ghost predicate Landing(calls: seq<Call>, c: Call, cap: nat) {
    c.AppendCall? && Lands(calls, c.event, c.weather, cap)
  }

  ghost predicate Failing(calls: seq<Call>, c: Call, cap: nat) {
    c.AppendCall? && !Recent(calls, c.event.eventId, cap) && !Lands(calls, c.event, c.weather, cap)
  }

  predicate NotOpening(calls: seq<Call>, c: Call, cap: nat) {
    c.AppendCall? && FailsToOpen(calls, c.event, c.weather, cap)
  }

  ghost function Landed(calls: seq<Call>, cap: nat): seq<DomainEvent> {
    if calls == [] then []
    else
      var front, c := calls[..|calls| - 1], calls[|calls| - 1];
      Landed(front, cap) + if Landing(front, c, cap) then [c.event] else []
  }

  // How many calls were, after the calls before them, of a kind.
  ghost function Count(calls: seq<Call>, kind: (seq<Call>, Call) -> bool): nat {
    if calls == [] then 0
    else
      var front, c := calls[..|calls| - 1], calls[|calls| - 1];
      Count(front, kind) + if kind(front, c) then 1 else 0
  }

  ghost function Failures(calls: seq<Call>, cap: nat): nat {
    Count(calls, (before, c) => Failing(before, c, cap))
  }

  ghost function OpenFailures(calls: seq<Call>, cap: nat): nat {
    Count(calls, (before, c) => NotOpening(before, c, cap))
  }

  // The files hold exactly the events that landed, in order, each in the file of its own day.
  lemma {:induction false} FilesHoldWhatLanded(calls: seq<Call>, cap: nat)
    requires cap > 0
    ensures Lines(Run(calls, cap).files) == Landed(calls, cap)
    ensures forall f :: f in Run(calls, cap).files ==> f.day == f.line.day
  {
    if calls != [] {
      var front, c := calls[..|calls| - 1], calls[|calls| - 1];
      FilesHoldWhatLanded(front, cap);
      if c.AppendCall? {
        OutcomeFromCalls(front, c.event, c.weather, cap);
      }
    }
  }

  lemma {:induction false} CountNone(calls: seq<Call>, kind: (seq<Call>, Call) -> bool)
    ensures Count(calls, kind) == 0 <==> forall k :: 0 <= k < |calls| ==> !kind(calls[..k], calls[k])
  {
    if calls != [] {
      var front := calls[..|calls| - 1];
      CountNone(front, kind);
      assert forall k :: 0 <= k < |front| ==> front[..k] == calls[..k] && front[k] == calls[k];
    }
  }

  // The error counter counts the failed appends that could be opened: it counts all the
  // failed ones exactly when no append failed to open its file.
  lemma {:induction false} ErrorsCountFailuresIff(calls: seq<Call>, cap: nat)
    requires cap > 0
    ensures Run(calls, cap).errors == Failures(calls, cap) - OpenFailures(calls, cap)
    ensures Run(calls, cap).errors == Failures(calls, cap)
       <==> forall k :: 0 <= k < |calls| ==> !NotOpening(calls[..k], calls[k], cap)
  {
    ErrorsCounted(calls, cap);
    CountNone(calls, (before, c) => NotOpening(before, c, cap));
  }

  lemma {:induction false} ErrorsCounted(calls: seq<Call>, cap: nat)
    requires cap > 0
    ensures Run(calls, cap).errors == Failures(calls, cap) - OpenFailures(calls, cap)
  {
    if calls != [] {
      var front, c := calls[..|calls| - 1], calls[|calls| - 1];
      ErrorsCounted(front, cap);
      if c.AppendCall? {
        OutcomeFromCalls(front, c.event, c.weather, cap);
      }
    }
  }

  // One append that cannot open its file: a failure that is not counted.
  lemma OpenFailureIsNotCounted(e: DomainEvent, w: Weather, cap: nat)
    requires cap > 0 && w.openFails
    ensures
      var calls := [AppendCall(e, w)];
      Run(calls, cap).errors == 0 && Failures(calls, cap) == 1
  {
    var calls := [AppendCall(e, w)];
    assert calls[..0] == [];
    assert Run(calls[..0], cap) == LogState([], NoHandle, [], 0);
    ErrorsCounted(calls, cap);
    assert Offered([]) == [] && Opener([], cap) == None;
    assert Failing([], AppendCall(e, w), cap);
    assert Failing(calls[..0], calls[0], cap);
    assert Count(calls[..0], (before, c) => Failing(before, c, cap)) == 0;
  }

  // ---- Replay --------------------------------------------------------------------------------

  ghost predicate InOrderOfDays(events: seq<DomainEvent>) {
    forall i, j :: 0 <= i < j < |events| ==> events[i].day <= events[j].day
  }

  // Replaying a run's files gives the events in the order they were written exactly when
  // the days of the events that landed never went back.
  lemma {:induction false} ReplayKeepsOrderIff(calls: seq<Call>, cap: nat)
    requires cap > 0
    ensures Lines(ReplayOrder(Run(calls, cap).files)) == Landed(calls, cap) <==> InOrderOfDays(Landed(calls, cap))
  {
    var files := Run(calls, cap).files;
    FilesHoldWhatLanded(calls, cap);
    ReplayKeepsInsertionOrderIff(files);
    ReplayReadsFilesInOrder(files, 0);
    ReplayKeepsLines(files);
    forall i | 0 <= i < |files|
      ensures files[i].day == Landed(calls, cap)[i].day
    {
      assert files[i] in files;
    }
    forall i | 0 <= i < |ReplayOrder(files)|
      ensures ReplayOrder(files)[i].day == Lines(ReplayOrder(files))[i].day
    {
      assert ReplayOrder(files)[i] in files;
    }
  }

  lemma RunOfTwo(a: Call, b: Call, cap: nat)
    ensures Run([a, b], cap) == After(After(LogState([], NoHandle, [], 0), a, cap), b, cap)
  {
    assert [a, b][..1] == [a] && [a][..0] == [];
    assert Run([a][..0], cap) == LogState([], NoHandle, [], 0);
  }

  lemma FairPairLands(late: DomainEvent, early: DomainEvent, cap: nat)
    requires cap > 0 && (early.eventId == "" || early.eventId != late.eventId)
    ensures Run([AppendCall(late, FAIR), AppendCall(early, FAIR)], cap).files
         == [Filed(late.day, late), Filed(early.day, early)]
  {
    RunOfTwo(AppendCall(late, FAIR), AppendCall(early, FAIR), cap);
    var s := LogState([], NoHandle, [], 0).Next(late, FAIR, cap);
    TouchMembers([], late.eventId, cap);
    assert s.handle == OnFile(late.day, true) && s.files == [Filed(late.day, late)];
    assert s.Decide(early, FAIR) == Written;
  }

  // An event of an earlier day after one of a later day comes back first.
  lemma ReplayReversesDays(late: DomainEvent, early: DomainEvent, cap: nat)
    requires cap > 0 && early.day < late.day && (early.eventId == "" || early.eventId != late.eventId)
    ensures
      var files := Run([AppendCall(late, FAIR), AppendCall(early, FAIR)], cap).files;
      Lines(files) == [late, early] && Lines(ReplayOrder(files)) == [early, late]
  {
    FairPairLands(late, early, cap);
    LinesOfPair(Filed(late.day, late), Filed(early.day, early));
  }

  lemma LinesOfPair(a: Filed<DomainEvent>, b: Filed<DomainEvent>)
    requires b.day < a.day
    ensures Lines([a, b]) == [a.line, b.line] && Lines(ReplayOrder([a, b])) == [b.line, a.line]
  {
    ReplayOfPair(a, b);
  }

  lemma ReplayOfPair<T(!new)>(a: Filed<T>, b: Filed<T>)
    requires b.day < a.day
    ensures ReplayOrder([a, b]) == [b, a]
  {
    assert [a, b][..1] == [a] && [a][..0] == [];
    assert ReplayOrder([a][..0]) == [];
    assert ReplayOrder([a]) == [a];
    assert ReplayInsert([a][..0], b) == [b];
  }
}
