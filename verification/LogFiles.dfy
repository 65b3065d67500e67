// The daily files of an event log, and the order in which replay reads them back.
module LogFiles {

  // One line and the day of the file that holds it.
  datatype Filed<+T> = Filed(day: int, line: T)

  function InFile<T>(day: int, lines: seq<T>): (r: seq<Filed<T>>)
    ensures |r| == |lines|
    ensures forall i :: 0 <= i < |r| ==> r[i] == Filed(day, lines[i])
  {
    seq(|lines|, i requires 0 <= i < |lines| => Filed(day, lines[i]))
  }

  function Lines<T>(log: seq<Filed<T>>): (r: seq<T>)
    ensures |r| == |log|
    ensures forall i :: 0 <= i < |r| ==> r[i] == log[i].line
  {
    seq(|log|, i requires 0 <= i < |log| => log[i].line)
  }

  // Files are read in the order of their days, each from its first line to its last:
  // a line goes behind everything written before it for its day or an earlier one.
  function ReplayInsert<T>(log: seq<Filed<T>>, x: Filed<T>): seq<Filed<T>> {
    if log == [] || log[|log| - 1].day <= x.day then log + [x]
    else ReplayInsert(log[..|log| - 1], x) + [log[|log| - 1]]
  }

  function ReplayOrder<T>(log: seq<Filed<T>>): seq<Filed<T>> {
    if log == [] then [] else ReplayInsert(ReplayOrder(log[..|log| - 1]), log[|log| - 1])
  }

  ghost predicate DaysInOrder<T(!new)>(log: seq<Filed<T>>) {
    forall i, j :: 0 <= i < j < |log| ==> log[i].day <= log[j].day
  }

  function OfDay<T>(log: seq<Filed<T>>, day: int): seq<Filed<T>> {
    if log == [] then []
    else OfDay(log[..|log| - 1], day) + if log[|log| - 1].day == day then [log[|log| - 1]] else []
  }

  lemma OfDaySnoc<T>(log: seq<Filed<T>>, x: Filed<T>, day: int)
    ensures OfDay(log + [x], day) == OfDay(log, day) + if x.day == day then [x] else []
  {
    assert (log + [x])[..|log|] == log;
  }

  lemma {:induction false} InsertKeepsFiles<T>(log: seq<Filed<T>>, x: Filed<T>, day: int)
    ensures OfDay(ReplayInsert(log, x), day) == OfDay(log, day) + if x.day == day then [x] else []
  {
    if log == [] || log[|log| - 1].day <= x.day {
      OfDaySnoc(log, x, day);
    } else {
      var front, last := log[..|log| - 1], log[|log| - 1];
      InsertKeepsFiles(front, x, day);
      OfDaySnoc(ReplayInsert(front, x), last, day);
    }
  }

  lemma {:induction false} InsertKeepsDays<T(!new)>(log: seq<Filed<T>>, x: Filed<T>)
    requires DaysInOrder(log)
    ensures DaysInOrder(ReplayInsert(log, x))
    ensures forall y :: y in ReplayInsert(log, x) ==> y in log || y == x
  {
    if log != [] && log[|log| - 1].day > x.day {
      var front, last := log[..|log| - 1], log[|log| - 1];
      InsertKeepsDays(front, x);
      var r := ReplayInsert(front, x);
      forall i | 0 <= i < |r|
        ensures r[i].day <= last.day
      {
        assert r[i] in r;
      }
      assert log == front + [last];
    }
  }

  // Reading by files: days come in order, and each file is read as it was written.
  lemma {:induction false} ReplayReadsFilesInOrder<T(!new)>(log: seq<Filed<T>>, day: int)
    ensures DaysInOrder(ReplayOrder(log))
    ensures OfDay(ReplayOrder(log), day) == OfDay(log, day)
  {
    if log != [] {
      ReplayReadsFilesInOrder(log[..|log| - 1], day);
      InsertKeepsDays(ReplayOrder(log[..|log| - 1]), log[|log| - 1]);
      InsertKeepsFiles(ReplayOrder(log[..|log| - 1]), log[|log| - 1], day);
    }
  }

  lemma {:induction false} InsertKeepsLines<T(!new)>(log: seq<Filed<T>>, x: Filed<T>)
    ensures multiset(ReplayInsert(log, x)) == multiset(log) + multiset{x}
  {
    if log != [] && log[|log| - 1].day > x.day {
      assert log == log[..|log| - 1] + [log[|log| - 1]];
      InsertKeepsLines(log[..|log| - 1], x);
    }
  }

  // Replay reads every written line once.
  lemma {:induction false} ReplayKeepsLines<T(!new)>(log: seq<Filed<T>>)
    ensures multiset(ReplayOrder(log)) == multiset(log)
    ensures forall x :: x in ReplayOrder(log) <==> x in log
  {
    if log != [] {
      assert log == log[..|log| - 1] + [log[|log| - 1]];
      ReplayKeepsLines(log[..|log| - 1]);
      InsertKeepsLines(ReplayOrder(log[..|log| - 1]), log[|log| - 1]);
    }
    assert forall x :: x in ReplayOrder(log) <==> x in multiset(ReplayOrder(log));
    assert forall x :: x in log <==> x in multiset(log);
  }

  lemma {:induction false} OrderedLogIsReadAsWritten<T(!new)>(log: seq<Filed<T>>)
    requires DaysInOrder(log)
    ensures ReplayOrder(log) == log
  {
    if log != [] {
      var front, last := log[..|log| - 1], log[|log| - 1];
      assert log == front + [last];
      OrderedLogIsReadAsWritten(front);
      assert front == [] || front[|front| - 1].day <= last.day;
    }
  }

  // Replay returns events in the order they were written exactly when no file of an
  // earlier day is written after one of a later day.
  lemma {:induction false} ReplayKeepsInsertionOrderIff<T(!new)>(log: seq<Filed<T>>)
    ensures ReplayOrder(log) == log <==> DaysInOrder(log)
  {
    ReplayReadsFilesInOrder(log, 0);
    if DaysInOrder(log) {
      OrderedLogIsReadAsWritten(log);
    }
  }
}
