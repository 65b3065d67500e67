// Splitting a range of calendar days into windows of bounded length, as the paginated
// fetch (src/infrastructure/historical_data.py) and the correction script
// (scripts/correct_tz_window.py) both do. Days are ordinal numbers.
module DateWindows {

  datatype Window = Window(first: int, last: int)

  function Windows(start: int, end: int, size: int): seq<Window>
    requires size >= 1
    decreases end - start
  {
    if start > end then []
    else
      var last := if start + size - 1 < end then start + size - 1 else end;
      [Window(start, last)] + Windows(last + 1, end, size)
  }

  // Consecutive windows that exactly cover the range, all full but perhaps the last.
  ghost predicate Covers(ws: seq<Window>, start: int, end: int, size: int) {
    && (ws == [] <==> start > end)
    && (ws != [] ==> ws[0].first == start && ws[|ws| - 1].last == end)
    && (forall i :: 0 <= i < |ws| ==> 1 <= ws[i].last - ws[i].first + 1 <= size)
    && (forall i :: 0 <= i < |ws| - 1 ==> ws[i].last - ws[i].first + 1 == size)
    && (forall i :: 0 < i < |ws| ==> ws[i].first == ws[i - 1].last + 1)
  }

  lemma {:induction false} WindowsCover(start: int, end: int, size: int)
    requires size >= 1
    ensures Covers(Windows(start, end, size), start, end, size)
    decreases end - start
  {
    if start <= end {
      var last := if start + size - 1 < end then start + size - 1 else end;
      WindowsCover(last + 1, end, size);
    }
  }

  ghost predicate InWindow(w: Window, day: int) {
    w.first <= day <= w.last
  }

  // Every day of the range lies in exactly one window, and no other day in any.
  lemma {:induction false} EachDayInOneWindow(start: int, end: int, size: int, day: int)
    requires size >= 1
    ensures
      var ws := Windows(start, end, size);
      && (start <= day <= end <==> exists w :: w in ws && InWindow(w, day))
      && (forall i, j :: 0 <= i < j < |ws| ==> !(InWindow(ws[i], day) && InWindow(ws[j], day)))
    decreases end - start
  {
    if start <= end {
      var last := if start + size - 1 < end then start + size - 1 else end;
      var rest, ws := Windows(last + 1, end, size), Windows(start, end, size);
      EachDayInOneWindow(last + 1, end, size, day);
      assert ws == [Window(start, last)] + rest;
      assert forall w :: w in ws <==> w == Window(start, last) || w in rest;
      assert forall i :: 0 < i < |ws| ==> ws[i] == rest[i - 1] && ws[i] in rest;
      if start <= day <= last {
        assert InWindow(Window(start, last), day);
      }
    }
  }

  // The script's loop. With windows of less than a day it ends on an empty range only.
  method Chunks(start: int, end: int, maxDays: int) returns (out: seq<Window>)
    requires maxDays >= 1 || start > end
    ensures maxDays >= 1 ==> out == Windows(start, end, maxDays)
    ensures Covers(out, start, end, maxDays)
  {
    out := [];
    var current := start;
    while current <= end
      invariant maxDays >= 1 ==> out + Windows(current, end, maxDays) == Windows(start, end, maxDays)
      invariant maxDays < 1 ==> out == [] && current == start
      decreases end - current + 1
    {
      var chunkEnd := if current + maxDays - 1 < end then current + maxDays - 1 else end;
      out := out + [Window(current, chunkEnd)];
      current := chunkEnd + 1;
    }
    if maxDays >= 1 {
      WindowsCover(start, end, maxDays);
    }
  }
}
