/** The understaffing scan of `analyser_planning`: the buckets of a day are walked in
    ascending order, a window opens at the first bucket with fewer than three people
    present and closes at the next bucket with at least three, or at the last bucket. */
module Understaffing {
  import opened Text
  import opened Intervals
  import opened Analysis

  /** Fewer than this many people present is understaffing. */
  const MinimumStaff: int := 3

  /** `heures[h]`; the scan only asks for buckets, which are always there. */
  function CountAt(counts: Counts, h: real): int {
    if h in counts then counts[h] else 0
  }

  predicate Short(counts: Counts, h: real) {
    CountAt(counts, h) < MinimumStaff
  }

  /** `max(heures)`. */
  function MaxOf(hs: seq<real>): (m: real)
    requires |hs| >= 1
    ensures m in hs && forall x :: x in hs ==> x <= m
  {
    if |hs| == 1 then hs[0]
    else
      assert hs == hs[..|hs| - 1] + [hs[|hs| - 1]];
      Max(MaxOf(hs[..|hs| - 1]), hs[|hs| - 1])
  }

  /** The largest of ascending buckets is the last. */
  lemma MaxOfAscending(hs: seq<real>)
    requires |hs| >= 1 && Ascending(hs)
    ensures MaxOf(hs) == hs[|hs| - 1]
  {
    var m := MaxOf(hs);
    var k :| 0 <= k < |hs| && hs[k] == m;
    assert hs[|hs| - 1] <= m;
  }

  /** The scan's state: the windows reported so far and the start of the open one. */
  datatype Scan = Scan(closed: seq<(real, real)>, open: Option<real>)

  /** One bucket `h` with `count` people, `top` being the last bucket: an understaffed
      bucket opens a window when none is open; a staffed bucket, or the last bucket,
      closes the open window, which is reported unless it starts at `h`. */
  function ScanStep(st: Scan, h: real, count: int, top: real): Scan {
    if count < MinimumStaff && st.open.None? then Scan(st.closed, Some(h))
    else if st.open.Some? && (count >= MinimumStaff || h == top) then
      Scan(if st.open.value != h then st.closed + [(st.open.value, h)] else st.closed, None)
    else st
  }

  /** The scan after the first `i` buckets. */
  function ScanUpTo(hs: seq<real>, counts: Counts, top: real, i: nat): Scan
    requires i <= |hs|
  {
    if i == 0 then Scan([], None)
    else ScanStep(ScanUpTo(hs, counts, top, i - 1), hs[i - 1], CountAt(counts, hs[i - 1]), top)
  }

  /** The understaffed windows of one day: the scan, then the check after it for a window
      still open that does not start at the last bucket. */
  function Windows(hs: seq<real>, counts: Counts): seq<(real, real)> {
    if hs == [] then []
    else
      var top := MaxOf(hs);
      var st := ScanUpTo(hs, counts, top, |hs|);
      st.closed + (if st.open.Some? && st.open.value != top then [(st.open.value, top)] else [])
  }

  // ------------------------------------------------------------ what the scan finds

  /** `x` lies in one of the windows `ws`. */
  predicate Covered(ws: seq<(real, real)>, x: real) {
    exists k :: 0 <= k < |ws| && ws[k].0 <= x < ws[k].1
  }

  /** A window worth reporting: it goes forward, starts at an understaffed bucket and ends
      at a staffed one or at the last bucket. */
  predicate GoodWindow(hs: seq<real>, counts: Counts, top: real, w: (real, real)) {
    w.0 < w.1 && w.0 in hs && w.1 in hs && Short(counts, w.0) && (!Short(counts, w.1) || w.1 == top)
  }

  /** What holds of the scan after `i` buckets. */
  predicate ScanInv(hs: seq<real>, counts: Counts, top: real, i: nat, st: Scan)
    requires i <= |hs|
  {
    WindowsGood(hs, counts, top, i, st.closed) && WindowsShort(hs, counts, i, st.closed)
    && OpenGood(hs, counts, i, st) && ShortCovered(hs, counts, top, i, st)
  }

  /** The closed windows are worth reporting, in order and apart, and end by bucket `i - 1`. */
  predicate WindowsGood(hs: seq<real>, counts: Counts, top: real, i: nat, ws: seq<(real, real)>)
    requires i <= |hs|
  {
    (forall k :: 0 <= k < |ws| ==> GoodWindow(hs, counts, top, ws[k]))
    && (forall k :: 0 <= k < |ws| - 1 ==> ws[k].1 < ws[k + 1].0)
    && (forall k :: 0 <= k < |ws| ==> 0 < i && ws[k].1 <= hs[i - 1])
  }

  /** Every bucket inside a closed window is one of the first `i` and understaffed. */
  predicate WindowsShort(hs: seq<real>, counts: Counts, i: nat, ws: seq<(real, real)>) {
    forall k, j :: 0 <= k < |ws| && 0 <= j < |hs| && ws[k].0 <= hs[j] < ws[k].1 ==> j < i && Short(counts, hs[j])
  }

  /** An open window starts at an understaffed bucket after every closed window, and every
      bucket from its start on is understaffed. */
  predicate OpenGood(hs: seq<real>, counts: Counts, i: nat, st: Scan)
    requires i <= |hs|
  {
    var ws := st.closed;
    st.open.Some? ==>
      0 < i && st.open.value in hs && st.open.value <= hs[i - 1] && Short(counts, st.open.value)
      && (forall k :: 0 <= k < |ws| ==> ws[k].1 < st.open.value)
      && (forall j :: 0 <= j < i && st.open.value <= hs[j] ==> Short(counts, hs[j]))
  }

  /** Every understaffed bucket among the first `i` is in a closed window, after the start
      of the open one, or the last bucket. */
  predicate ShortCovered(hs: seq<real>, counts: Counts, top: real, i: nat, st: Scan)
    requires i <= |hs|
  {
    forall j :: 0 <= j < i && Short(counts, hs[j]) ==>
      Covered(st.closed, hs[j]) || (st.open.Some? && st.open.value <= hs[j]) || hs[j] == top
  }

  lemma CoveredAppend(ws: seq<(real, real)>, w: (real, real), x: real)
    requires Covered(ws, x) || w.0 <= x < w.1
    ensures Covered(ws + [w], x)
  {
    if Covered(ws, x) {
      var k :| 0 <= k < |ws| && ws[k].0 <= x < ws[k].1;
      assert (ws + [w])[k] == ws[k];
    } else {
      assert (ws + [w])[|ws|] == w;
    }
  }

  /** Opening a window keeps the invariant. */
  lemma OpenStepInv(hs: seq<real>, counts: Counts, i: nat, st: Scan)
    requires Ascending(hs) && 0 < i <= |hs|
    requires ScanInv(hs, counts, hs[|hs| - 1], i - 1, st)
    requires Short(counts, hs[i - 1]) && st.open.None?
    ensures ScanInv(hs, counts, hs[|hs| - 1], i, Scan(st.closed, Some(hs[i - 1])))
  {
    var h := hs[i - 1];
    var ws := st.closed;
    forall k | 0 <= k < |ws| ensures ws[k].1 < h {
      assert ws[k].1 <= hs[i - 2] < h;
    }
    forall j | 0 <= j < i && h <= hs[j] ensures Short(counts, hs[j]) {
      assert j == i - 1;
    }
  }

  /** A bucket that neither opens nor closes a window keeps the invariant. */
  lemma KeepStepInv(hs: seq<real>, counts: Counts, i: nat, st: Scan)
    requires Ascending(hs) && 0 < i <= |hs|
    requires ScanInv(hs, counts, hs[|hs| - 1], i - 1, st)
    requires !(Short(counts, hs[i - 1]) && st.open.None?)
    requires !(st.open.Some? && (!Short(counts, hs[i - 1]) || hs[i - 1] == hs[|hs| - 1]))
    ensures ScanInv(hs, counts, hs[|hs| - 1], i, st)
  {
    var h := hs[i - 1];
    var ws := st.closed;
    forall k | 0 <= k < |ws| ensures ws[k].1 <= h {
      assert ws[k].1 <= hs[i - 2] < h;
    }
    if st.open.Some? {
      assert st.open.value <= hs[i - 2] < h;
    }
  }

  lemma AscendingIndex(hs: seq<real>, a: int, b: int)
    requires Ascending(hs) && 0 <= a < |hs| && 0 <= b < |hs| && hs[a] < hs[b]
    ensures a < b
  {
  }

  /** Closing a window `(o, h)` with `o < h` reports it and keeps the invariant. */
  lemma CloseStepInv(hs: seq<real>, counts: Counts, i: nat, st: Scan)
    requires Ascending(hs) && 0 < i <= |hs|
    requires ScanInv(hs, counts, hs[|hs| - 1], i - 1, st)
    requires st.open.Some? && st.open.value != hs[i - 1]
    requires !Short(counts, hs[i - 1]) || hs[i - 1] == hs[|hs| - 1]
    ensures ScanInv(hs, counts, hs[|hs| - 1], i, Scan(st.closed + [(st.open.value, hs[i - 1])], None))
  {
    CloseGood(hs, counts, i, st);
    CloseShort(hs, counts, i, st);
    CloseCovered(hs, counts, i, st);
  }

  lemma CloseGood(hs: seq<real>, counts: Counts, i: nat, st: Scan)
    requires Ascending(hs) && 0 < i <= |hs|
    requires WindowsGood(hs, counts, hs[|hs| - 1], i - 1, st.closed) && OpenGood(hs, counts, i - 1, st)
    requires st.open.Some? && st.open.value != hs[i - 1]
    requires !Short(counts, hs[i - 1]) || hs[i - 1] == hs[|hs| - 1]
    ensures st.open.value < hs[i - 1]
    ensures WindowsGood(hs, counts, hs[|hs| - 1], i, st.closed + [(st.open.value, hs[i - 1])])
  {
    var top := hs[|hs| - 1];
    var h := hs[i - 1];
    var o := st.open.value;
    var w := (o, h);
    var ws := st.closed;
    var ws' := ws + [w];
    assert o < h by {
      assert o <= hs[i - 2] < h;
    }
    assert GoodWindow(hs, counts, top, w);
    forall k | 0 <= k < |ws'| ensures GoodWindow(hs, counts, top, ws'[k]) && ws'[k].1 <= h {
      if k < |ws| {
        assert ws'[k] == ws[k];
        assert ws[k].1 <= hs[i - 2] < h;
      }
    }
    forall k | 0 <= k < |ws'| - 1 ensures ws'[k].1 < ws'[k + 1].0 {
      assert ws'[k] == ws[k];
      if k + 1 < |ws| {
        assert ws'[k + 1] == ws[k + 1];
      }
    }
  }

  lemma CloseShort(hs: seq<real>, counts: Counts, i: nat, st: Scan)
    requires Ascending(hs) && 0 < i <= |hs|
    requires WindowsShort(hs, counts, i - 1, st.closed) && OpenGood(hs, counts, i - 1, st)
    requires st.open.Some? && st.open.value != hs[i - 1]
    ensures WindowsShort(hs, counts, i, st.closed + [(st.open.value, hs[i - 1])])
  {
    var h := hs[i - 1];
    var ws := st.closed;
    var ws' := ws + [(st.open.value, h)];
    forall k, j | 0 <= k < |ws'| && 0 <= j < |hs| && ws'[k].0 <= hs[j] < ws'[k].1
      ensures j < i && Short(counts, hs[j])
    {
      if k < |ws| {
        assert ws'[k] == ws[k];
      } else {
        assert hs[j] < hs[i - 1];
        AscendingIndex(hs, j, i - 1);
      }
    }
  }

  lemma CloseCovered(hs: seq<real>, counts: Counts, i: nat, st: Scan)
    requires Ascending(hs) && 0 < i <= |hs|
    requires ShortCovered(hs, counts, hs[|hs| - 1], i - 1, st) && OpenGood(hs, counts, i - 1, st)
    requires st.open.Some? && st.open.value != hs[i - 1]
    requires !Short(counts, hs[i - 1]) || hs[i - 1] == hs[|hs| - 1]
    ensures ShortCovered(hs, counts, hs[|hs| - 1], i, Scan(st.closed + [(st.open.value, hs[i - 1])], None))
  {
    var top := hs[|hs| - 1];
    var h := hs[i - 1];
    var o := st.open.value;
    var w := (o, h);
    var ws := st.closed;
    var ws' := ws + [w];
    forall j | 0 <= j < i && Short(counts, hs[j])
      ensures Covered(ws', hs[j]) || hs[j] == top
    {
      if j < i - 1 {
        if !Covered(ws, hs[j]) {
          assert o <= hs[j] < h;
        }
        CoveredAppend(ws, w, hs[j]);
      }
    }
  }

  /** One step of the scan keeps its invariant. */
  lemma ScanStepInv(hs: seq<real>, counts: Counts, i: nat, st: Scan)
    requires Ascending(hs) && 0 < i <= |hs|
    requires ScanInv(hs, counts, hs[|hs| - 1], i - 1, st)
    ensures ScanInv(hs, counts, hs[|hs| - 1], i, ScanStep(st, hs[i - 1], CountAt(counts, hs[i - 1]), hs[|hs| - 1]))
  {
    var top := hs[|hs| - 1];
    var h := hs[i - 1];
    if st.open.Some? {
      assert st.open.value <= hs[i - 2] < h;
    }
    if Short(counts, h) && st.open.None? {
      OpenStepInv(hs, counts, i, st);
    } else if st.open.Some? && (!Short(counts, h) || h == top) {
      CloseStepInv(hs, counts, i, st);
    } else {
      KeepStepInv(hs, counts, i, st);
    }
  }

  lemma {:induction false} ScanUpToInv(hs: seq<real>, counts: Counts, i: nat)
    requires Ascending(hs) && 0 < |hs| && i <= |hs|
    ensures ScanInv(hs, counts, hs[|hs| - 1], i, ScanUpTo(hs, counts, hs[|hs| - 1], i))
  {
    if i > 0 {
      ScanUpToInv(hs, counts, i - 1);
      ScanStepInv(hs, counts, i, ScanUpTo(hs, counts, hs[|hs| - 1], i - 1));
    }
  }

  /** An open window always starts before the next bucket, so the scan's `debut != h`
      test never fails on ascending buckets. */
  lemma OpenBeforeNextBucket(hs: seq<real>, counts: Counts, i: nat)
    requires Ascending(hs) && i < |hs|
    ensures var st := ScanUpTo(hs, counts, hs[|hs| - 1], i);
      st.open.Some? ==> st.open.value < hs[i]
  {
    ScanUpToInv(hs, counts, i);
    var st := ScanUpTo(hs, counts, hs[|hs| - 1], i);
    if st.open.Some? {
      assert st.open.value <= hs[i - 1] < hs[i];
    }
  }

  /** On ascending buckets the scan closes every window itself: the check after the loop
      never adds one. */
  lemma TrailingCheckIdle(hs: seq<real>, counts: Counts)
    requires Ascending(hs) && 0 < |hs|
    ensures Windows(hs, counts) == ScanUpTo(hs, counts, MaxOf(hs), |hs|).closed
  {
    MaxOfAscending(hs);
    var top := hs[|hs| - 1];
    var prev := ScanUpTo(hs, counts, top, |hs| - 1);
    assert ScanUpTo(hs, counts, top, |hs|) == ScanStep(prev, top, CountAt(counts, top), top);
  }

  /** The windows of a day, from ascending buckets: each starts at an understaffed bucket
      and ends, later, at a staffed bucket or the last one; they come in order without
      touching; every bucket inside a window is understaffed; and every understaffed
      bucket but the last lies inside a window. */
  lemma WindowsMeaning(hs: seq<real>, counts: Counts)
    requires Ascending(hs) && 0 < |hs|
    ensures var ws := Windows(hs, counts);
      (forall k :: 0 <= k < |ws| ==> GoodWindow(hs, counts, hs[|hs| - 1], ws[k]))
      && (forall k :: 0 <= k < |ws| - 1 ==> ws[k].1 < ws[k + 1].0)
      && (forall k, j :: 0 <= k < |ws| && 0 <= j < |hs| && ws[k].0 <= hs[j] < ws[k].1 ==> Short(counts, hs[j]))
      && (forall j :: 0 <= j < |hs| - 1 && Short(counts, hs[j]) ==> Covered(ws, hs[j]))
  {
    MaxOfAscending(hs);
    TrailingCheckIdle(hs, counts);
    var top := hs[|hs| - 1];
    ScanUpToInv(hs, counts, |hs|);
    var st := ScanUpTo(hs, counts, top, |hs|);
    var prev := ScanUpTo(hs, counts, top, |hs| - 1);
    assert st == ScanStep(prev, top, CountAt(counts, top), top);
    assert st.open.None? || st.open.value == top;
    forall j | 0 <= j < |hs| - 1 && Short(counts, hs[j]) ensures Covered(st.closed, hs[j]) {
      assert hs[j] < top;
    }
  }

  /** The scan of one day, as main.py writes it: `max(heures)` first, then the loop
      over the buckets, then the check for a window left open. */
  method ScanDay(hs: seq<real>, counts: Counts) returns (ws: seq<(real, real)>)
    ensures ws == Windows(hs, counts)
  {
    ws := [];
    if hs == [] {
      return;
    }
    var top := hs[0];
    var i := 1;
    while i < |hs|
      invariant 1 <= i <= |hs|
      invariant top == MaxOf(hs[..i])
    {
      assert hs[..i + 1][..i] == hs[..i];
      top := Max(top, hs[i]);
      i := i + 1;
    }
    assert hs[..|hs|] == hs;
    var open: Option<real> := None;
    i := 0;
    while i < |hs|
      invariant 0 <= i <= |hs|
      invariant Scan(ws, open) == ScanUpTo(hs, counts, top, i)
    {
      var h := hs[i];
      var n := if h in counts then counts[h] else 0;
      if n < MinimumStaff && open.None? {
        open := Some(h);
      } else if open.Some? && (n >= MinimumStaff || h == top) {
        if open.value != h {
          ws := ws + [(open.value, h)];
        }
        open := None;
      }
      i := i + 1;
    }
    if open.Some? && open.value != top {
      ws := ws + [(open.value, top)];
    }
  }
}
