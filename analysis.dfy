/** The planning analysis (`analyser_planning`): per-day presence buckets filled from the
    shifts of every day cell, then three kinds of finding: overlapping shifts in a cell, a
    total that differs from the contract, and stretches of the day with fewer than three
    people present. */
module Analysis {
  import opened Text
  import opened Intervals
  import opened Totals
  import opened Grid

  // ------------------------------------------------------------ buckets

  /** Python's `int(x)` on a number: the integer part, toward zero. */
  function Trunc(x: real): (n: int)
    ensures -1.0 < x - n as real < 1.0
    ensures x >= 0.0 ==> 0 <= n && n as real <= x
    ensures x < 0.0 ==> n <= 0 && x <= n as real
  {
    if x >= 0.0 then x.Floor else -((-x).Floor)
  }

  /** `round(h, 2)`. */
  function Round2(h: real): (r: real)
    ensures -0.005 <= r - h <= 0.005
  {
    RoundHalfEven(100.0 * h) as real / 100.0
  }

  /** Whole numbers are left as they are by `round(h, 2)`, and so are quarters. */
  lemma Round2Quarters(n: int, q: nat)
    requires q < 4
    ensures Round2(n as real + q as real / 4.0) == n as real + q as real / 4.0
  {
    var x := 100.0 * (n as real + q as real / 4.0);
    assert x == (100 * n + 25 * q) as real;
    var k := RoundHalfEven(x);
    assert -0.5 <= k as real - x <= 0.5;
    assert k == 100 * n + 25 * q;
  }

  /** The values the `while h + 1 <= end` loop of `generate_hours` appends, from `h` on. */
  function HourSteps(h: real, end: real): (hs: seq<real>)
    decreases (end - h).Floor
  {
    if h + 1.0 <= end then [Round2(h)] + HourSteps(h + 1.0, end) else []
  }

  /** `generate_hours(start, end)`: `start`, `start + 1`, ... while the next hour still
      fits before `end`, each rounded to hundredths, then `end` itself when its
      fractional part rounds to a quarter. */
  function GeneratedHours(start: real, end: real): seq<real> {
    HourSteps(start, end) + (if Round2(end - Trunc(end) as real) == 0.25 then [Round2(end)] else [])
  }

  method GenerateHours(start: real, end: real) returns (hours: seq<real>)
    ensures hours == GeneratedHours(start, end)
  {
    hours := [];
    var h := start;
    while h + 1.0 <= end
      invariant hours + HourSteps(h, end) == HourSteps(start, end)
      decreases (end - h).Floor
    {
      hours := hours + [Round2(h)];
      h := h + 1.0;
    }
    if Round2(end - Trunc(end) as real) == 0.25 {
      hours := hours + [Round2(end)];
    }
  }

  /** The whole hours `s, s + 1, ..., n - 1`. */
  function WholeHours(s: int, n: int): (hs: seq<real>)
    decreases n - s
  {
    if s < n then [s as real] + WholeHours(s + 1, n) else []
  }

  predicate IsWhole(x: real) {
    x == x.Floor as real
  }

  lemma {:induction false} WholeHoursMembers(s: int, n: int)
    ensures forall x :: x in WholeHours(s, n) <==> IsWhole(x) && s as real <= x < n as real
    ensures forall i :: 0 <= i < |WholeHours(s, n)| ==> WholeHours(s, n)[i] == (s + i) as real
    ensures |WholeHours(s, n)| == if s < n then n - s else 0
    decreases n - s
  {
    if s < n {
      WholeHoursMembers(s + 1, n);
      var w := WholeHours(s, n);
      assert w == [s as real] + WholeHours(s + 1, n);
      forall x ensures x in w <==> IsWhole(x) && s as real <= x < n as real {
        if IsWhole(x) && s as real <= x < n as real && x != s as real {
          assert (s + 1) as real <= x by {
            assert x.Floor > s;
          }
        }
      }
    }
  }

  lemma {:induction false} HourStepsWhole(s: int, n: int)
    ensures HourSteps(s as real, n as real + 0.25) == WholeHours(s, n)
    decreases n - s
  {
    if s < n {
      Round2Quarters(s, 0);
      HourStepsWhole(s + 1, n);
      assert (s + 1) as real == s as real + 1.0;
    }
  }

  /** From a whole start `s` to an end `n + 0.25`, the buckets are the whole hours
      `s .. n - 1` and then the end. */
  lemma GeneratedWhole(s: int, n: nat)
    ensures GeneratedHours(s as real, n as real + 0.25) == WholeHours(s, n) + [n as real + 0.25]
  {
    HourStepsWhole(s, n);
    var e := n as real + 0.25;
    assert Trunc(e) == n;
    Round2Quarters(0, 1);
    Round2Quarters(n, 1);
  }

  const Sunday: nat := 6

  /** The bounds `generate_hours` is given for day `d` (Monday is 0): 7 to 21.25, and 8 to
      13.25 on Sunday. */
  function DayStart(d: nat): real {
    if d == Sunday then 8.0 else 7.0
  }

  function DayEnd(d: nat): real {
    if d == Sunday then 13.25 else 21.25
  }

  /** The buckets of day `d`. */
  function DayBuckets(d: nat): seq<real> {
    GeneratedHours(DayStart(d), DayEnd(d))
  }

  /** The buckets are 7, 8, ..., 20 and 21.25 on weekdays, and 8, ..., 12 and 13.25 on
      Sunday; there is no bucket at 21 nor at 13. */
  lemma DayBucketsAre(d: nat)
    ensures d != Sunday ==> DayBuckets(d) == WholeHours(7, 21) + [21.25]
    ensures d == Sunday ==> DayBuckets(d) == WholeHours(8, 13) + [13.25]
    ensures d != Sunday ==> forall x :: x in DayBuckets(d) <==> (IsWhole(x) && 7.0 <= x < 21.0) || x == 21.25
    ensures d == Sunday ==> forall x :: x in DayBuckets(d) <==> (IsWhole(x) && 8.0 <= x < 13.0) || x == 13.25
  {
    GeneratedWhole(7, 21);
    GeneratedWhole(8, 13);
    WholeHoursMembers(7, 21);
    WholeHoursMembers(8, 13);
  }

  predicate Ascending(hs: seq<real>) {
    forall i, j :: 0 <= i < j < |hs| ==> hs[i] < hs[j]
  }

  /** Each day's buckets come in strictly ascending order, so they are also what
      `sorted` gives back. */
  lemma DayBucketsAscending(d: nat)
    ensures Ascending(DayBuckets(d)) && |DayBuckets(d)| >= 1
  {
    DayBucketsAre(d);
    WholeHoursMembers(7, 21);
    WholeHoursMembers(8, 13);
  }

  // ------------------------------------------------------------ the presence walk

  /** A day's counters: bucket to the number of people present. */
  type Counts = map<real, int>

  function Zeroes(hs: seq<real>): (m: Counts)
    ensures forall x :: x in m <==> x in hs
    ensures forall x :: x in m ==> m[x] == 0
  {
    map x | x in hs :: 0
  }

  /** The walk's step: a whole hour while the next hour is at most 21, a quarter after. */
  function Step(h: real): real {
    if h + 1.0 <= 21.0 then 1.0 else 0.25
  }

  /** `presence[h] += 1` when `h` is a bucket. */
  function Bump(counts: Counts, h: real): Counts {
    if h in counts then counts[h := counts[h] + 1] else counts
  }

  /** The `while h < fin` walk from `h`. */
  function Walk(counts: Counts, h: real, fin: real): Counts
    decreases ((fin - h) * 4.0).Floor
  {
    if h < fin then Walk(Bump(counts, h), h + Step(h), fin) else counts
  }

  /** The points the walk from `h` visits. */
  function WalkPoints(h: real, fin: real): set<real>
    decreases ((fin - h) * 4.0).Floor
  {
    if h < fin then {h} + WalkPoints(h + Step(h), fin) else {}
  }

  /** One interval's contribution; an interval whose start equals its end is skipped. */
  function AddPresence(counts: Counts, iv: Interval): Counts {
    if iv.start == iv.end then counts else Walk(counts, iv.start, iv.end)
  }

  lemma {:induction false} WalkPointsRange(h: real, fin: real)
    ensures forall p :: p in WalkPoints(h, fin) ==> h <= p < fin
    decreases ((fin - h) * 4.0).Floor
  {
    if h < fin {
      WalkPointsRange(h + Step(h), fin);
    }
  }

  /** The walk keeps the buckets and adds one to each bucket it visits, once. */
  lemma {:induction false} WalkCounts(counts: Counts, h: real, fin: real)
    ensures Walk(counts, h, fin).Keys == counts.Keys
    ensures forall b :: b in counts ==>
      Walk(counts, h, fin)[b] == counts[b] + (if b in WalkPoints(h, fin) then 1 else 0)
    decreases ((fin - h) * 4.0).Floor
  {
    if h < fin {
      var h' := h + Step(h);
      WalkCounts(Bump(counts, h), h', fin);
      WalkPointsRange(h', fin);
    }
  }

  /** From a whole hour, with the end at 21 at the latest, the walk visits exactly the
      whole hours from the start up to the end. */
  lemma {:induction false} WholeWalkPoints(s: int, fin: real)
    requires fin <= 21.0
    ensures forall p :: p in WalkPoints(s as real, fin) <==> IsWhole(p) && s as real <= p < fin
    decreases ((fin - s as real) * 4.0).Floor
  {
    if s as real < fin {
      assert Step(s as real) == 1.0;
      assert (s + 1) as real == s as real + 1.0;
      assert WalkPoints(s as real, fin) == {s as real} + WalkPoints((s + 1) as real, fin);
      WholeWalkPoints(s + 1, fin);
      assert IsWhole(s as real) by {
        assert (s as real).Floor == s;
      }
      forall p ensures p in WalkPoints(s as real, fin) <==> IsWhole(p) && s as real <= p < fin {
        if IsWhole(p) && s as real <= p < fin && p != s as real {
          assert (s + 1) as real <= p by {
            assert p.Floor > s;
          }
        }
      }
    } else {
      assert WalkPoints(s as real, fin) == {};
    }
  }

  /** An interval keeps the buckets, adds one to each bucket it visits and nothing to the
      others; one that does not go forward visits nothing. */
  lemma AddPresenceCounts(counts: Counts, iv: Interval)
    ensures AddPresence(counts, iv).Keys == counts.Keys
    ensures forall b :: b in counts ==>
      AddPresence(counts, iv)[b] == counts[b] + (if b in WalkPoints(iv.start, iv.end) then 1 else 0)
    ensures iv.end <= iv.start ==> AddPresence(counts, iv) == counts
  {
    WalkCounts(counts, iv.start, iv.end);
    if iv.end <= iv.start {
      assert WalkPoints(iv.start, iv.end) == {};
    }
  }

  /** A shift from a whole hour `s` ending by 21 adds exactly one to each whole-hour
      bucket in `[s, end)` and nothing to any other bucket. */
  lemma WholeShiftCounts(counts: Counts, s: int, fin: real)
    requires fin <= 21.0
    ensures AddPresence(counts, Interval(s as real, fin)).Keys == counts.Keys
    ensures forall b :: b in counts ==>
      AddPresence(counts, Interval(s as real, fin))[b]
        == counts[b] + (if IsWhole(b) && s as real <= b < fin then 1 else 0)
  {
    AddPresenceCounts(counts, Interval(s as real, fin));
    WholeWalkPoints(s, fin);
    forall b | b in counts
      ensures AddPresence(counts, Interval(s as real, fin))[b]
        == counts[b] + (if IsWhole(b) && s as real <= b < fin then 1 else 0)
    {
      assert b in WalkPoints(s as real, fin) <==> IsWhole(b) && s as real <= b < fin;
    }
  }

  /** The `while h < fin` loop of the analyser for one shift. */
  method WalkShift(counts: Counts, debut: real, fin: real) returns (c: Counts)
    ensures c == AddPresence(counts, Interval(debut, fin))
  {
    c := counts;
    if debut == fin {
      return;
    }
    var h := debut;
    while h < fin
      invariant Walk(c, h, fin) == Walk(counts, debut, fin)
      decreases ((fin - h) * 4.0).Floor
    {
      if h in c {
        c := c[h := c[h] + 1];
      }
      h := h + (if h + 1.0 <= 21.0 then 1.0 else 0.25);
    }
  }
}
