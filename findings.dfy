/** What `analyser_planning` reports, row by row and then day by day: overlapping shifts in
    a day cell, a weekly total that differs from the contract, and understaffed windows
    computed from the presence counters the shifts of every row fill. */
module Findings {
  import opened Text
  import opened Intervals
  import opened Totals
  import opened Grid
  import opened Analysis
  import opened Understaffing

  /** One line of the report. Days are numbered from Monday, 0, to Sunday, 6. */
  datatype Finding =
    | Overlap(name: string, day: nat)
    | Deviation(name: string, surplus: bool, amount: real, hours: nat)
    | Understaffed(day: nat, from: real, to: real)

  const Days: nat := 7

  /** The day names of the report and of saved plannings, Monday first. */
  const DayNames: seq<string> := ["lundi", "mardi", "mercredi", "jeudi", "vendredi", "samedi", "dimanche"]

  // ------------------------------------------------------------ overlaps

  /** The `any(chevauche(h1, h2) ...)` test over the pairs of a cell's shifts, stopping at
      the first overlapping pair. */
  method AnyOverlap(ivs: seq<Interval>) returns (found: bool)
    ensures found == HasOverlap(ivs)
  {
    var i := 0;
    while i < |ivs|
      invariant 0 <= i <= |ivs|
      invariant forall a, b :: 0 <= a < i && a < b < |ivs| ==> !Overlaps(ivs[a], ivs[b])
    {
      var j := i + 1;
      while j < |ivs|
        invariant i + 1 <= j <= |ivs|
        invariant forall b :: i < b < j ==> !Overlaps(ivs[i], ivs[b])
      {
        if Max(ivs[i].start, ivs[j].start) < Min(ivs[i].end, ivs[j].end) {
          assert Overlaps(ivs[i], ivs[j]);
          return true;
        }
        j := j + 1;
      }
      i := i + 1;
    }
    return false;
  }

  // ------------------------------------------------------------ the contract

  /** The contracts whose hours the analyser compares with the total. */
  predicate Compared(contract: string) {
    contract == "33h" || contract == "35h" || contract == "39h" || contract == "ALTERNANT"
  }

  /** The contract hours of the comparison; students, the owner and unknown contracts have
      none. */
  function ContractHours(contract: string): (h: nat)
    ensures h > 0 <==> Compared(contract)
    ensures h in {0, 33, 35, 39}
  {
    if contract == Student || contract == "PATRON" then 0
    else if contract == "33h" then 33
    else if contract == "35h" then 35
    else if contract == "39h" then 39
    else if contract == "ALTERNANT" then 35
    else 0
  }

  /** The comparison uses the baseline the row total gives paid leave, except that a
      student, whose paid leave counts 35 hours, is never compared. */
  lemma ContractHoursBaseline(contract: string)
    ensures contract != Student ==> ContractHours(contract) as real == TotalBaseline(contract)
    ensures ContractHours(Student) == 0 && TotalBaseline(Student) == 35.0
  {
  }

  /** The deviation finding of a row: present exactly when the contract is compared and the
      total differs from its hours; it says which way and by how much. */
  function DeviationFindings(name: string, contract: string, total: real): (fs: seq<Finding>)
    ensures |fs| <= 1
    ensures fs != [] <==> Compared(contract) && total != ContractHours(contract) as real
    ensures fs != [] ==>
      var f := fs[0];
      f.Deviation? && f.name == name && f.hours == ContractHours(contract) && f.amount > 0.0
      && (f.surplus <==> total > f.hours as real)
      && total == (if f.surplus then f.hours as real + f.amount else f.hours as real - f.amount)
  {
    var hours := ContractHours(contract);
    var difference := total - hours as real;
    if hours > 0 && difference != 0.0 then
      [Deviation(name, difference > 0.0, if difference > 0.0 then difference else -difference, hours)]
    else []
  }

  // ------------------------------------------------------------ reading a row

  /** What the analysis reads from a row: the stripped name, the shifts of each day and
      the total. */
  datatype RowData = RowData(name: string, days: seq<seq<Interval>>, total: real)

  /** The shifts of a day cell: none when it is blank, otherwise those of its stripped
      text. */
  function CellShifts(text: string): (ivs: seq<Interval>)
    ensures Strip(text) == "" ==> ivs == []
  {
    var t := Strip(text);
    if t == "" then [] else ExtractIntervals(t)
  }

  /** The shifts of each of `texts`. */
  function ShiftsOfCells(texts: seq<string>): (r: seq<seq<Interval>>)
    ensures |r| == |texts| && forall i :: 0 <= i < |texts| ==> r[i] == CellShifts(texts[i])
  {
    if texts == [] then [] else [CellShifts(texts[0])] + ShiftsOfCells(texts[1..])
  }

  function ReadRow(row: seq<string>): (data: RowData)
    requires |row| == ColumnCount
    ensures |data.days| == Days
  {
    RowData(Strip(row[0]), ShiftsOfCells(row[1..TotalColumn]), ReadTotal(row[TotalColumn]))
  }

  function ReadRows(cells: seq<seq<string>>): (rows: seq<RowData>)
    requires Shaped(cells)
    ensures |rows| == |cells| && forall r :: 0 <= r < |rows| ==> rows[r] == ReadRow(cells[r])
    ensures Wellformed(rows)
  {
    if cells == [] then [] else [ReadRow(cells[0])] + ReadRows(cells[1..])
  }

  /** A row's data is its stripped name, the shifts of its day cells and its total. */
  lemma ReadRowMeaning(cells: seq<seq<string>>, r: nat, d: nat)
    requires Shaped(cells) && r < |cells| && d < Days
    ensures ReadRows(cells)[r].name == Strip(cells[r][0])
    ensures ReadRows(cells)[r].days[d] == CellShifts(cells[r][d + 1])
    ensures ReadRows(cells)[r].total == ReadTotal(cells[r][TotalColumn])
  {
    ReadRowParts(cells[r], d);
  }

  lemma ReadRowParts(row: seq<string>, d: nat)
    requires |row| == ColumnCount && d < Days
    ensures ReadRow(row).name == Strip(row[0]) && ReadRow(row).total == ReadTotal(row[TotalColumn])
    ensures ReadRow(row).days[d] == CellShifts(row[d + 1])
  {
    assert row[1..TotalColumn][d] == row[d + 1];
  }

  predicate Wellformed(rows: seq<RowData>) {
    forall r :: 0 <= r < |rows| ==> |rows[r].days| == Days
  }

  // ------------------------------------------------------------ one row

  /** The counters after the shifts `ivs`, in order. */
  function AddShifts(counts: Counts, ivs: seq<Interval>): (c: Counts)
    ensures c.Keys == counts.Keys
  {
    if ivs == [] then counts
    else
      var prev := AddShifts(counts, ivs[..|ivs| - 1]);
      AddPresenceCounts(prev, ivs[|ivs| - 1]);
      AddPresence(prev, ivs[|ivs| - 1])
  }

  /** How many of the shifts `ivs` the walk takes through bucket `b`. */
  function Visits(ivs: seq<Interval>, b: real): (n: nat)
    ensures n <= |ivs|
  {
    if ivs == [] then 0
    else Visits(ivs[..|ivs| - 1], b) + (if b in WalkPoints(ivs[|ivs| - 1].start, ivs[|ivs| - 1].end) then 1 else 0)
  }

  /** Every bucket gains one for each shift that visits it. */
  lemma {:induction false} AddShiftsCounts(counts: Counts, ivs: seq<Interval>)
    ensures forall b :: b in counts ==> AddShifts(counts, ivs)[b] == counts[b] + Visits(ivs, b)
  {
    if ivs != [] {
      var prev := AddShifts(counts, ivs[..|ivs| - 1]);
      AddShiftsCounts(counts, ivs[..|ivs| - 1]);
      AddPresenceCounts(prev, ivs[|ivs| - 1]);
    }
  }

  /** The days `0 .. k - 1` of a row: an overlap finding for each day whose shifts
      overlap, in day order, and the presence after their shifts. */
  function ScanDays(data: RowData, presence: seq<Counts>, k: nat): (r: (seq<Finding>, seq<Counts>))
    requires |data.days| == Days && |presence| == Days && k <= Days
    ensures |r.1| == Days && forall d :: 0 <= d < Days ==> r.1[d].Keys == presence[d].Keys
  {
    if k == 0 then ([], presence)
    else
      var prev := ScanDays(data, presence, k - 1);
      var d := k - 1;
      var ivs := data.days[d];
      (prev.0 + (if HasOverlap(ivs) then [Overlap(data.name, d)] else []), prev.1[d := AddShifts(prev.1[d], ivs)])
  }

  lemma ScanDaysNext(data: RowData, presence: seq<Counts>, d: nat)
    requires |data.days| == Days && |presence| == Days && d < Days
    ensures var prev, ivs := ScanDays(data, presence, d), data.days[d];
      ScanDays(data, presence, d + 1)
        == (prev.0 + (if HasOverlap(ivs) then [Overlap(data.name, d)] else []), prev.1[d := AddShifts(prev.1[d], ivs)])
  {
  }

  /** The deviation finding of a row, its contract looked up by exact name. */
  function RowDeviation(data: RowData, roster: seq<Employee>): seq<Finding> {
    DeviationFindings(data.name, ContractOf(roster, data.name), data.total)
  }

  /** One row of the analysis: its overlap findings, then its deviation finding, and the
      presence after its shifts. */
  function RowFindings(data: RowData, roster: seq<Employee>, presence: seq<Counts>): (r: (seq<Finding>, seq<Counts>))
    requires |data.days| == Days && |presence| == Days
    ensures |r.1| == Days && forall d :: 0 <= d < Days ==> r.1[d].Keys == presence[d].Keys
  {
    var days := ScanDays(data, presence, Days);
    (days.0 + RowDeviation(data, roster), days.1)
  }

  lemma RowFindingsOf(data: RowData, roster: seq<Employee>, presence: seq<Counts>, fs: seq<Finding>, p: seq<Counts>)
    requires |data.days| == Days && |presence| == Days && (fs, p) == ScanDays(data, presence, Days)
    ensures RowFindings(data, roster, presence) == (fs + RowDeviation(data, roster), p)
  {
  }

  /** The overlap findings of the days `0 .. k - 1` name the row and exactly the days
      whose shifts overlap. */
  lemma {:induction false} ScanDaysOverlaps(data: RowData, presence: seq<Counts>, k: nat)
    requires |data.days| == Days && |presence| == Days && k <= Days
    ensures forall f :: f in ScanDays(data, presence, k).0 <==>
      f.Overlap? && f.name == data.name && f.day < k && HasOverlap(data.days[f.day])
  {
    if k > 0 {
      ScanDaysOverlaps(data, presence, k - 1);
    }
  }

  /** The days `0 .. k - 1` add each day's shifts to its counters and leave the other days
      alone. */
  lemma {:induction false} ScanDaysPresence(data: RowData, presence: seq<Counts>, k: nat)
    requires |data.days| == Days && |presence| == Days && k <= Days
    ensures forall d :: 0 <= d < Days ==>
      ScanDays(data, presence, k).1[d] == if d < k then AddShifts(presence[d], data.days[d]) else presence[d]
  {
    if k > 0 {
      ScanDaysPresence(data, presence, k - 1);
      var prev := ScanDays(data, presence, k - 1);
      var r := ScanDays(data, presence, k);
      assert r.1 == prev.1[k - 1 := AddShifts(prev.1[k - 1], data.days[k - 1])];
      forall d | 0 <= d < Days
        ensures r.1[d] == if d < k then AddShifts(presence[d], data.days[d]) else presence[d]
      {
        if d == k - 1 {
          assert prev.1[d] == presence[d];
        } else {
          assert r.1[d] == prev.1[d];
        }
      }
    }
  }

  // ------------------------------------------------------------ the planning

  /** The counters of every day at the start: each bucket at zero. */
  function InitialPresence(): (p: seq<Counts>)
    ensures |p| == Days
  {
    seq(Days, d requires 0 <= d < Days => Zeroes(DayBuckets(d)))
  }

  /** The findings of rows `0 .. n - 1`, in row order, and the presence after them. */
  function Rows(rows: seq<RowData>, roster: seq<Employee>, n: nat): (r: (seq<Finding>, seq<Counts>))
    requires Wellformed(rows) && n <= |rows|
    ensures |r.1| == Days && forall d :: 0 <= d < Days ==> r.1[d].Keys == Zeroes(DayBuckets(d)).Keys
    decreases n, 1
  {
    if n == 0 then ([], InitialPresence()) else RowsAfter(rows, roster, n)
  }

  /** Row `n - 1` read after the rows above it: their findings followed by its own, and
      the presence it leaves. */
  function RowsAfter(rows: seq<RowData>, roster: seq<Employee>, n: nat): (r: (seq<Finding>, seq<Counts>))
    requires Wellformed(rows) && 0 < n <= |rows|
    ensures |r.1| == Days && forall d :: 0 <= d < Days ==> r.1[d].Keys == Zeroes(DayBuckets(d)).Keys
    decreases n, 0
  {
    var prev := Rows(rows, roster, n - 1);
    var row := RowFindings(rows[n - 1], roster, prev.1);
    (prev.0 + row.0, row.1)
  }

  /** The findings reporting the windows `ws` of day `d`, in order. */
  function AsFindings(d: nat, ws: seq<(real, real)>): (fs: seq<Finding>)
    ensures |fs| == |ws| && forall i :: 0 <= i < |ws| ==> fs[i] == Understaffed(d, ws[i].0, ws[i].1)
  {
    if ws == [] then [] else AsFindings(d, ws[..|ws| - 1]) + [Understaffed(d, ws[|ws| - 1].0, ws[|ws| - 1].1)]
  }

  /** The windows the scan finds on each day `0 .. k - 1`, with the counters `presence`. */
  function WindowsUpTo(presence: seq<Counts>, k: nat): (w: seq<seq<(real, real)>>)
    requires |presence| == Days && k <= Days
    ensures |w| == k && forall d :: 0 <= d < k ==> w[d] == Windows(DayBuckets(d), presence[d])
  {
    if k == 0 then [] else WindowsUpTo(presence, k - 1) + [Windows(DayBuckets(k - 1), presence[k - 1])]
  }

  /** The windows of every day of the week. */
  function AllWindows(presence: seq<Counts>): (w: seq<seq<(real, real)>>)
    requires |presence| == Days
    ensures |w| == Days
  {
    WindowsUpTo(presence, Days)
  }

  /** The findings reporting the windows `w` of each day `0 .. k - 1`, day by day. */
  function StaffFindings(w: seq<seq<(real, real)>>, k: nat): seq<Finding>
    requires k <= |w|
  {
    if k == 0 then [] else StaffFindings(w, k - 1) + AsFindings(k - 1, w[k - 1])
  }

  /** The presence of every day after all the rows. */
  function FinalPresence(rows: seq<RowData>, roster: seq<Employee>): (p: seq<Counts>)
    requires Wellformed(rows)
    ensures |p| == Days
  {
    Rows(rows, roster, |rows|).1
  }

  /** The analysis of read rows: the row findings, then the understaffed windows. */
  function AnalyseRows(rows: seq<RowData>, roster: seq<Employee>): seq<Finding>
    requires Wellformed(rows)
  {
    Rows(rows, roster, |rows|).0 + StaffFindings(AllWindows(FinalPresence(rows, roster)), Days)
  }

  /** The whole analysis of a grid. */
  function Analyse(cells: seq<seq<string>>, roster: seq<Employee>): seq<Finding>
    requires Shaped(cells)
  {
    AnalyseRows(ReadRows(cells), roster)
  }

  // ------------------------------------------------------------ meaning

  /** How many shifts of day `d`, over rows `0 .. n - 1`, visit bucket `b`. */
  function DayVisits(rows: seq<RowData>, d: nat, b: real, n: nat): nat
    requires Wellformed(rows) && n <= |rows| && d < Days
  {
    if n == 0 then 0 else DayVisits(rows, d, b, n - 1) + Visits(rows[n - 1].days[d], b)
  }

  /** The counter of each bucket is the number of shifts, over all rows, whose walk visits
      it: the roster plays no part. */
  lemma {:induction false} RowsPresence(rows: seq<RowData>, roster: seq<Employee>, n: nat)
    requires Wellformed(rows) && n <= |rows|
    ensures forall d, b :: 0 <= d < Days && b in DayBuckets(d) ==>
      b in Rows(rows, roster, n).1[d] && Rows(rows, roster, n).1[d][b] == DayVisits(rows, d, b, n)
    decreases n, 1
  {
    if n > 0 {
      forall d, b | 0 <= d < Days && b in DayBuckets(d)
        ensures b in Rows(rows, roster, n).1[d] && Rows(rows, roster, n).1[d][b] == DayVisits(rows, d, b, n)
      {
        RowPresenceStep(rows, roster, n, d, b);
      }
    }
  }

  /** Row `n - 1` adds its visits of bucket `b` of day `d` to the counter. */
  lemma RowPresenceStep(rows: seq<RowData>, roster: seq<Employee>, n: nat, d: nat, b: real)
    requires Wellformed(rows) && 0 < n <= |rows| && d < Days && b in DayBuckets(d)
    ensures b in Rows(rows, roster, n).1[d] && Rows(rows, roster, n).1[d][b] == DayVisits(rows, d, b, n)
    decreases n, 0
  {
    RowsPresence(rows, roster, n - 1);
    var prev := Rows(rows, roster, n - 1);
    ScanDaysPresence(rows[n - 1], prev.1, Days);
    AddShiftsCounts(prev.1[d], rows[n - 1].days[d]);
  }

  /** Row `r` has overlapping shifts on day `d`. */
  predicate OverlapAt(rows: seq<RowData>, r: int, d: int) {
    0 <= r < |rows| && 0 <= d < |rows[r].days| && HasOverlap(rows[r].days[d])
  }

  /** The row findings hold no understaffing. */
  lemma {:induction false} RowsNoUnderstaffing(rows: seq<RowData>, roster: seq<Employee>, n: nat)
    requires Wellformed(rows) && n <= |rows|
    ensures forall f :: f in Rows(rows, roster, n).0 ==> !f.Understaffed?
  {
    if n > 0 {
      RowsNoUnderstaffing(rows, roster, n - 1);
      ScanDaysOverlaps(rows[n - 1], Rows(rows, roster, n - 1).1, Days);
    }
  }

  /** The findings of rows `0 .. n - 1` hold an overlap finding for exactly each of those
      rows and days whose shifts overlap. */
  ghost predicate OverlapsListed(rows: seq<RowData>, roster: seq<Employee>, n: nat)
    requires Wellformed(rows) && n <= |rows|
  {
    forall f: Finding :: f.Overlap? ==> (f in Rows(rows, roster, n).0 <==>
      exists r :: 0 <= r < n && f.name == rows[r].name && OverlapAt(rows, r, f.day))
  }

  /** The row findings hold an overlap finding for exactly each row and day whose shifts
      overlap. */
  lemma {:induction false} RowsOverlaps(rows: seq<RowData>, roster: seq<Employee>, n: nat)
    requires Wellformed(rows) && n <= |rows|
    ensures OverlapsListed(rows, roster, n)
  {
    if n > 0 {
      RowsOverlaps(rows, roster, n - 1);
      RowOverlapsAll(rows, roster, n);
    }
  }

  lemma RowOverlapsAll(rows: seq<RowData>, roster: seq<Employee>, n: nat)
    requires Wellformed(rows) && 0 < n <= |rows| && OverlapsListed(rows, roster, n - 1)
    ensures OverlapsListed(rows, roster, n)
  {
    forall f: Finding | f.Overlap?
      ensures f in Rows(rows, roster, n).0 <==> exists r :: 0 <= r < n && f.name == rows[r].name && OverlapAt(rows, r, f.day)
    {
      RowOverlapsStep(rows, roster, n, f);
    }
  }

  lemma RowOverlapsStep(rows: seq<RowData>, roster: seq<Employee>, n: nat, f: Finding)
    requires Wellformed(rows) && 0 < n <= |rows| && f.Overlap?
    requires f in Rows(rows, roster, n - 1).0 <==>
      exists r :: 0 <= r < n - 1 && f.name == rows[r].name && OverlapAt(rows, r, f.day)
    ensures f in Rows(rows, roster, n).0 <==>
      exists r :: 0 <= r < n && f.name == rows[r].name && OverlapAt(rows, r, f.day)
  {
    var prev := Rows(rows, roster, n - 1);
    var data := rows[n - 1];
    ScanDaysOverlaps(data, prev.1, Days);
    var days := ScanDays(data, prev.1, Days).0;
    var dev := RowDeviation(data, roster);
    assert Rows(rows, roster, n).0 == prev.0 + (days + dev);
    assert f !in dev;
    if f in days {
      assert f.name == rows[n - 1].name && OverlapAt(rows, n - 1, f.day);
    }
    if exists r :: 0 <= r < n && f.name == rows[r].name && OverlapAt(rows, r, f.day) {
      var r :| 0 <= r < n && f.name == rows[r].name && OverlapAt(rows, r, f.day);
      if r == n - 1 {
        assert f in days;
      }
    }
  }

  /** The findings of rows `0 .. n - 1` hold a deviation finding for exactly each of those
      rows whose compared contract differs from its total. */
  ghost predicate DeviationsListed(rows: seq<RowData>, roster: seq<Employee>, n: nat)
    requires Wellformed(rows) && n <= |rows|
  {
    forall f: Finding :: f.Deviation? ==> (f in Rows(rows, roster, n).0 <==>
      exists r :: 0 <= r < n && f in RowDeviation(rows[r], roster))
  }

  /** The row findings hold a deviation finding for exactly each row whose compared
      contract differs from its total. */
  lemma {:induction false} RowsDeviations(rows: seq<RowData>, roster: seq<Employee>, n: nat)
    requires Wellformed(rows) && n <= |rows|
    ensures DeviationsListed(rows, roster, n)
  {
    if n > 0 {
      RowsDeviations(rows, roster, n - 1);
      RowDeviationsAll(rows, roster, n);
    }
  }

  /** Row `n - 1` adds its own deviation finding, if any. */
  lemma RowDeviationsAll(rows: seq<RowData>, roster: seq<Employee>, n: nat)
    requires Wellformed(rows) && 0 < n <= |rows| && DeviationsListed(rows, roster, n - 1)
    ensures DeviationsListed(rows, roster, n)
  {
    forall f: Finding | f.Deviation?
      ensures f in Rows(rows, roster, n).0 <==> exists r :: 0 <= r < n && f in RowDeviation(rows[r], roster)
    {
      RowDeviationStep(rows, roster, n, f);
    }
  }

  lemma RowDeviationStep(rows: seq<RowData>, roster: seq<Employee>, n: nat, f: Finding)
    requires Wellformed(rows) && 0 < n <= |rows| && f.Deviation?
    requires f in Rows(rows, roster, n - 1).0 <==> exists r :: 0 <= r < n - 1 && f in RowDeviation(rows[r], roster)
    ensures f in Rows(rows, roster, n).0 <==> exists r :: 0 <= r < n && f in RowDeviation(rows[r], roster)
  {
    var prev := Rows(rows, roster, n - 1);
    var data := rows[n - 1];
    ScanDaysOverlaps(data, prev.1, Days);
    var days := ScanDays(data, prev.1, Days).0;
    var dev := RowDeviation(data, roster);
    assert Rows(rows, roster, n).0 == prev.0 + (days + dev);
    assert f !in days;
    if f in dev {
      assert f in RowDeviation(rows[n - 1], roster);
    }
  }

  /** The understaffed findings of the days `0 .. k - 1` are their windows. */
  lemma {:induction false} StaffFindingsMeaning(w: seq<seq<(real, real)>>, k: nat)
    requires k <= |w|
    ensures forall f :: f in StaffFindings(w, k) <==> f.Understaffed? && f.day < k && (f.from, f.to) in w[f.day]
  {
    if k > 0 {
      StaffFindingsMeaning(w, k - 1);
      var d := k - 1;
      var ws := w[d];
      var tail := AsFindings(d, ws);
      assert StaffFindings(w, k) == StaffFindings(w, k - 1) + tail;
      forall f ensures f in tail <==> f.Understaffed? && f.day == d && (f.from, f.to) in ws {
        if f.Understaffed? && f.day == d && (f.from, f.to) in ws {
          var i :| 0 <= i < |ws| && ws[i] == (f.from, f.to);
          assert tail[i] == f;
        }
      }
    }
  }

  /** The report: an overlap finding for exactly each row and day whose shifts overlap, a
      deviation finding for exactly each row whose compared contract differs from its
      total, and an understaffed finding for exactly each window the scan of a day's
      buckets finds with the counters all the rows fill. */
  lemma AnalyseMeaning(rows: seq<RowData>, roster: seq<Employee>)
    requires Wellformed(rows)
    ensures forall f: Finding :: f.Understaffed? ==> (f in AnalyseRows(rows, roster) <==>
      f.day < Days && (f.from, f.to) in Windows(DayBuckets(f.day), FinalPresence(rows, roster)[f.day]))
    ensures forall f: Finding :: f.Overlap? ==> (f in AnalyseRows(rows, roster) <==>
      exists r :: 0 <= r < |rows| && f.name == rows[r].name && OverlapAt(rows, r, f.day))
    ensures forall f: Finding :: f.Deviation? ==> (f in AnalyseRows(rows, roster) <==>
      exists r :: 0 <= r < |rows| && f in RowDeviation(rows[r], roster))
  {
    RowsNoUnderstaffing(rows, roster, |rows|);
    RowsOverlaps(rows, roster, |rows|);
    RowsDeviations(rows, roster, |rows|);
    StaffFindingsMeaning(AllWindows(FinalPresence(rows, roster)), Days);
  }

  // ------------------------------------------------------------ the analyser

  /** `analyser_planning` up to the message box: the buckets of every day, the loop over
      the rows and their day cells, then the scan of every day. */
  method AnalysePlanning(cells: seq<seq<string>>, roster: seq<Employee>) returns (findings: seq<Finding>)
    requires Shaped(cells)
    ensures findings == Analyse(cells, roster)
  {
    ghost var rows := ReadRows(cells);
    var presence := InitialCounters();
    findings := [];
    var r := 0;
    while r < |cells|
      invariant 0 <= r <= |cells|
      invariant (findings, presence) == Rows(rows, roster, r)
    {
      findings, presence := AnalyseNextRow(cells, roster, r, findings, presence);
      r := r + 1;
    }
    findings := ReportUnderstaffing(findings, presence);
  }

  /** `presence_par_jour`: every bucket of every day at zero. */
  method InitialCounters() returns (presence: seq<Counts>)
    ensures presence == InitialPresence()
  {
    presence := [];
    var d := 0;
    while d < Days
      invariant 0 <= d <= Days && |presence| == d
      invariant forall e :: 0 <= e < d ==> presence[e] == InitialPresence()[e]
    {
      var hs := GenerateHours(DayStart(d), DayEnd(d));
      presence := presence + [map h | h in hs :: 0];
      d := d + 1;
    }
  }

  method AnalyseNextRow(cells: seq<seq<string>>, roster: seq<Employee>, r: nat, fs: seq<Finding>, p: seq<Counts>)
    returns (fs': seq<Finding>, p': seq<Counts>)
    requires Shaped(cells) && r < |cells|
    requires (fs, p) == Rows(ReadRows(cells), roster, r)
    ensures (fs', p') == Rows(ReadRows(cells), roster, r + 1)
  {
    var rowFindings, rowPresence := AnalyseRow(cells[r], roster, p);
    assert ReadRows(cells)[r] == ReadRow(cells[r]);
    fs' := fs + rowFindings;
    p' := rowPresence;
  }

  /** The `Sous-effectif` loop: the scan of every day, its windows reported in order. */
  method ReportUnderstaffing(fs: seq<Finding>, presence: seq<Counts>) returns (findings: seq<Finding>)
    requires |presence| == Days
    ensures findings == fs + StaffFindings(AllWindows(presence), Days)
  {
    ghost var w := AllWindows(presence);
    findings := fs;
    var d := 0;
    while d < Days
      invariant 0 <= d <= Days
      invariant findings == fs + StaffFindings(w, d)
    {
      findings := ReportDay(fs, w, presence, d, findings);
      d := d + 1;
    }
  }

  /** Day `d` of the loop: its buckets, generated again, their scan, and a finding per
      window. */
  method ReportDay(ghost fs: seq<Finding>, ghost w: seq<seq<(real, real)>>, presence: seq<Counts>, d: nat, findings: seq<Finding>)
    returns (findings': seq<Finding>)
    requires |presence| == Days && d < Days && w == AllWindows(presence)
    requires findings == fs + StaffFindings(w, d)
    ensures findings' == fs + StaffFindings(w, d + 1)
  {
    var ws := ScanDay(DayBuckets(d), presence[d]);
    assert ws == w[d];
    findings' := ReportWindows(findings, d, ws);
    StaffFindingsNext(fs, w, d, findings, findings');
  }

  lemma StaffFindingsNext(fs: seq<Finding>, w: seq<seq<(real, real)>>, d: nat, findings: seq<Finding>, findings': seq<Finding>)
    requires d < |w| && findings == fs + StaffFindings(w, d) && findings' == findings + AsFindings(d, w[d])
    ensures findings' == fs + StaffFindings(w, d + 1)
  {
    assert findings' == fs + (StaffFindings(w, d) + AsFindings(d, w[d]));
  }

  /** One message per window of day `d`. */
  method ReportWindows(fs: seq<Finding>, d: nat, ws: seq<(real, real)>) returns (findings: seq<Finding>)
    ensures findings == fs + AsFindings(d, ws)
  {
    findings := fs;
    var i := 0;
    while i < |ws|
      invariant 0 <= i <= |ws|
      invariant findings == fs + AsFindings(d, ws[..i])
    {
      assert ws[..i + 1][..i] == ws[..i];
      findings := findings + [Understaffed(d, ws[i].0, ws[i].1)];
      i := i + 1;
    }
    assert ws[..|ws|] == ws;
  }

  /** One row of the analyser loop: the name and the contract, the total, then each day
      cell that is not blank. */
  method AnalyseRow(row: seq<string>, roster: seq<Employee>, presence: seq<Counts>) returns (fs: seq<Finding>, p: seq<Counts>)
    requires |row| == ColumnCount && |presence| == Days
    ensures (fs, p) == RowFindings(ReadRow(row), roster, presence)
  {
    ghost var data := ReadRow(row);
    var name := Strip(row[0]);
    var contract := LookupContract(roster, name);
    var total := ReadTotal(row[TotalColumn]);
    fs := [];
    p := presence;
    var col := 1;
    while col < TotalColumn
      invariant 1 <= col <= TotalColumn
      invariant (fs, p) == ScanDays(data, presence, col - 1)
    {
      ReadRowParts(row, col - 1);
      fs, p := AnalyseCell(data, presence, name, col - 1, row[col], fs, p);
      col := col + 1;
    }
    ReadRowParts(row, 0);
    RowFindingsOf(data, roster, presence, fs, p);
    fs := fs + DeviationFindings(name, contract, total);
  }

  /** One day cell: a blank cell is skipped; otherwise its shifts are extracted, checked for
      overlaps and walked into the day's counters. */
  method AnalyseCell(ghost data: RowData, ghost presence: seq<Counts>, name: string, d: nat, text: string, fs: seq<Finding>, p: seq<Counts>)
    returns (fs': seq<Finding>, p': seq<Counts>)
    requires |data.days| == Days && |presence| == Days && d < Days
    requires data.name == name && data.days[d] == CellShifts(text)
    requires (fs, p) == ScanDays(data, presence, d)
    ensures (fs', p') == ScanDays(data, presence, d + 1)
  {
    fs', p' := fs, p;
    ScanDaysNext(data, presence, d);
    var t := Strip(text);
    if t == "" {
      assert data.days[d] == [] && !HasOverlap([]);
      assert p[d := AddShifts(p[d], [])] == p && fs + [] == fs;
    } else {
      var ivs := ExtractIntervals(t);
      assert ivs == data.days[d];
      var overlap := AnyOverlap(ivs);
      if overlap {
        fs' := fs' + [Overlap(name, d)];
      } else {
        assert fs + [] == fs;
      }
      var counts := AddShiftsLoop(p'[d], ivs);
      p' := p'[d := counts];
    }
  }

  /** The `for debut, fin in horaires` loop of one cell. */
  method AddShiftsLoop(counts: Counts, ivs: seq<Interval>) returns (c: Counts)
    ensures c == AddShifts(counts, ivs)
  {
    c := counts;
    var k := 0;
    while k < |ivs|
      invariant 0 <= k <= |ivs|
      invariant c == AddShifts(counts, ivs[..k])
    {
      assert ivs[..k + 1][..k] == ivs[..k];
      c := WalkShift(c, ivs[k].start, ivs[k].end);
      k := k + 1;
    }
    assert ivs[..|ivs|] == ivs;
  }
}
