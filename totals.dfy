/** The row total of the schedule grid (`calculer_total_ligne`): the employee's contract
    gives a weekly baseline, each of the first eight cells of the row contributes hours
    (absence codes or the lengths of the typed shifts), and the sum, rounded to hundredths,
    is written as text into the last column. */
module Totals {
  import opened Text
  import opened Intervals

  /** Columns of the grid: the name, seven days, the total. */
  const ColumnCount: nat := 9
  const TotalColumn: nat := 8

  /** A roster entry; an entry saved without a contract has the contract `""`. */
  datatype Employee = Employee(name: string, contract: string)

  // ------------------------------------------------------------- contracts

  /** The contract of the first roster entry named exactly `name`, `""` when there is none. */
  function ContractOf(roster: seq<Employee>, name: string): string {
    if roster == [] then ""
    else if roster[0].name == name then roster[0].contract
    else ContractOf(roster[1..], name)
  }

  /** `ContractOf` finds the first entry with the name, and gives `""` when none has it. */
  lemma {:induction false} ContractOfFirstMatch(roster: seq<Employee>, name: string)
    ensures (forall i :: 0 <= i < |roster| ==> roster[i].name != name) ==> ContractOf(roster, name) == ""
    ensures forall i :: (0 <= i < |roster| && roster[i].name == name
      && forall j :: 0 <= j < i ==> roster[j].name != name) ==> ContractOf(roster, name) == roster[i].contract
  {
    if roster != [] {
      ContractOfFirstMatch(roster[1..], name);
      assert forall i :: 1 <= i < |roster| ==> roster[1..][i - 1] == roster[i];
    }
  }

  /** The `for emp in employees` search of `calculer_total_ligne`, as a loop. */
  method LookupContract(roster: seq<Employee>, name: string) returns (c: string)
    ensures c == ContractOf(roster, name)
  {
    c := "";
    var i := 0;
    while i < |roster|
      invariant 0 <= i <= |roster|
      invariant ContractOf(roster, name) == ContractOf(roster[i..], name)
    {
      if roster[i].name == name {
        c := roster[i].contract;
        return;
      }
      assert roster[i..][1..] == roster[i + 1..];
      i := i + 1;
    }
  }

  const Student: string := "\U{C9}TUDIANT"

  /** The weekly baseline the total uses for paid leave. */
  function TotalBaseline(contract: string): (b: real)
    ensures b in {0.0, 33.0, 35.0, 39.0}
  {
    if contract == "PATRON" then 0.0
    else if contract == "33h" then 33.0
    else if contract == "35h" then 35.0
    else if contract == "39h" then 39.0
    else if contract == "ALTERNANT" || contract == Student then 35.0
    else 0.0
  }

  // ------------------------------------------------------------ cell hours

  /** The paid-leave codes, upper-cased. */
  predicate IsPaidLeave(t: string) {
    t == "CP" || t == "CGP" || t == "CONG\U{C9}S"
  }

  /** The training codes, upper-cased. */
  predicate IsTraining(t: string) {
    t == "AFORMANCE" || t == "CFA" || t == "COURS" || t == "ALTERNANCE"
  }

  lemma CodesStartWithLetter(t: string)
    requires IsPaidLeave(t) || IsTraining(t)
    ensures t != [] && 'A' <= t[0] <= 'Z'
  {
  }

  /** A training day counts a fixed seven hours. */
  const TrainingHours: real := 7.0

  /** `abs(fin - debut)`. */
  function Span(iv: Interval): (h: real)
    ensures h >= 0.0
    ensures h == iv.end - iv.start || h == iv.start - iv.end
  {
    if iv.end >= iv.start then iv.end - iv.start else iv.start - iv.end
  }

  /** The summed lengths of the shifts, accumulated from the first. */
  function SpanSum(ivs: seq<Interval>): (h: real)
    ensures h >= 0.0
  {
    if ivs == [] then 0.0 else SpanSum(ivs[..|ivs| - 1]) + Span(ivs[|ivs| - 1])
  }

  /** The hours one cell adds to the row total, read on its stripped, upper-cased text:
      nothing for an empty cell, a sixth of the baseline for paid leave, seven hours for
      training, and otherwise the summed lengths of its shifts (nothing when a token is
      not a number). */
  function CellHours(text: string, baseline: real): (h: real)
    requires baseline >= 0.0
    ensures h >= 0.0
  {
    CodeOrShiftHours(Upper(Strip(text)), baseline)
  }

  function CodeOrShiftHours(t: string, baseline: real): (h: real)
    requires baseline >= 0.0
    ensures h >= 0.0
  {
    if t == [] then 0.0
    else if IsPaidLeave(t) then (if baseline != 0.0 then baseline / 6.0 else 0.0)
    else if IsTraining(t) then TrainingHours
    else SpanSum(ExtractIntervals(t))
  }

  /** The hours of the first `|cells|` cells of a row. */
  function SumCells(cells: seq<string>, baseline: real): (h: real)
    requires baseline >= 0.0
    ensures h >= 0.0
  {
    if cells == [] then 0.0
    else SumCells(cells[..|cells| - 1], baseline) + CellHours(cells[|cells| - 1], baseline)
  }

  /** The exact total of a row: columns 0 to 7, the name column included. */
  function RowTotal(row: seq<string>, roster: seq<Employee>): (h: real)
    requires |row| == ColumnCount
    ensures h >= 0.0
  {
    SumCells(row[..TotalColumn], TotalBaseline(ContractOf(roster, Strip(row[0]))))
  }

  /** The accumulation loops of `calculer_total_ligne`: the contract search and the
      columns. */
  method ComputeRowTotal(row: seq<string>, roster: seq<Employee>) returns (total: real)
    requires |row| == ColumnCount
    ensures total == RowTotal(row, roster)
  {
    var contract := LookupContract(roster, Strip(row[0]));
    var baseline := TotalBaseline(contract);
    total := SumColumns(row[..TotalColumn], baseline);
  }

  method SumColumns(cells: seq<string>, baseline: real) returns (total: real)
    requires baseline >= 0.0
    ensures total == SumCells(cells, baseline)
  {
    total := 0.0;
    var col := 0;
    while col < |cells|
      invariant 0 <= col <= |cells|
      invariant total == SumCells(cells[..col], baseline)
    {
      var h := ComputeCellHours(cells[col], baseline);
      SumCellsNext(cells, col, baseline);
      total := total + h;
      col := col + 1;
    }
    assert cells[..col] == cells;
  }

  lemma SumCellsNext(cells: seq<string>, i: nat, baseline: real)
    requires baseline >= 0.0 && i < |cells|
    ensures SumCells(cells[..i + 1], baseline) == SumCells(cells[..i], baseline) + CellHours(cells[i], baseline)
  {
    assert cells[..i + 1][..i] == cells[..i];
  }

  /** One column of the loop: the code tests, then the pair loop over the shifts. */
  method ComputeCellHours(text: string, baseline: real) returns (h: real)
    requires baseline >= 0.0
    ensures h == CellHours(text, baseline)
  {
    var t := Upper(Strip(text));
    h := 0.0;
    if t == [] {
    } else if IsPaidLeave(t) {
      if baseline != 0.0 {
        h := baseline / 6.0;
      }
    } else if IsTraining(t) {
      h := TrainingHours;
    } else {
      var ivs := ExtractIntervals(t);
      h := SumSpans(ivs);
    }
  }

  /** The pair loop of one cell: the length of each shift, added in order. */
  method SumSpans(ivs: seq<Interval>) returns (h: real)
    ensures h == SpanSum(ivs)
  {
    h := 0.0;
    var i := 0;
    while i < |ivs|
      invariant 0 <= i <= |ivs|
      invariant h == SpanSum(ivs[..i])
    {
      assert ivs[..i + 1][..i] == ivs[..i];
      h := h + Span(ivs[i]);
      i := i + 1;
    }
    assert ivs[..i] == ivs;
  }

  // ------------------------------------------------------------ properties

  /** Surrounding whitespace and letter case do not change what a cell counts. */
  lemma CellHoursIgnoresEdgesAndCase(text: string, baseline: real)
    requires baseline >= 0.0
    ensures CellHours(Strip(text), baseline) == CellHours(text, baseline)
    ensures CellHours(Upper(text), baseline) == CellHours(text, baseline)
  {
    StripIdempotent(text);
    UpperStrip(text);
    UpperIdempotent(Strip(text));
  }

  lemma UpperIdempotent(s: string)
    ensures Upper(Upper(s)) == Upper(s)
  {
    CaseMaps(s);
    CaseMaps(Upper(s));
    assert forall i :: 0 <= i < |s| ==> UpperChar(UpperChar(s[i])) == UpperChar(s[i]);
  }

  lemma {:induction false} UpperTrimLeft(s: string)
    ensures TrimLeft(Upper(s)) == Upper(TrimLeft(s))
  {
    if s != [] {
      assert Upper(s)[1..] == Upper(s[1..]);
      assert IsSpace(UpperChar(s[0])) == IsSpace(s[0]);
      UpperTrimLeft(s[1..]);
    }
  }

  lemma {:induction false} UpperTrimRight(s: string)
    ensures TrimRight(Upper(s)) == Upper(TrimRight(s))
  {
    if s != [] {
      var n := |s| - 1;
      CaseMaps(s);
      CaseMaps(s[..n]);
      assert Upper(s)[..n] == Upper(s[..n]);
      assert IsSpace(UpperChar(s[n])) == IsSpace(s[n]);
      UpperTrimRight(s[..n]);
    }
  }

  /** Upper-casing never turns a character into whitespace or back, so it commutes with strip. */
  lemma UpperStrip(s: string)
    ensures Strip(Upper(s)) == Upper(Strip(s))
  {
    UpperTrimLeft(s);
    UpperTrimRight(TrimLeft(s));
  }

  /** Paid leave counts a sixth of the baseline and training a fixed seven hours, whatever
      the case and surrounding whitespace of the code. */
  lemma AbsenceCodes(text: string, baseline: real)
    requires baseline >= 0.0
    ensures IsPaidLeave(Upper(Strip(text))) ==> CellHours(text, baseline) == baseline / 6.0
    ensures IsTraining(Upper(Strip(text))) ==> CellHours(text, baseline) == 7.0
  {
  }

  /** A cell without a digit, such as a name, counts nothing unless it is an absence code. */
  lemma NoDigitCountsNothing(text: string, baseline: real)
    requires baseline >= 0.0
    requires forall i :: 0 <= i < |text| ==> !IsDigit(text[i])
    requires !IsPaidLeave(Upper(Strip(text))) && !IsTraining(Upper(Strip(text)))
    ensures CellHours(text, baseline) == 0.0
  {
    var t := Upper(Strip(text));
    if t != [] {
      NoDigitUpperStrip(text);
      var toks := Tokens(t);
      TokensNoDigit(t);
      NoDigitNoParse(toks[0]);
      ExtractIntervalsSpec(t);
    }
  }

  lemma NoDigitUpperStrip(text: string)
    requires forall i :: 0 <= i < |text| ==> !IsDigit(text[i])
    ensures forall i :: 0 <= i < |Upper(Strip(text))| ==> !IsDigit(Upper(Strip(text))[i])
  {
    var l := TrimLeft(text);
    TrimLeftShape(text);
    TrimRightShape(l);
    var t := Strip(text);
    assert forall i :: 0 <= i < |t| ==> t[i] == text[|text| - |l| + i];
    CaseMaps(t);
  }

  /** Every token of a text without digits is without digits. */
  lemma {:induction false} TokensNoDigit(s: string)
    requires forall i :: 0 <= i < |s| ==> !IsDigit(s[i])
    ensures forall i :: 0 <= i < |Tokens(s)[0]| ==> !IsDigit(Tokens(s)[0][i])
    decreases |s|
  {
    if s != [] && !IsSep(s[0]) {
      TokensNoDigit(s[1..]);
    }
  }

  /** The total column does not feed the total, so rewriting it leaves the total unchanged. */
  lemma TotalIgnoresTotalColumn(row: seq<string>, roster: seq<Employee>, text: string)
    requires |row| == ColumnCount
    ensures RowTotal(row[TotalColumn := text], roster) == RowTotal(row, roster)
  {
    assert row[TotalColumn := text][..TotalColumn] == row[..TotalColumn];
  }

  // ------------------------------------------------------------ formatting

  /** Python's `round(x)`: the nearest integer, ties to the even one. */
  function RoundHalfEven(x: real): (n: int)
    ensures -0.5 <= n as real - x <= 0.5
    ensures (n as real - x == 0.5 || x - n as real == 0.5) ==> n % 2 == 0
    ensures x >= 0.0 ==> n >= 0
  {
    var f := x.Floor;
    var d := x - f as real;
    if d < 0.5 then f else if d > 0.5 then f + 1 else if f % 2 == 0 then f else f + 1
  }

  /** `round(total, 2)` counted in hundredths. */
  function RoundHundredths(total: real): (q: nat)
    requires total >= 0.0
    ensures -0.005 <= q as real / 100.0 - total <= 0.005
  {
    RoundHalfEven(100.0 * total)
  }

  /** A value already in hundredths is not moved by rounding. */
  lemma RoundHundredthsExact(q: nat)
    ensures RoundHundredths(q as real / 100.0) == q
  {
    var n := RoundHundredths(q as real / 100.0);
    assert -0.5 <= n as real - q as real <= 0.5;
  }

  /** `str(round(total, 2))` for `q` hundredths: the whole part, a point, and the fraction
      without trailing zeros but with at least one digit ("15.83", "15.8", "10.0"). */
  function FormatTotal(q: nat): (s: string)
  {
    NatToString(q / 100) + "." + CentsText(q % 100)
  }

  function CentsText(c: nat): (s: string)
    requires c < 100
    ensures AllDigits(s) && 1 <= |s| <= 2
    ensures DigitsValue(s) as real / Pow10(|s|) as real == c as real / 100.0
  {
    if c == 0 then
      DigitsValue1('0');
      "0"
    else if c % 10 == 0 then
      DigitsValue1(DigitChar(c / 10));
      [DigitChar(c / 10)]
    else
      DigitsValue2(DigitChar(c / 10), DigitChar(c % 10));
      [DigitChar(c / 10), DigitChar(c % 10)]
  }

  /** The analyser's read-back of a total cell: `float(text.replace(",", "."))`, zero when
      that fails. */
  function ReadTotal(text: string): (h: real)
    ensures ParseFloat(ReplaceChar(text, ',', '.')).Some? ==> h == ParseFloat(ReplaceChar(text, ',', '.')).value
    ensures ParseFloat(ReplaceChar(text, ',', '.')).None? ==> h == 0.0
  {
    match ParseFloat(ReplaceChar(text, ',', '.'))
    case None => 0.0
    case Some(v) => v
  }

  /** The written total reads back as the rounded value. */
  lemma FormatTotalRoundTrip(q: nat)
    ensures ParseFloat(FormatTotal(q)) == Some(q as real / 100.0)
    ensures ReadTotal(FormatTotal(q)) == q as real / 100.0
  {
    FormatTotalParses(q);
    FormatTotalNoComma(q);
  }

  lemma FormatTotalParses(q: nat)
    ensures ParseFloat(FormatTotal(q)) == Some(q as real / 100.0)
  {
    var w, c := NatToString(q / 100), CentsText(q % 100);
    assert FormatTotal(q) == w + "." + c;
    ParseDecimal(w, c);
    FormatTotalValue(q);
  }

  /** The whole part and the cents of a total make its value. */
  lemma FormatTotalValue(q: nat)
    ensures DecimalValue(NatToString(q / 100), CentsText(q % 100)) == q as real / 100.0
  {
    var w, c := NatToString(q / 100), CentsText(q % 100);
    assert DigitsValue(w) == q / 100;
    assert DigitsValue(c) as real / Pow10(|c|) as real == (q % 100) as real / 100.0;
    HundredthsSplit(q);
  }

  lemma HundredthsSplit(q: nat)
    ensures (q / 100) as real + (q % 100) as real / 100.0 == q as real / 100.0
  {
    assert q == 100 * (q / 100) + q % 100;
  }

  lemma FormatTotalNoComma(q: nat)
    ensures ReplaceChar(FormatTotal(q), ',', '.') == FormatTotal(q)
  {
    var s := FormatTotal(q);
    var w := NatToString(q / 100);
    assert forall i :: 0 <= i < |w| ==> w[i] != ',';
    assert forall i :: 0 <= i < |s| ==> s[i] != ',';
  }

  /** A worked example: on a 35h contract two days of `7-12` and one paid-leave
      day make 5 + 5 + 35/6 hours, written as "15.83". */
  lemma PaidLeaveExample(a: string, b: string, c: string)
    requires a == "7-12" && b == "7-12" && c == "cp"
    ensures SumCells([a, b, c], 35.0) == 95.0 / 6.0
    ensures RoundHundredths(95.0 / 6.0) == 1583
    ensures FormatTotal(1583) == "15.83"
  {
    ExampleShift(a);
    ExampleShift(b);
    ExampleLeave(c);
    SumThreeCells(a, b, c, 35.0);
    var q := RoundHundredths(95.0 / 6.0);
    assert -0.5 <= q as real - 9500.0 / 6.0 <= 0.5;
    FormatExample(1583);
  }

  lemma SumThreeCells(a: string, b: string, c: string, baseline: real)
    requires baseline >= 0.0
    ensures SumCells([a, b, c], baseline)
      == CellHours(a, baseline) + CellHours(b, baseline) + CellHours(c, baseline)
  {
    assert [a, b, c][..2] == [a, b];
    assert [a, b][..1] == [a];
    assert [a][..0] == [];
    assert SumCells([a], baseline) == CellHours(a, baseline);
    assert SumCells([a, b], baseline) == SumCells([a], baseline) + CellHours(b, baseline);
  }

  lemma FormatExample(q: nat)
    requires q == 1583
    ensures FormatTotal(q) == "15.83"
  {
    NatToStringTwoDigits(q / 100);
    assert CentsText(q % 100) == [DigitChar(8), DigitChar(3)];
    assert DigitChar(1) == '1' && DigitChar(5) == '5' && DigitChar(8) == '8' && DigitChar(3) == '3';
  }

  lemma ExampleShift(a: string)
    requires a == "7-12"
    ensures CellHours(a, 35.0) == 5.0
  {
    var x, y := a[..1], a[2..];
    ParseSmall(x, 7);
    ParseSmall(y, 12);
    assert a == x + "-" + y;
    ShiftCell(a, x, y, 7.0, 12.0, 35.0);
  }

  lemma ExampleLeave(c: string)
    requires c == "cp"
    ensures CellHours(c, 35.0) == 35.0 / 6.0
  {
    StripNoEdges(c);
    CaseMaps(c);
    assert Upper(c) == "CP";
  }

  lemma NatToStringTwoDigits(n: nat)
    requires 10 <= n < 100
    ensures NatToString(n) == [DigitChar(n / 10), DigitChar(n % 10)]
  {
    assert NatToString(n / 10) == [DigitChar(n / 10)];
  }

  /** A cell `x-y` of two numbers in digits counts `|y - x|`. */
  lemma ShiftCell(text: string, x: string, y: string, vx: real, vy: real, baseline: real)
    requires baseline >= 0.0
    requires text == x + "-" + y && x != [] && y != [] && AllDigits(x) && AllDigits(y)
    requires ParseFloat(x) == Some(vx) && ParseFloat(y) == Some(vy)
    ensures CellHours(text, baseline) == Span(Interval(vx, vy))
  {
    assert Upper(Strip(text)) == text by {
      ShiftTextEdges(text, x, y);
    }
    assert ExtractIntervals(text) == [Interval(vx, vy)] by {
      assert NoSep(x) && NoSep(y);
      OneShift(x, y, vx, vy);
    }
    assert !IsPaidLeave(text) && !IsTraining(text) by {
      ShiftTextNoCode(text, x, y);
    }
    OneShiftHours(text, baseline, Interval(vx, vy));
  }

  lemma OneShiftHours(t: string, baseline: real, iv: Interval)
    requires baseline >= 0.0 && t != [] && !IsPaidLeave(t) && !IsTraining(t)
    requires ExtractIntervals(t) == [iv]
    ensures CodeOrShiftHours(t, baseline) == Span(iv)
  {
    assert [iv][..0] == [];
    assert SpanSum([iv]) == Span(iv);
  }

  /** Such a cell is already stripped and upper-cased. */
  lemma ShiftTextEdges(text: string, x: string, y: string)
    requires text == x + "-" + y && x != [] && y != [] && AllDigits(x) && AllDigits(y)
    ensures Upper(Strip(text)) == text
  {
    assert text[0] == x[0] && text[|text| - 1] == y[|y| - 1];
    StripNoEdges(text);
    UpperDigitsDash(text, x, y);
  }

  /** Such a cell starts with a digit, so it is no absence code. */
  lemma ShiftTextNoCode(text: string, x: string, y: string)
    requires text == x + "-" + y && x != [] && AllDigits(x)
    ensures !IsPaidLeave(text) && !IsTraining(text)
  {
    assert text[0] == x[0];
    if IsPaidLeave(text) || IsTraining(text) {
      CodesStartWithLetter(text);
      assert false;
    }
  }

  lemma UpperDigitsDash(text: string, x: string, y: string)
    requires text == x + "-" + y && AllDigits(x) && AllDigits(y)
    ensures Upper(text) == text
  {
    CaseMaps(text);
    assert forall i :: 0 <= i < |text| ==> IsDigit(text[i]) || text[i] == '-';
  }
}
