/** The text of the analysis report: one bullet line per finding, joined with newlines, or
    a single line saying that nothing was found. */
module Messages {
  import opened Text
  import opened Totals
  import opened Grid
  import opened Analysis
  import opened Findings

  const NoFindingText: string := "Aucune erreur détectée. ✅"

  function DayName(d: nat): (s: string)
    requires d < Days
    ensures s == DayNames[d]
    ensures s != [] && '\n' !in s
  {
    DayNames[d]
  }

  // ------------------------------------------------------------ numbers

  /** `f"{n:02d}"`: the digits of `n`, padded with a zero to two characters; a negative
      number keeps its sign and is not padded further. */
  function Padded(n: int): (s: string)
  {
    if n < 0 then "-" + NatToString(-n)
    else if n < 10 then "0" + NatToString(n)
    else NatToString(n)
  }

  lemma PaddedDigits(n: nat)
    ensures var s := Padded(n);
      |s| >= 2 && AllDigits(s) && DigitsValue(s) == n && (n < 100 ==> |s| == 2)
  {
    var s := Padded(n);
    if n < 10 {
      assert NatToString(n) == [DigitChar(n)];
      assert s == [DigitChar(0), DigitChar(n)];
      DigitsValue2(DigitChar(0), DigitChar(n));
    } else if n < 100 {
      NatToStringTwoDigits(n);
    } else {
      assert |NatToString(n / 10)| >= 1;
    }
  }

  /** `h_float_to_str`: the whole hours and the rounded minutes of the fractional part, each
      as `%02d`, around an `h`. */
  function HourText(h: real): (s: string)
  {
    var n := Trunc(h);
    var m := RoundHalfEven((h - n as real) * 60.0);
    Padded(n) + "h" + Padded(m)
  }

  /** A quarter-hour bucket `n + q/4` is written as `n` and `15q` minutes, two digits each. */
  lemma HourTextQuarters(n: nat, q: nat)
    requires q < 4
    ensures HourText(n as real + q as real / 4.0) == Padded(n) + "h" + Padded(15 * q)
  {
    var h := n as real + q as real / 4.0;
    assert Trunc(h) == n;
    var x := (h - n as real) * 60.0;
    assert x == (15 * q) as real;
    var m := RoundHalfEven(x);
    assert -0.5 <= m as real - x <= 0.5;
    assert m == 15 * q;
  }

  /** Read back, the text of a bucket before 100h gives its hour: two digits of hours, an
      `h`, two digits of minutes. */
  lemma HourTextMeaning(n: nat, q: nat)
    requires q < 4 && n < 100
    ensures var s := HourText(n as real + q as real / 4.0);
      |s| == 5 && s[2] == 'h' && AllDigits(s[..2]) && AllDigits(s[3..])
      && DigitsValue(s[..2]) == n && DigitsValue(s[3..]) == 15 * q
      && DigitsValue(s[..2]) as real + DigitsValue(s[3..]) as real / 60.0 == n as real + q as real / 4.0
  {
    HourTextQuarters(n, q);
    PaddedDigits(n);
    PaddedDigits(15 * q);
    var s := HourText(n as real + q as real / 4.0);
    assert s[..2] == Padded(n);
    assert s[3..] == Padded(15 * q);
  }

  /** `f"{x:.2f}"` of a non-negative amount: the amount rounded to hundredths, written with
      its whole part and exactly two decimals. */
  function Fixed2(x: real): (s: string)
    requires x >= 0.0
  {
    var q := RoundHundredths(x);
    NatToString(q / 100) + "." + Padded(q % 100)
  }

  /** The written amount reads back as the amount rounded to hundredths; an amount already
      in hundredths reads back exactly. */
  lemma Fixed2Parses(x: real)
    requires x >= 0.0
    ensures ParseFloat(Fixed2(x)).Some?
    ensures -0.005 <= ParseFloat(Fixed2(x)).value - x <= 0.005
    ensures (100.0 * x).Floor as real == 100.0 * x ==> ParseFloat(Fixed2(x)) == Some(x)
  {
    var q := RoundHundredths(x);
    var w, c := NatToString(q / 100), Padded(q % 100);
    PaddedDigits(q % 100);
    ParseDecimal(w, c);
    assert DecimalValue(w, c) == q as real / 100.0 by {
      assert Pow10(|c|) == 100;
      HundredthsSplit(q);
    }
    if (100.0 * x).Floor as real == 100.0 * x {
      var k := (100.0 * x).Floor;
      assert x == k as real / 100.0;
      RoundHundredthsExact(k);
    }
  }

  // ------------------------------------------------------------ lines

  /** Findings name days of the week; a deviation carries the size of the difference. */
  predicate Printable(f: Finding) {
    ((f.Overlap? || f.Understaffed?) ==> f.day < Days) && (f.Deviation? ==> f.amount >= 0.0)
  }

  /** The line `analyser_planning` appends for a finding: a bullet, then what was found. */
  function Message(f: Finding): (s: string)
    requires Printable(f)
  {
    "• " + Summary(f)
  }

  function Summary(f: Finding): (s: string)
    requires Printable(f)
  {
    match f
    case Overlap(name, d) => "Chevauchement d'horaires, " + name + " le " + DayName(d)
    case Deviation(name, surplus, amount, hours) =>
      name + " - " + (if surplus then "Heures sup" else "Manque d'h") + ": "
      + Fixed2(amount) + "h (contrat: " + NatToString(hours) + "h)"
    case Understaffed(d, from, to) =>
      "Sous-effectif le " + DayName(d) + " de " + HourText(from) + " à " + HourText(to)
  }

  function Messages(fs: seq<Finding>): (ms: seq<string>)
    requires forall i :: 0 <= i < |fs| ==> Printable(fs[i])
    ensures |ms| == |fs| && forall i :: 0 <= i < |fs| ==> ms[i] == Message(fs[i])
  {
    seq(|fs|, i requires 0 <= i < |fs| => Message(fs[i]))
  }

  /** The report text shown at the end of the analysis. */
  function Report(fs: seq<Finding>): (s: string)
    requires forall i :: 0 <= i < |fs| ==> Printable(fs[i])
  {
    if fs == [] then NoFindingText else Join(Messages(fs), '\n')
  }

  /** Every line starts with the bullet. */
  lemma MessageBullet(f: Finding)
    requires Printable(f)
    ensures |Message(f)| >= 2 && Message(f)[..2] == "• "
  {
  }

  predicate NameOfOneLine(f: Finding) {
    (f.Overlap? || f.Deviation?) ==> '\n' !in f.name
  }

  lemma NatToStringOneLine(n: nat)
    ensures '\n' !in NatToString(n)
  {
    var s := NatToString(n);
    assert forall i :: 0 <= i < |s| ==> s[i] != '\n';
  }

  lemma PaddedOneLine(n: int)
    ensures '\n' !in Padded(n)
  {
    NatToStringOneLine(if n < 0 then -n else n);
  }

  lemma HourTextOneLine(h: real)
    ensures '\n' !in HourText(h)
  {
    PaddedOneLine(Trunc(h));
    PaddedOneLine(RoundHalfEven((h - Trunc(h) as real) * 60.0));
  }

  /** A finding whose name has no line break makes a single line. */
  lemma MessageOneLine(f: Finding)
    requires Printable(f) && NameOfOneLine(f)
    ensures '\n' !in Message(f)
  {
    assert '\n' !in "• ";
    match f
    case Overlap(name, d) =>
      OverlapOneLine(name, d);
    case Deviation(name, surplus, amount, hours) =>
      DeviationOneLine(name, surplus, amount, hours);
    case Understaffed(d, from, to) =>
      UnderstaffedOneLine(d, from, to);
  }

  lemma OverlapOneLine(name: string, d: nat)
    requires d < Days && '\n' !in name
    ensures '\n' !in Summary(Overlap(name, d))
  {
    var a := "Chevauchement d'horaires, ";
    assert forall i :: 0 <= i < |a| ==> a[i] != '\n';
  }

  lemma DeviationOneLine(name: string, surplus: bool, amount: real, hours: nat)
    requires amount >= 0.0 && '\n' !in name
    ensures '\n' !in Summary(Deviation(name, surplus, amount, hours))
  {
    var q := RoundHundredths(amount);
    NatToStringOneLine(q / 100);
    PaddedOneLine(q % 100);
    assert '\n' !in Fixed2(amount);
    NatToStringOneLine(hours);
    var kind := if surplus then "Heures sup" else "Manque d'h";
    assert forall i :: 0 <= i < |kind| ==> kind[i] != '\n';
    var tail := "h (contrat: ";
    assert forall i :: 0 <= i < |tail| ==> tail[i] != '\n';
  }

  lemma UnderstaffedOneLine(d: nat, from: real, to: real)
    requires d < Days
    ensures '\n' !in Summary(Understaffed(d, from, to))
  {
    var x, y := HourText(from), HourText(to);
    HourTextOneLine(from);
    HourTextOneLine(to);
    var a, b, c := "Sous-effectif le ", " de ", " à ";
    assert '\n' !in a && '\n' !in b && '\n' !in c;
    OneLineConcat(a, DayName(d));
    OneLineConcat(a + DayName(d), b);
    OneLineConcat(a + DayName(d) + b, x);
    OneLineConcat(a + DayName(d) + b + x, c);
    OneLineConcat(a + DayName(d) + b + x + c, y);
  }

  lemma OneLineConcat(a: string, b: string)
    requires '\n' !in a && '\n' !in b
    ensures '\n' !in a + b
  {
  }

  /** The report splits back, line by line, into the messages of the findings, in order;
      without findings it is the single no-finding line. */
  lemma ReportLines(fs: seq<Finding>)
    requires forall i :: 0 <= i < |fs| ==> Printable(fs[i]) && NameOfOneLine(fs[i])
    ensures fs == [] ==> Report(fs) == NoFindingText
    ensures fs != [] ==> SplitOn(Report(fs), '\n') == Messages(fs)
  {
    if fs != [] {
      var ms := Messages(fs);
      forall i | 0 <= i < |ms| ensures '\n' !in ms[i] {
        MessageOneLine(fs[i]);
      }
      SplitJoin(ms, '\n');
    }
  }

  /** The no-finding line appears exactly when there is nothing to report: every other
      report starts with a bullet. */
  lemma ReportEmpty(fs: seq<Finding>)
    requires forall i :: 0 <= i < |fs| ==> Printable(fs[i])
    ensures Report(fs) == NoFindingText <==> fs == []
  {
    if fs != [] {
      var ms := Messages(fs);
      MessageBullet(fs[0]);
      JoinHead(ms, '\n');
      assert Report(fs)[0] == '•';
      assert NoFindingText[0] == 'A';
    }
  }

  lemma JoinHead(xs: seq<string>, sep: char)
    requires |xs| >= 1 && |xs[0]| >= 1
    ensures |Join(xs, sep)| >= 1 && Join(xs, sep)[0] == xs[0][0]
  {
  }

  /** Every finding of the analysis can be written: its day is a day of the week and a
      deviation's amount is positive. */
  lemma AnalysisPrintable(cells: seq<seq<string>>, roster: seq<Employee>)
    requires Shaped(cells)
    ensures forall i :: 0 <= i < |Analyse(cells, roster)| ==> Printable(Analyse(cells, roster)[i])
  {
    var rows := ReadRows(cells);
    OverlapsPrintable(rows, roster);
    DeviationsPrintable(rows, roster);
    UnderstaffedPrintable(rows, roster);
  }

  lemma OverlapsPrintable(rows: seq<RowData>, roster: seq<Employee>)
    requires Findings.Wellformed(rows)
    ensures forall f :: f in AnalyseRows(rows, roster) && f.Overlap? ==> f.day < Days
  {
    AnalyseMeaning(rows, roster);
    forall f | f in AnalyseRows(rows, roster) && f.Overlap? ensures f.day < Days {
      var r :| 0 <= r < |rows| && f.name == rows[r].name && OverlapAt(rows, r, f.day);
    }
  }

  lemma DeviationsPrintable(rows: seq<RowData>, roster: seq<Employee>)
    requires Findings.Wellformed(rows)
    ensures forall f :: f in AnalyseRows(rows, roster) && f.Deviation? ==> f.amount >= 0.0
  {
    AnalyseMeaning(rows, roster);
    forall f | f in AnalyseRows(rows, roster) && f.Deviation? ensures f.amount >= 0.0 {
      var r :| 0 <= r < |rows| && f in RowDeviation(rows[r], roster);
    }
  }

  lemma UnderstaffedPrintable(rows: seq<RowData>, roster: seq<Employee>)
    requires Findings.Wellformed(rows)
    ensures forall f :: f in AnalyseRows(rows, roster) && f.Understaffed? ==> f.day < Days
  {
    AnalyseMeaning(rows, roster);
  }

  /** The message `analyser_planning` shows for a grid: the no-finding line exactly when the
      analysis finds nothing. */
  function AnalysisReport(cells: seq<seq<string>>, roster: seq<Employee>): (s: string)
    requires Shaped(cells)
    ensures s == NoFindingText <==> Analyse(cells, roster) == []
  {
    AnalysisPrintable(cells, roster);
    ReportEmpty(Analyse(cells, roster));
    Report(Analyse(cells, roster))
  }
}
