/** The interval parser of the schedule grid: splitting a day cell into tokens, reading
    the tokens as hours and pairing them (`extraire_creneaux`), the overlap test
    (`chevauche`) and the auto-format pass that the cell-change handler applies to a typed
    text (`eventListener_chgt_cellule`). */
module Intervals {
  import opened Text

  /** A shift `(start, end)` in hours; nothing forces `start < end`. */
  datatype Interval = Interval(start: real, end: real)

  // ------------------------------------------------------------ tokenising

  /** One character of the separator class `[-\s]`. */
  predicate IsSep(c: char) {
    c == '-' || IsSpace(c)
  }

  predicate NoSep(s: string) {
    forall i :: 0 <= i < |s| ==> !IsSep(s[i])
  }

  predicate AllSep(s: string) {
    forall i :: 0 <= i < |s| ==> IsSep(s[i])
  }

  /** Drops the run of separators at the front of `s`. */
  function SkipSeps(s: string): (r: string)
    ensures |r| <= |s|
    ensures r == [] || !IsSep(r[0])
  {
    if s != [] && IsSep(s[0]) then SkipSeps(s[1..]) else s
  }

  lemma {:induction false} SkipSepsSuffix(s: string)
    ensures SkipSeps(s) == s[|s| - |SkipSeps(s)|..]
  {
    if s != [] && IsSep(s[0]) {
      SkipSepsSuffix(s[1..]);
    }
  }

  /** `re.split(r"[-\s]+", s)`: the pieces between maximal runs of separators. A separator
      run at either end yields an empty piece there, and the empty text yields `[""]`. */
  function Tokens(s: string): (r: seq<string>)
    ensures |r| >= 1
    ensures forall i :: 0 <= i < |r| ==> NoSep(r[i])
    decreases |s|
  {
    if s == [] then [""]
    else if IsSep(s[0]) then [""] + Tokens(SkipSeps(s[1..]))
    else
      var t := Tokens(s[1..]);
      assert NoSep([s[0]] + t[0]);
      [[s[0]] + t[0]] + t[1..]
  }

  lemma {:induction false} SkipAllSep(p: string, y: string)
    requires AllSep(p)
    requires y == [] || !IsSep(y[0])
    ensures SkipSeps(p + y) == y
  {
    if p != [] {
      assert (p + y)[1..] == p[1..] + y;
      SkipAllSep(p[1..], y);
    }
  }

  /** A word without separators is a single token. */
  lemma {:induction false} TokensWord(x: string)
    requires NoSep(x)
    ensures Tokens(x) == [x]
  {
    if x != [] {
      TokensWord(x[1..]);
      assert x == [x[0]] + x[1..];
    }
  }

  /** A word, then a separator run, then the rest: the word is the first token and the
      rest is tokenised on its own. */
  lemma {:induction false} TokensSplit(x: string, p: string, y: string)
    requires NoSep(x) && p != [] && AllSep(p)
    requires y == [] || !IsSep(y[0])
    ensures Tokens(x + p + y) == [x] + Tokens(y)
  {
    if x == [] {
      assert x + p + y == p + y;
      assert (p + y)[1..] == p[1..] + y;
      SkipAllSep(p[1..], y);
    } else {
      assert (x + p + y)[1..] == x[1..] + p + y;
      TokensSplit(x[1..], p, y);
      assert x == [x[0]] + x[1..];
    }
  }

  /** Tokenising the words joined by single spaces gives the words back. */
  lemma {:induction false} TokensJoin(ws: seq<string>)
    requires |ws| >= 1
    requires forall i :: 0 <= i < |ws| ==> ws[i] != [] && NoSep(ws[i])
    ensures Tokens(Join(ws, ' ')) == ws
  {
    if |ws| == 1 {
      TokensWord(ws[0]);
    } else {
      TokensJoin(ws[1..]);
      var y := Join(ws[1..], ' ');
      assert y[..|ws[1]|] == ws[1] by { JoinStartsWith(ws[1..]); }
      TokensSplit(ws[0], " ", y);
    }
  }

  lemma {:induction false} JoinStartsWith(ws: seq<string>)
    requires |ws| >= 1
    ensures |Join(ws, ' ')| >= |ws[0]| && Join(ws, ' ')[..|ws[0]|] == ws[0]
  {
  }

  /** A separator at the front of the text makes the first token empty. */
  lemma LeadingSepToken(s: string)
    requires s != [] && IsSep(s[0])
    ensures Tokens(s)[0] == ""
  {
  }

  /** A separator at the end of the text makes the last token empty. */
  lemma {:induction false} TrailingSepToken(s: string)
    requires s != [] && IsSep(s[|s| - 1])
    ensures Tokens(s)[|Tokens(s)| - 1] == ""
    decreases |s|
  {
    if IsSep(s[0]) {
      var u := SkipSeps(s[1..]);
      if u != [] {
        SkipSepsSuffix(s[1..]);
        assert u[|u| - 1] == s[|s| - 1];
        TrailingSepToken(u);
      }
    } else {
      var t := s[1..];
      assert t != [] && t[|t| - 1] == s[|s| - 1];
      TrailingSepToken(t);
      assert |Tokens(t)| >= 2 by {
        if |Tokens(t)| == 1 && !IsSep(t[0]) {
          TokensNonEmptyText(t);
        }
      }
    }
  }

  /** A text with a non-separator character has a non-empty token, so `[""]` only comes
      from a text made of separators alone. */
  lemma {:induction false} TokensNonEmptyText(s: string)
    requires s != [] && !IsSep(s[0])
    ensures Tokens(s)[0] != ""
  {
  }

  // --------------------------------------------------------------- parsing

  /** `list(map(float, toks))`: `None` when some token is not a number. */
  function ParseAll(toks: seq<string>): (r: Option<seq<real>>)
    ensures r.Some? <==> forall i :: 0 <= i < |toks| ==> ParseFloat(toks[i]).Some?
    ensures r.Some? ==> (|r.value| == |toks|
      && forall i :: 0 <= i < |toks| ==> ParseFloat(toks[i]) == Some(r.value[i]))
  {
    if toks == [] then Some([])
    else match (ParseFloat(toks[0]), ParseAll(toks[1..]))
      case (Some(v), Some(vs)) => Some([v] + vs)
      case _ => None
  }

  /** `[(h[i], h[i + 1]) for i in range(0, len(h) - 1, 2)]`: consecutive pairs, an odd last
      value dropped. */
  function Pairs(vs: seq<real>): (r: seq<Interval>)
    ensures |r| == |vs| / 2
    ensures forall k :: 0 <= k < |r| ==> r[k] == Interval(vs[2 * k], vs[2 * k + 1])
  {
    if |vs| < 2 then [] else [Interval(vs[0], vs[1])] + Pairs(vs[2..])
  }

  /** `extraire_creneaux`: the intervals of a cell text, `[]` when any token fails to parse. */
  function ExtractIntervals(text: string): seq<Interval> {
    match ParseAll(Tokens(text))
    case None => []
    case Some(vs) => Pairs(vs)
  }

  /** When every token is a number, the intervals are the consecutive pairs of token values
      (an odd last value dropped); when some token is not, there are none. */
  lemma ExtractIntervalsSpec(text: string)
    ensures var toks, r := Tokens(text), ExtractIntervals(text);
      (forall i :: 0 <= i < |toks| ==> ParseFloat(toks[i]).Some?) ==>
        |r| == |toks| / 2
        && forall k :: 0 <= k < |r| ==>
             ParseFloat(toks[2 * k]) == Some(r[k].start) && ParseFloat(toks[2 * k + 1]) == Some(r[k].end)
    ensures var toks := Tokens(text);
      (exists i :: 0 <= i < |toks| && ParseFloat(toks[i]).None?) ==> ExtractIntervals(text) == []
  {
  }

  /** A cell that starts or ends with a separator has an empty token, which `float` refuses. */
  lemma EdgeSeparatorGivesNothing(text: string)
    requires text != [] && (IsSep(text[0]) || IsSep(text[|text| - 1]))
    ensures ExtractIntervals(text) == []
  {
    var toks := Tokens(text);
    if IsSep(text[0]) {
      LeadingSepToken(text);
      assert ParseFloat(toks[0]).None?;
      ExtractIntervalsSpec(text);
    } else {
      TrailingSepToken(text);
      assert ParseFloat(toks[|toks| - 1]).None?;
      ExtractIntervalsSpec(text);
    }
  }

  lemma {:induction false} TwoShiftTokens(a: string, b: string, c: string, d: string)
    requires NoSep(a) && NoSep(b) && NoSep(c) && NoSep(d) && b != [] && c != [] && d != []
    ensures Tokens(a + " - " + b + "   " + c + " - " + d) == [a, b, c, d]
  {
    var gap, dash := "   ", " - ";
    SpacePieceSeps(1);
    SpacePieceSeps(2);
    var y3 := c + dash + d;
    var y2 := b + gap + y3;
    assert a + dash + b + gap + c + dash + d == a + dash + y2;
    TokensWord(d);
    TokensSplit(c, dash, d);
    TokensSplit(b, gap, y3);
    TokensSplit(a, dash, y2);
  }

  /** Two shifts typed in the formatted layout `a - b   c - d` read as the two pairs. */
  lemma TwoShifts(a: string, b: string, c: string, d: string, va: real, vb: real, vc: real, vd: real)
    requires b != [] && c != [] && d != []
    requires NoSep(a) && NoSep(b) && NoSep(c) && NoSep(d)
    requires ParseFloat(a) == Some(va) && ParseFloat(b) == Some(vb)
    requires ParseFloat(c) == Some(vc) && ParseFloat(d) == Some(vd)
    ensures ExtractIntervals(a + " - " + b + "   " + c + " - " + d) == [Interval(va, vb), Interval(vc, vd)]
  {
    var text := a + " - " + b + "   " + c + " - " + d;
    var toks, vs := [a, b, c, d], [va, vb, vc, vd];
    assert Tokens(text) == toks by {
      TwoShiftTokens(a, b, c, d);
    }
    assert ParseAll(toks) == Some(vs) by {
      forall i | 0 <= i < 4 ensures ParseFloat(toks[i]) == Some(vs[i]) {
        if i == 0 {} else if i == 1 {} else if i == 2 {}
      }
      ParsedValues(toks, vs);
    }
    assert Pairs(vs) == [Interval(va, vb), Interval(vc, vd)];
  }

  /** Tokens that all parse give their values. */
  lemma ParsedValues(toks: seq<string>, vs: seq<real>)
    requires |toks| == |vs| && forall i :: 0 <= i < |toks| ==> ParseFloat(toks[i]) == Some(vs[i])
    ensures ParseAll(toks) == Some(vs)
  {
    var r := ParseAll(toks);
    assert r.Some?;
    assert r.value == vs;
  }

  /** One shift written with a bare dash. */
  lemma OneShift(x: string, y: string, vx: real, vy: real)
    requires x != [] && y != [] && NoSep(x) && NoSep(y)
    requires ParseFloat(x) == Some(vx) && ParseFloat(y) == Some(vy)
    ensures ExtractIntervals(x + "-" + y) == [Interval(vx, vy)]
  {
    assert Tokens(x + "-" + y) == [x, y] by {
      TokensWord(y);
      TokensSplit(x, "-", y);
    }
    assert ParseAll([x, y]) == Some([vx, vy]) by {
      ParsedValues([x, y], [vx, vy]);
    }
    assert Pairs([vx, vy]) == [Interval(vx, vy)];
  }

  /** The worked example: two shifts written with dashes and a three-space gap. */
  lemma TwoShiftsExample(text: string)
    requires text == "7 - 14   15 - 19"
    ensures ExtractIntervals(text) == [Interval(7.0, 14.0), Interval(15.0, 19.0)]
  {
    ExampleParts(text);
    ExampleSeparators();
    ParseSmall("7", 7);
    ParseSmall("14", 14);
    ParseSmall("15", 15);
    ParseSmall("19", 19);
    TwoShifts("7", "14", "15", "19", 7.0, 14.0, 15.0, 19.0);
  }

  lemma ExampleParts(text: string)
    requires text == "7 - 14   15 - 19"
    ensures text == "7" + " - " + "14" + "   " + "15" + " - " + "19"
  {
  }

  lemma ExampleSeparators()
    ensures NoSep("7") && NoSep("14") && NoSep("15") && NoSep("19")
  {
  }

  /** A one- or two-digit token reads as its value. */
  lemma ParseSmall(s: string, n: nat)
    requires (|s| == 1 && IsDigit(s[0]) && n == DigitValue(s[0]))
          || (|s| == 2 && IsDigit(s[0]) && IsDigit(s[1]) && n == 10 * DigitValue(s[0]) + DigitValue(s[1]))
    ensures ParseFloat(s) == Some(n as real)
  {
    StripNoEdges(s);
    assert s[0] != '+' && s[0] != '-' && '.' !in s;
    assert s[..1][..0] == [];
    assert DigitsValue(s[..1]) == DigitValue(s[0]);
    if |s| == 2 {
      assert DigitsValue(s) == DigitsValue(s[..1]) * 10 + DigitValue(s[1]);
    } else {
      assert s[..1] == s;
    }
  }

  // --------------------------------------------------------------- overlap

  /** `chevauche`: the two intervals share a stretch of positive length. */
  predicate Overlaps(a: Interval, b: Interval) {
    Max(a.start, b.start) < Min(a.end, b.end)
  }

  function Max(x: real, y: real): real { if x < y then y else x }

  function Min(x: real, y: real): real { if x < y then x else y }

  lemma OverlapSymmetric(a: Interval, b: Interval)
    ensures Overlaps(a, b) <==> Overlaps(b, a)
  {
  }

  /** Touching or disjoint intervals do not overlap; an overlap needs two proper intervals. */
  lemma OverlapNeedsProperIntervals(a: Interval, b: Interval)
    ensures (a.end <= b.start || b.end <= a.start) ==> !Overlaps(a, b)
    ensures Overlaps(a, b) ==> a.start < a.end && b.start < b.end
  {
  }

  /** The analyser's test on one cell: some pair `i < j` of its intervals overlaps. */
  predicate HasOverlap(ivs: seq<Interval>) {
    exists i, j :: 0 <= i < j < |ivs| && Overlaps(ivs[i], ivs[j])
  }

  /** Shifts written in time order, each ending before the next starts, never raise an
      overlap. */
  lemma ChainedHasNoOverlap(ivs: seq<Interval>)
    requires forall k :: 0 <= k < |ivs| ==> ivs[k].start <= ivs[k].end
    requires forall k :: 0 <= k < |ivs| - 1 ==> ivs[k].end <= ivs[k + 1].start
    ensures !HasOverlap(ivs)
  {
    forall i, j | 0 <= i < j < |ivs| ensures ivs[i].end <= ivs[j].start {
      ChainBound(ivs, i, j);
    }
  }

  lemma {:induction false} ChainBound(ivs: seq<Interval>, i: nat, j: nat)
    requires forall k :: 0 <= k < |ivs| ==> ivs[k].start <= ivs[k].end
    requires forall k :: 0 <= k < |ivs| - 1 ==> ivs[k].end <= ivs[k + 1].start
    requires i < j < |ivs|
    ensures ivs[i].end <= ivs[j].start
    decreases j - i
  {
    if j > i + 1 {
      ChainBound(ivs, i, j - 1);
    }
  }

  // ------------------------------------------------------------ auto-format

  /** The piece the handler emits for the `k`-th space (1-based): `" - "` when `k` is odd,
      three spaces when it is even. */
  function SpacePiece(k: nat): string {
    if k % 2 != 0 then " - " else "   "
  }

  lemma SpacePieceSeps(n: nat)
    ensures AllSep(SpacePiece(n)) && |SpacePiece(n)| == 3
  {
    var p := SpacePiece(n);
    assert IsSep(' ') && IsSep('-');
    if n % 2 != 0 {
      assert p == [' ', '-', ' '];
    } else {
      assert p == [' ', ' ', ' '];
    }
  }

  /** The formatting pass over `s` when `k` spaces have been seen before it. */
  function Spread(s: string, k: nat): string {
    if s == [] then []
    else if s[0] == ' ' then SpacePiece(k + 1) + Spread(s[1..], k + 1)
    else [s[0]] + Spread(s[1..], k)
  }

  /** The text the change handler leaves in the cell: unchanged when it already holds a
      `-`, otherwise every single space replaced by its piece. */
  function Normalized(s: string): string {
    if '-' in s then s else Spread(s, 0)
  }

  /** The handler's loop (`space_counter`, `result_text`). */
  method Normalize(s: string) returns (r: string)
    ensures r == Normalized(s)
  {
    if '-' in s {
      return s;
    }
    r := "";
    var spaceCounter: nat := 0;
    var i := 0;
    while i < |s|
      invariant 0 <= i <= |s|
      invariant r + Spread(s[i..], spaceCounter) == Spread(s, 0)
    {
      ghost var r0 := r;
      SpreadStep(s, i, spaceCounter);
      if s[i] == ' ' {
        spaceCounter := spaceCounter + 1;
        if spaceCounter % 2 != 0 {
          r := r + " - ";
        } else {
          r := r + "   ";
        }
        AppendRegroup(r0, SpacePiece(spaceCounter), Spread(s[i + 1..], spaceCounter));
      } else {
        r := r + [s[i]];
        AppendRegroup(r0, [s[i]], Spread(s[i + 1..], spaceCounter));
      }
      i := i + 1;
    }
    assert s[|s|..] == [];
  }

  /** `Spread` from position `i`: the piece of character `i`, then the rest. */
  lemma SpreadStep(s: string, i: nat, k: nat)
    requires i < |s|
    ensures Spread(s[i..], k) == if s[i] == ' ' then SpacePiece(k + 1) + Spread(s[i + 1..], k + 1)
                                 else [s[i]] + Spread(s[i + 1..], k)
  {
    assert s[i..][0] == s[i] && s[i..][1..] == s[i + 1..];
  }

  lemma AppendRegroup(a: string, b: string, c: string)
    ensures a + (b + c) == (a + b) + c
  {
  }

  function CountSpaces(s: string): nat {
    if s == [] then 0 else (if s[0] == ' ' then 1 else 0) + CountSpaces(s[1..])
  }

  /** Each space grows into three characters. */
  lemma {:induction false} SpreadLength(s: string, k: nat)
    ensures |Spread(s, k)| == |s| + 2 * CountSpaces(s)
  {
    if s != [] {
      SpreadLength(s[1..], if s[0] == ' ' then k + 1 else k);
    }
  }

  lemma NormalizedLength(s: string)
    requires '-' !in s
    ensures |Normalized(s)| == |s| + 2 * CountSpaces(s)
  {
    SpreadLength(s, 0);
  }

  /** `s` with every space and every `-` removed. */
  function Letters(s: string): string {
    if s == [] then [] else (if s[0] == ' ' || s[0] == '-' then [] else [s[0]]) + Letters(s[1..])
  }

  /** The characters other than spaces keep their order: formatting only inserts spaces
      and dashes. */
  lemma {:induction false} SpreadKeepsLetters(s: string, k: nat)
    ensures Letters(Spread(s, k)) == Letters(s)
  {
    if s != [] {
      var k' := if s[0] == ' ' then k + 1 else k;
      SpreadKeepsLetters(s[1..], k');
      var piece := if s[0] == ' ' then SpacePiece(k + 1) else [s[0]];
      assert Spread(s, k) == piece + Spread(s[1..], k');
      LettersAppend(piece, Spread(s[1..], k'));
      assert s == [s[0]] + s[1..];
      LettersAppend([s[0]], s[1..]);
      assert Letters(" - ") == [] && Letters("   ") == [];
    }
  }

  lemma {:induction false} LettersAppend(a: string, b: string)
    ensures Letters(a + b) == Letters(a) + Letters(b)
  {
    if a == [] {
      assert a + b == b;
    } else {
      assert (a + b)[1..] == a[1..] + b;
      LettersAppend(a[1..], b);
    }
  }

  /** The piece of the `i`-th character: a space becomes the piece for its rank among the
      spaces of `s` (counting `k` earlier ones), any other character stays. */
  function PieceAt(s: string, k: nat, i: nat): string
    requires i < |s|
  {
    if s[i] == ' ' then SpacePiece(k + CountSpaces(s[..i + 1])) else [s[i]]
  }

  function Concat(ps: seq<string>): string {
    if ps == [] then [] else ps[0] + Concat(ps[1..])
  }

  /** The position-wise reading of the formatting pass: the output is the pieces of the
      characters of `s`, in order. */
  lemma {:induction false} SpreadByPosition(s: string, k: nat)
    ensures Spread(s, k) == Concat(seq(|s|, i requires 0 <= i < |s| => PieceAt(s, k, i)))
  {
    var ps := seq(|s|, i requires 0 <= i < |s| => PieceAt(s, k, i));
    if s != [] {
      var k' := if s[0] == ' ' then k + 1 else k;
      var t := s[1..];
      SpreadByPosition(t, k');
      var qs := seq(|t|, i requires 0 <= i < |t| => PieceAt(t, k', i));
      assert ps[1..] == qs by {
        forall i | 0 <= i < |t| ensures ps[1..][i] == qs[i] {
          PieceAtTail(s, k, i);
        }
      }
      assert s[..1][1..] == [];
      assert CountSpaces(s[..1]) == if s[0] == ' ' then 1 else 0;
      assert Concat(ps) == ps[0] + Concat(ps[1..]);
    }
  }

  /** Dropping the first character shifts positions by one and moves its space, if any,
      into the count of earlier spaces. */
  lemma PieceAtTail(s: string, k: nat, i: nat)
    requires i + 1 < |s|
    ensures PieceAt(s, k, i + 1) == PieceAt(s[1..], if s[0] == ' ' then k + 1 else k, i)
  {
    var t := s[1..];
    assert s[..i + 2][1..] == t[..i + 1];
    assert CountSpaces(s[..i + 2]) == (if s[0] == ' ' then 1 else 0) + CountSpaces(t[..i + 1]);
    assert s[i + 1] == t[i];
  }

  lemma {:induction false} SpreadNoSpace(s: string, k: nat)
    requires ' ' !in s
    ensures Spread(s, k) == s
  {
    if s != [] {
      SpreadNoSpace(s[1..], k);
      assert s == [s[0]] + s[1..];
    }
  }

  lemma {:induction false} SpreadDash(s: string, k: nat)
    requires k % 2 == 0 && ' ' in s
    ensures '-' in Spread(s, k)
  {
    if s[0] == ' ' {
      assert Spread(s, k)[1] == '-';
    } else {
      SpreadDash(s[1..], k);
    }
  }

  /** Formatting twice is formatting once: a formatted text with a space now holds a dash. */
  lemma NormalizedIdempotent(s: string)
    ensures Normalized(Normalized(s)) == Normalized(s)
  {
    if '-' !in s {
      if ' ' in s {
        SpreadDash(s, 0);
      } else {
        SpreadNoSpace(s, 0);
      }
    }
  }

  lemma {:induction false} SkipSpread(x: string, k: nat) returns (k': nat)
    ensures SkipSeps(Spread(x, k)) == Spread(SkipSeps(x), k')
  {
    if x == [] {
      k' := k;
    } else if x[0] == ' ' {
      var y := Spread(x[1..], k + 1);
      k' := SkipSpread(x[1..], k + 1);
      assert Spread(x, k) == SpacePiece(k + 1) + y;
      SpacePieceSeps(k + 1);
      SkipPrefix(SpacePiece(k + 1), y);
      assert SkipSeps(x) == SkipSeps(x[1..]);
    } else if IsSep(x[0]) {
      var y := Spread(x[1..], k);
      k' := SkipSpread(x[1..], k);
      assert Spread(x, k) == [x[0]] + y;
      SkipPrefix([x[0]], y);
      assert SkipSeps(x) == SkipSeps(x[1..]);
    } else {
      k' := k;
      assert Spread(x, k)[0] == x[0];
    }
  }

  lemma {:induction false} SkipPrefix(p: string, y: string)
    requires AllSep(p)
    ensures SkipSeps(p + y) == SkipSeps(y)
  {
    if p == [] {
      assert p + y == y;
    } else {
      assert (p + y)[1..] == p[1..] + y;
      SkipPrefix(p[1..], y);
    }
  }

  /** Formatting never changes the tokens of a text. */
  lemma {:induction false} TokensSpread(s: string, k: nat)
    ensures Tokens(Spread(s, k)) == Tokens(s)
    decreases |s|
  {
    if s != [] {
      var k1 := if s[0] == ' ' then k + 1 else k;
      var t := s[1..];
      var y := Spread(t, k1);
      if IsSep(s[0]) {
        var k2 := SkipSpread(t, k1);
        TokensSpread(SkipSeps(t), k2);
        if s[0] == ' ' {
          var p := SpacePiece(k + 1);
          assert Spread(s, k) == p + y;
          assert (p + y)[1..] == p[1..] + y;
          SkipPrefix(p[1..], y);
        } else {
          assert Spread(s, k) == [s[0]] + y;
          assert ([s[0]] + y)[1..] == y;
        }
      } else {
        TokensSpread(t, k);
        assert Spread(s, k) == [s[0]] + y;
        assert ([s[0]] + y)[1..] == y;
      }
    }
  }

  /** So the intervals read from a cell are the same before and after the auto-format. */
  lemma NormalizedKeepsIntervals(s: string)
    ensures ExtractIntervals(Normalized(s)) == ExtractIntervals(s)
  {
    TokensSpread(s, 0);
  }
}
