/** Saved plannings: one record per row with the row's name and the text of each day, and
    the rule that puts such records back into the grid by name. The reading and writing of
    the file is not part of this model; the window's loops are in the `Planning` module. */
module Snapshot {
  import opened Text
  import opened Totals
  import opened Grid
  import opened Findings

  /** One employee of a saved planning: the name and the day texts keyed by day name. A
      record whose file entry has no name reads with the empty name, and a missing day as
      a missing key. */
  datatype Entry = Entry(name: string, days: map<string, string>)

  lemma DayNamesDistinct()
    ensures |DayNames| == Days
    ensures forall i, j :: 0 <= i < j < Days ==> DayNames[i] != DayNames[j]
  {
  }

  // ------------------------------------------------------------ saving

  /** The day map of a row as the save loop builds it, after its first `k` days. */
  function DaysMap(row: seq<string>, k: nat): (m: map<string, string>)
    requires k <= Days && |row| == ColumnCount
  {
    if k == 0 then map[] else DaysMap(row, k - 1)[DayNames[k - 1] := row[k]]
  }

  /** The record of a row: its stripped name and its seven day texts as they stand. */
  function SavedRow(row: seq<string>): Entry
    requires |row| == ColumnCount
  {
    Entry(Strip(row[0]), DaysMap(row, Days))
  }

  /** The records of the whole grid, row by row. */
  function Saved(cells: seq<seq<string>>): seq<Entry>
    requires Shaped(cells)
  {
    seq(|cells|, r requires 0 <= r < |cells| => SavedRow(cells[r]))
  }

  /** `horaires.get(jour, "")`: a day's text in a record, empty when it is missing. */
  function DayText(days: map<string, string>, d: nat): string
    requires d < Days
  {
    if DayNames[d] in days then days[DayNames[d]] else ""
  }

  /** The day map of a row holds exactly the seven day names, each with its cell's text. */
  lemma {:induction false} DaysMapMeaning(row: seq<string>, k: nat)
    requires k <= Days && |row| == ColumnCount
    ensures forall d :: 0 <= d < Days ==> (DayNames[d] in DaysMap(row, k) <==> d < k)
    ensures forall d :: 0 <= d < k ==> DaysMap(row, k)[DayNames[d]] == row[d + 1]
  {
    DayNamesDistinct();
    if k > 0 {
      DaysMapMeaning(row, k - 1);
    }
  }

  /** Every day of a saved row reads back as the row's cell of that day. */
  lemma SavedDays(row: seq<string>)
    requires |row| == ColumnCount
    ensures forall d :: 0 <= d < Days ==> DayText(SavedRow(row).days, d) == row[d + 1]
  {
    DaysMapMeaning(row, Days);
  }

  // ------------------------------------------------------------ loading

  /** How a name is matched: stripped and lower-cased. */
  function NameKey(s: string): string {
    Lower(Strip(s))
  }

  lemma NameKeyStrip(s: string)
    ensures NameKey(Strip(s)) == NameKey(s)
  {
    StripIdempotent(s);
  }

  predicate IsDay(c: int) {
    1 <= c <= Days
  }

  /** The day cells `1 .. c - 1` of a row emptied, the others as they were. */
  function ClearedFrom(row: seq<string>, c: nat): (r: seq<string>)
    ensures |r| == |row|
  {
    seq(|row|, j requires 0 <= j < |row| => if 1 <= j < c then "" else row[j])
  }

  /** The first `n` rows with their day cells emptied: the first loop of the load. */
  function Cleared(cells: seq<seq<string>>, n: nat): (r: seq<seq<string>>)
    ensures |r| == |cells| && (Shaped(cells) ==> Shaped(r))
  {
    seq(|cells|, i requires 0 <= i < |cells| => if i < n then ClearedFrom(cells[i], TotalColumn) else cells[i])
  }

  /** `nom_to_row` after the first `n` rows: each row's name key maps to the row, a later
      row with the same key taking over. */
  function NameIndex(cells: seq<seq<string>>, n: nat): (m: map<string, nat>)
    requires Shaped(cells) && n <= |cells|
    ensures forall k :: k in m ==> m[k] < n
  {
    if n == 0 then map[] else NameIndex(cells, n - 1)[NameKey(cells[n - 1][0]) := n - 1]
  }

  predicate IndexIn(index: map<string, nat>, rows: nat) {
    forall k :: k in index ==> index[k] < rows
  }

  /** A row whose day cells `1 .. k` hold a record's texts. */
  function FilledUpTo(row: seq<string>, days: map<string, string>, k: nat): (r: seq<string>)
    requires k <= Days
    ensures |r| == |row|
  {
    seq(|row|, j requires 0 <= j < |row| => if 1 <= j <= k then DayText(days, j - 1) else row[j])
  }

  /** One record of the file: written into the row its name finds, ignored otherwise. */
  function ApplyRecord(cells: seq<seq<string>>, index: map<string, nat>, rec: Entry): (r: seq<seq<string>>)
    requires IndexIn(index, |cells|)
    ensures |r| == |cells| && (Shaped(cells) ==> Shaped(r))
  {
    var key := NameKey(rec.name);
    if key in index then cells[index[key] := FilledUpTo(cells[index[key]], rec.days, Days)] else cells
  }

  /** The first `n` records applied in order. */
  function ApplyRecords(cells: seq<seq<string>>, index: map<string, nat>, recs: seq<Entry>, n: nat): (r: seq<seq<string>>)
    requires IndexIn(index, |cells|) && n <= |recs|
    ensures |r| == |cells| && (Shaped(cells) ==> Shaped(r))
  {
    if n == 0 then cells else ApplyRecord(ApplyRecords(cells, index, recs, n - 1), index, recs[n - 1])
  }

  /** `load_planning` on the grid's texts: day cells emptied, then each record written into
      the last row whose name matches its own. */
  function Loaded(cells: seq<seq<string>>, recs: seq<Entry>): seq<seq<string>>
    requires Shaped(cells)
  {
    ApplyRecords(Cleared(cells, |cells|), NameIndex(cells, |cells|), recs, |recs|)
  }

  // ------------------------------------------------------------ properties

  /** Row `r` is the last of the first `n` rows whose name key is `k`. */
  predicate LastRowOf(cells: seq<seq<string>>, n: nat, k: string, r: nat)
    requires Shaped(cells) && r < n <= |cells|
  {
    NameKey(cells[r][0]) == k && forall r' :: r < r' < n ==> NameKey(cells[r'][0]) != k
  }

  /** The index knows every name of the grid. */
  lemma {:induction false} NameIndexKnows(cells: seq<seq<string>>, n: nat)
    requires Shaped(cells) && n <= |cells|
    ensures forall r :: 0 <= r < n ==> NameKey(cells[r][0]) in NameIndex(cells, n)
  {
    if n > 0 {
      NameIndexKnows(cells, n - 1);
    }
  }

  /** Each name of the index leads to the last of the first `n` rows that has it. */
  ghost predicate IndexPointsLast(cells: seq<seq<string>>, n: nat)
    requires Shaped(cells) && n <= |cells|
  {
    forall k :: k in NameIndex(cells, n) ==> LastRowOf(cells, n, k, NameIndex(cells, n)[k])
  }

  lemma {:induction false} NameIndexLast(cells: seq<seq<string>>, n: nat)
    requires Shaped(cells) && n <= |cells|
    ensures IndexPointsLast(cells, n)
  {
    if n > 0 {
      NameIndexLast(cells, n - 1);
      forall k | k in NameIndex(cells, n) ensures LastRowOf(cells, n, k, NameIndex(cells, n)[k]) {
        NameIndexLastStep(cells, n, k);
      }
    }
  }

  lemma NameIndexLastStep(cells: seq<seq<string>>, n: nat, k: string)
    requires Shaped(cells) && 0 < n <= |cells| && k in NameIndex(cells, n)
    requires IndexPointsLast(cells, n - 1)
    ensures LastRowOf(cells, n, k, NameIndex(cells, n)[k])
  {
    var m := NameIndex(cells, n);
    if k != NameKey(cells[n - 1][0]) {
      var prev := NameIndex(cells, n - 1);
      assert k in prev && m[k] == prev[k];
      assert LastRowOf(cells, n - 1, k, prev[k]);
    }
  }

  /** The index reads only the name column, so emptying day cells first does not change it. */
  lemma {:induction false} NameIndexOfNames(a: seq<seq<string>>, b: seq<seq<string>>, n: nat)
    requires Shaped(a) && Shaped(b) && n <= |a| && n <= |b|
    requires forall r :: 0 <= r < n ==> a[r][0] == b[r][0]
    ensures NameIndex(a, n) == NameIndex(b, n)
  {
    if n > 0 {
      NameIndexOfNames(a, b, n - 1);
    }
  }

  /** Under distinct names every row is found by its own name. */
  lemma IndexOfDistinct(cells: seq<seq<string>>, r: nat)
    requires Shaped(cells) && r < |cells|
    requires forall a, b :: 0 <= a < b < |cells| ==> NameKey(cells[a][0]) != NameKey(cells[b][0])
    ensures NameKey(cells[r][0]) in NameIndex(cells, |cells|)
    ensures NameIndex(cells, |cells|)[NameKey(cells[r][0])] == r
  {
    NameIndexKnows(cells, |cells|);
    NameIndexLast(cells, |cells|);
    var k := NameKey(cells[r][0]);
    var i := NameIndex(cells, |cells|)[k];
    assert LastRowOf(cells, |cells|, k, i);
    assert NameKey(cells[i][0]) == k;
  }

  /** Applying records writes only day cells of the rows their names find: the names, the
      totals and the shape stay. */
  lemma {:induction false} ApplyRecordsFrame(cells: seq<seq<string>>, index: map<string, nat>, recs: seq<Entry>, n: nat)
    requires Shaped(cells) && IndexIn(index, |cells|) && n <= |recs|
    ensures var r := ApplyRecords(cells, index, recs, n);
      Shaped(r) && forall i :: 0 <= i < |cells| ==> r[i][0] == cells[i][0] && r[i][TotalColumn] == cells[i][TotalColumn]
  {
    if n > 0 {
      ApplyRecordsFrame(cells, index, recs, n - 1);
    }
  }

  /** Loading keeps the shape, every name and every total. */
  lemma LoadedFrame(cells: seq<seq<string>>, recs: seq<Entry>)
    requires Shaped(cells)
    ensures var r := Loaded(cells, recs);
      |r| == |cells| && Shaped(r)
      && forall i :: 0 <= i < |cells| ==> r[i][0] == cells[i][0] && r[i][TotalColumn] == cells[i][TotalColumn]
  {
    var c := Cleared(cells, |cells|);
    assert Shaped(c);
    ApplyRecordsFrame(c, NameIndex(cells, |cells|), recs, |recs|);
  }

  /** Only the records before `n` matter. */
  lemma {:induction false} ApplyRecordsPrefix(cells: seq<seq<string>>, index: map<string, nat>, recs: seq<Entry>, more: seq<Entry>, n: nat)
    requires IndexIn(index, |cells|) && n <= |recs|
    ensures ApplyRecords(cells, index, recs + more, n) == ApplyRecords(cells, index, recs, n)
  {
    if n > 0 {
      ApplyRecordsPrefix(cells, index, recs, more, n - 1);
      assert (recs + more)[n - 1] == recs[n - 1];
    }
  }

  lemma ApplyRecordsLast(cells: seq<seq<string>>, index: map<string, nat>, recs: seq<Entry>, rec: Entry)
    requires IndexIn(index, |cells|)
    ensures ApplyRecords(cells, index, recs + [rec], |recs| + 1)
      == ApplyRecord(ApplyRecords(cells, index, recs, |recs|), index, rec)
  {
    ApplyRecordsPrefix(cells, index, recs, [rec], |recs|);
    assert (recs + [rec])[|recs|] == rec;
  }

  /** A record whose name matches no row changes nothing. */
  lemma LoadUnknownIgnored(cells: seq<seq<string>>, recs: seq<Entry>, rec: Entry)
    requires Shaped(cells)
    requires forall r :: 0 <= r < |cells| ==> NameKey(cells[r][0]) != NameKey(rec.name)
    ensures Loaded(cells, recs + [rec]) == Loaded(cells, recs)
  {
    NameIndexLast(cells, |cells|);
    ApplyRecordsLast(Cleared(cells, |cells|), NameIndex(cells, |cells|), recs, rec);
  }

  /** The last record applied fills the day cells of the last row bearing its name with its
      day texts, a missing day as the empty text. */
  lemma LoadLastRecordWins(cells: seq<seq<string>>, recs: seq<Entry>, rec: Entry, r: nat)
    requires Shaped(cells) && r < |cells|
    requires NameKey(cells[r][0]) == NameKey(rec.name)
    requires forall r' :: r < r' < |cells| ==> NameKey(cells[r'][0]) != NameKey(rec.name)
    ensures forall d :: 0 <= d < Days ==> Loaded(cells, recs + [rec])[r][d + 1] == DayText(rec.days, d)
  {
    var index := NameIndex(cells, |cells|);
    NameIndexKnows(cells, |cells|);
    NameIndexLast(cells, |cells|);
    var key := NameKey(rec.name);
    assert index[key] == r by {
      var i := index[key];
      assert LastRowOf(cells, |cells|, key, i);
      assert NameKey(cells[i][0]) == key;
    }
    var c := Cleared(cells, |cells|);
    ApplyRecordsLast(c, index, recs, rec);
    var before := ApplyRecords(c, index, recs, |recs|);
    assert Loaded(cells, recs + [rec]) == before[r := FilledUpTo(before[r], rec.days, Days)];
  }

  /** A row that no record names keeps its day cells empty. */
  lemma {:induction false} UnnamedRowEmpty(cells: seq<seq<string>>, recs: seq<Entry>, n: nat, r: nat)
    requires Shaped(cells) && r < |cells| && n <= |recs|
    requires forall i :: 0 <= i < n ==> NameKey(recs[i].name) != NameKey(cells[r][0])
    ensures forall c :: IsDay(c) ==>
      ApplyRecords(Cleared(cells, |cells|), NameIndex(cells, |cells|), recs, n)[r][c] == ""
  {
    if n > 0 {
      UnnamedRowEmpty(cells, recs, n - 1, r);
      NameIndexLast(cells, |cells|);
      var index := NameIndex(cells, |cells|);
      var key := NameKey(recs[n - 1].name);
      if key in index {
        assert LastRowOf(cells, |cells|, key, index[key]);
      }
    }
  }

  lemma LoadUnnamedRowEmpty(cells: seq<seq<string>>, recs: seq<Entry>, r: nat)
    requires Shaped(cells) && r < |cells|
    requires forall i :: 0 <= i < |recs| ==> NameKey(recs[i].name) != NameKey(cells[r][0])
    ensures forall c :: IsDay(c) ==> Loaded(cells, recs)[r][c] == ""
  {
    UnnamedRowEmpty(cells, recs, |recs|, r);
  }

  /** Two grids whose rows carry the same names, row by row. */
  predicate SameNames(src: seq<seq<string>>, target: seq<seq<string>>)
    requires Shaped(src) && Shaped(target) && |src| == |target|
  {
    forall r :: 0 <= r < |src| ==> NameKey(target[r][0]) == NameKey(src[r][0])
  }

  /** No two rows carry the same name. */
  predicate DistinctNames(cells: seq<seq<string>>)
    requires Shaped(cells)
  {
    forall a, b :: 0 <= a < b < |cells| ==> NameKey(cells[a][0]) != NameKey(cells[b][0])
  }

  /** The load of `target` after the first `n` records saved from `src`. */
  function SavedLoaded(src: seq<seq<string>>, target: seq<seq<string>>, n: nat): (out: seq<seq<string>>)
    requires Shaped(src) && Shaped(target) && n <= |src|
    ensures |out| == |target| && Shaped(out)
  {
    ApplyRecords(Cleared(target, |target|), NameIndex(target, |target|), Saved(src), n)
  }

  /** The rows before `n` hold the day texts of `src`; the day cells of the others are empty. */
  ghost predicate AppliedUpTo(src: seq<seq<string>>, out: seq<seq<string>>, n: nat)
    requires Shaped(src) && Shaped(out) && |out| == |src|
  {
    forall r, c :: 0 <= r < |src| && IsDay(c) ==> out[r][c] == if r < n then src[r][c] else ""
  }

  /** While the records of a save are applied to a grid with the same, distinct names, the
      rows already reached hold the saved day texts and the others are still empty. */
  lemma {:induction false} SavedApplied(src: seq<seq<string>>, target: seq<seq<string>>, n: nat)
    requires Shaped(src) && Shaped(target) && |src| == |target| && n <= |src|
    requires SameNames(src, target) && DistinctNames(target)
    ensures AppliedUpTo(src, SavedLoaded(src, target, n), n)
  {
    if n == 0 {
      var out := SavedLoaded(src, target, 0);
      assert out == Cleared(target, |target|);
      forall r, c | 0 <= r < |src| && IsDay(c) ensures out[r][c] == "" {
        assert out[r] == ClearedFrom(target[r], TotalColumn);
      }
    } else {
      SavedApplied(src, target, n - 1);
      SavedStep(src, target, n);
    }
  }

  lemma SavedStep(src: seq<seq<string>>, target: seq<seq<string>>, n: nat)
    requires Shaped(src) && Shaped(target) && |src| == |target| && 0 < n <= |src|
    requires SameNames(src, target) && DistinctNames(target)
    requires AppliedUpTo(src, SavedLoaded(src, target, n - 1), n - 1)
    ensures AppliedUpTo(src, SavedLoaded(src, target, n), n)
  {
    var before := SavedLoaded(src, target, n - 1);
    var out := SavedLoaded(src, target, n);
    var days := Saved(src)[n - 1].days;
    SavedRecordRow(src, target, n);
    assert days == SavedRow(src[n - 1]).days;
    SavedDays(src[n - 1]);
    forall r, c | 0 <= r < |src| && IsDay(c) ensures out[r][c] == if r < n then src[r][c] else "" {
      if r == n - 1 {
        assert out[r] == FilledUpTo(before[r], days, Days);
        assert out[r][c] == DayText(days, c - 1);
      } else {
        assert out[r] == before[r];
      }
    }
  }

  /** The `n`-th saved record lands in row `n - 1` of a grid with the same, distinct names. */
  lemma SavedRecordRow(src: seq<seq<string>>, target: seq<seq<string>>, n: nat)
    requires Shaped(src) && Shaped(target) && |src| == |target| && 0 < n <= |src|
    requires SameNames(src, target) && DistinctNames(target)
    ensures var before := SavedLoaded(src, target, n - 1);
      SavedLoaded(src, target, n) == before[n - 1 := FilledUpTo(before[n - 1], Saved(src)[n - 1].days, Days)]
  {
    var index := NameIndex(target, |target|);
    var rec := Saved(src)[n - 1];
    assert rec == SavedRow(src[n - 1]);
    NameKeyStrip(src[n - 1][0]);
    IndexOfDistinct(target, n - 1);
    assert index[NameKey(rec.name)] == n - 1;
  }

  /** Saving a grid and loading the records into a grid whose rows carry the same names,
      each once, gives back every day text. */
  lemma SaveLoadRoundTrip(src: seq<seq<string>>, target: seq<seq<string>>)
    requires Shaped(src) && Shaped(target) && |src| == |target|
    requires SameNames(src, target) && DistinctNames(target)
    ensures forall r, c :: 0 <= r < |src| && IsDay(c) ==> Loaded(target, Saved(src))[r][c] == src[r][c]
  {
    SavedApplied(src, target, |src|);
    assert Loaded(target, Saved(src)) == SavedLoaded(src, target, |src|);
  }
}
