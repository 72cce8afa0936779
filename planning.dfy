/** The window's table and its edit history as one object updated in place. Each method
    does what the corresponding handler of the window does, loop by loop, and is proved to
    leave the state the matching function of the `Grid`, `Editing` or `Clipboard` module
    describes, with the window's own total rule for its roster. */
module Planning {
  import opened Text
  import opened Intervals
  import opened Totals
  import opened History
  import opened Grid
  import opened Editing
  import opened Clipboard
  import opened Findings
  import opened Snapshot

  class Window {
    /** The table's texts, `rows x 9`. */
    var cells: seq<seq<string>>
    /** `historique` and `redo_stack`, keyed by `(row, column)`. */
    var history: map<(int, int), seq<string>>
    var redo: map<(int, int), seq<string>>
    /** The roster the totals read contracts from. */
    const employees: seq<Employee>
    /** The total rule for that roster. */
    const rule: TotalRule

    function State(): Sheet
      reads this
    {
      Sheet(cells, history, redo)
    }

    function Rule(): TotalRule {
      rule
    }

    /** The table is `rows x 9`. */
    predicate Valid()
      reads this
    {
      Shaped(cells)
    }

    /** The rule gives every full row the total text for the roster. */
    ghost predicate RuleFitsRoster() {
      forall row {:trigger TotalText(row, employees)} :: |row| == ColumnCount ==> rule(row) == TotalText(row, employees)
    }

    /** A window over the given table and roster; the history starts as `init_historique`
        leaves it. */
    constructor (table: seq<seq<string>>, roster: seq<Employee>)
      requires Shaped(table)
      ensures Valid() && RuleFitsRoster() && cells == table && employees == roster && Initialised(State())
      ensures Rule() == RosterTotal(roster)
    {
      cells := table;
      employees := roster;
      rule := RosterTotal(roster);
      history := map[];
      redo := map[];
      new;
      InitHistory();
    }

    /** `init_historique`: every cell's history becomes its current text, every redo
        stack empty. */
    method InitHistory()
      requires Valid()
      modifies this
      ensures cells == old(cells) && Initialised(State())
    {
      var r := 0;
      while r < |cells|
        invariant 0 <= r <= |cells| && cells == old(cells)
        invariant forall r', c' :: 0 <= r' < r && 0 <= c' < ColumnCount ==>
          Get(history, (r', c')) == [cells[r'][c']] && Get(redo, (r', c')) == []
      {
        var c := 0;
        while c < ColumnCount
          invariant 0 <= c <= ColumnCount && cells == old(cells)
          invariant forall r', c' :: (0 <= r' < r && 0 <= c' < ColumnCount) || (r' == r && 0 <= c' < c) ==>
            Get(history, (r', c')) == [cells[r'][c']] && Get(redo, (r', c')) == []
        {
          history := history[(r, c) := [cells[r][c]]];
          redo := redo[(r, c) := []];
          c := c + 1;
        }
        r := r + 1;
      }
    }

    // ------------------------------------------------------------ one cell

    /** The recording rule: read the cell's two lists (a missing one is empty), append the
        text when it is new and then empty the redo list, store both. */
    method RecordText(r: int, c: int, text: string)
      requires Valid() && InGrid(State(), r, c)
      modifies this
      ensures State() == WithRecord(old(State()), r, c, text)
    {
      var h := Get(history, (r, c));
      var rd := Get(redo, (r, c));
      if h == [] || h[|h| - 1] != text {
        h := h + [text];
        rd := [];
      }
      history := history[(r, c) := h];
      redo := redo[(r, c) := rd];
    }

    method SetText(r: int, c: int, text: string)
      requires Valid() && InGrid(State(), r, c)
      modifies this
      ensures State() == WithText(old(State()), r, c, text)
    {
      cells := cells[r := cells[r][c := text]];
    }

    /** `calculer_total_ligne(r)`: the row's hours, rounded and written to the total
        column when the text differs. The write re-enters the cell handler for the total
        column, whose only effect is to record that text. */
    method RefreshRowTotal(r: int)
      requires Valid() && RuleFitsRoster() && 0 <= r < |cells|
      modifies this
      ensures State() == RefreshTotal(old(State()), r, Rule())
    {
      var total := ComputeRowTotal(cells[r], employees);
      var text := FormatTotal(RoundHundredths(total));
      assert text == TotalText(cells[r], employees);
      if text != cells[r][TotalColumn] {
        PutIsTextThenRecord(State(), r, TotalColumn, text, text);
        SetText(r, TotalColumn, text);
        RecordText(r, TotalColumn, text);
      }
    }

    /** `eventListener_chgt_cellule(r, c)`: the handler Qt calls after a cell's text
        changed. */
    method OnCellChanged(r: int, c: int)
      requires Valid() && RuleFitsRoster() && InGrid(State(), r, c)
      modifies this
      ensures State() == HandleChange(old(State()), r, c, Rule())
    {
      if c == 0 {
        return;
      }
      var original := cells[r][c];
      if '-' in original {
        return;
      }
      var result := Normalize(original);
      ghost var s0 := State();
      PutIsTextThenRecord(s0, r, c, result, result);
      if result != original {
        SetText(r, c, result);
      } else {
        WithTextSame(s0, r, c);
      }
      RecordText(r, c, cells[r][c]);
      assert State() == Put(s0, r, c, result, Record(StacksAt(s0, r, c), result));
      RefreshRowTotal(r);
    }

    /** The user commits `text` into cell `(r, c)`; Qt calls the handler only when the
        text changed. */
    method CommitText(r: int, c: int, text: string)
      requires Valid() && RuleFitsRoster() && InGrid(State(), r, c)
      modifies this
      ensures State() == Edit(old(State()), r, c, text, Rule())
    {
      if text == cells[r][c] {
        return;
      }
      SetText(r, c, text);
      OnCellChanged(r, c);
    }

    /** `mettre_a_jour_historique_et_total(r, c)`. */
    method UpdateHistoryAndTotal(r: int, c: int)
      requires Valid() && RuleFitsRoster() && InGrid(State(), r, c)
      modifies this
      ensures State() == Editing.UpdateHistoryAndTotal(old(State()), r, c, Rule())
    {
      RecordText(r, c, Strip(cells[r][c]));
      RefreshRowTotal(r);
    }

    /** One selected cell of an undo, a redo or a clear. */
    method StepOne(r: int, c: int, op: Op)
      requires Valid() && InGrid(State(), r, c)
      modifies this
      ensures State() == StepCell(old(State()), r, c, op)
    {
      var h := Get(history, (r, c));
      var rd := Get(redo, (r, c));
      match op {
        case UndoOp =>
          if |h| > 1 {
            rd := rd + [h[|h| - 1]];
            h := h[..|h| - 1];
            cells := cells[r := cells[r][c := h[|h| - 1]]];
            history := history[(r, c) := h];
            redo := redo[(r, c) := rd];
          }
        case RedoOp =>
          if rd != [] {
            var value := rd[|rd| - 1];
            rd := rd[..|rd| - 1];
            h := h + [value];
            cells := cells[r := cells[r][c := value]];
            history := history[(r, c) := h];
            redo := redo[(r, c) := rd];
          }
        case ClearOp =>
          var current := cells[r][c];
          if h == [] || current != h[|h| - 1] {
            h := h + [current];
          }
          cells := cells[r := cells[r][c := ""]];
          h := h + [""];
          history := history[(r, c) := h];
          redo := redo[(r, c) := []];
      }
    }

    /** The selected columns of one row, left to right. */
    method StepRow(r: int, sel: Rect, op: Op)
      requires Valid() && RectIn(sel, |cells|) && 0 <= r < |cells|
      modifies this
      ensures State() == StepCols(old(State()), r, sel.left, Width(sel), op)
    {
      ghost var s0 := State();
      ghost var n: nat := 0;
      var c := sel.left;
      while c <= sel.right
        invariant c == sel.left + n && n <= Width(sel) && Valid() && |cells| == |s0.cells|
        invariant State() == StepCols(s0, r, sel.left, n, op)
      {
        StepNextCell(s0, r, sel.left, c, n, op);
        c, n := c + 1, n + 1;
      }
      assert n == Width(sel);
    }

    /** Cell `(r, left + n)` of a row sweep. */
    method StepNextCell(ghost s0: Sheet, r: int, left: int, c: int, ghost n: nat, op: Op)
      requires Valid() && Shaped(s0.cells) && 0 <= r < |s0.cells| && 0 <= left && c == left + n < ColumnCount
      requires State() == StepCols(s0, r, left, n, op)
      modifies this
      ensures State() == StepCols(s0, r, left, n + 1, op)
    {
      StepColsNext(s0, r, left, n, op);
      StepOne(r, c, op);
    }

    // ------------------------------------------------------------ the selection

    /** `retour_en_arriere` (with `UndoOp`) and `refaire` (with `RedoOp`): each selected
        row's cells, then that row's total. */
    method UndoRedo(sel: Option<Rect>, op: Op)
      requires Valid() && RuleFitsRoster() && (sel.Some? ==> RectIn(sel.value, |cells|)) && op != ClearOp
      modifies this
      ensures State() == UndoRedoSelection(old(State()), sel, op, Rule())
    {
      if sel.None? {
        return;
      }
      UndoRedoRows(sel.value, op);
    }

    /** The row loop of `retour_en_arriere` and `refaire`. */
    method UndoRedoRows(rect: Rect, op: Op)
      requires Valid() && RuleFitsRoster() && RectIn(rect, |cells|)
      modifies this
      ensures State() == StepRowsWithTotals(old(State()), rect, Height(rect), op, Rule())
    {
      ghost var s0 := State();
      ghost var n: nat := 0;
      var r := rect.top;
      while r <= rect.bottom
        invariant r == rect.top + n && n <= Height(rect) && Valid() && |cells| == |s0.cells|
        invariant State() == StepRowsWithTotals(s0, rect, n, op, Rule())
      {
        UndoRedoRow(s0, rect, r, n, op);
        r, n := r + 1, n + 1;
      }
    }

    /** Row `top + n` of `retour_en_arriere` or `refaire`: its selected cells, then its
        total. */
    method UndoRedoRow(ghost s0: Sheet, sel: Rect, r: int, ghost n: nat, op: Op)
      requires Valid() && RuleFitsRoster() && Shaped(s0.cells) && RectIn(sel, |s0.cells|)
      requires r == sel.top + n && n < Height(sel)
      requires State() == StepRowsWithTotals(s0, sel, n, op, Rule())
      modifies this
      ensures State() == StepRowsWithTotals(s0, sel, n + 1, op, Rule())
    {
      StepRowsNext(s0, sel, n, op, Rule());
      SweptRowNext(s0, sel, n, op, Rule());
      StepRow(r, sel, op);
      RefreshRowTotal(r);
    }

    /** `effacer_cellules_selectionnees`: every selected cell, then each selected row's
        total. */
    method Clear(sel: Option<Rect>)
      requires Valid() && RuleFitsRoster() && (sel.Some? ==> RectIn(sel.value, |cells|))
      modifies this
      ensures State() == ClearSelection(old(State()), sel, Rule())
    {
      if sel.None? {
        return;
      }
      var rect := sel.value;
      SweepCells(rect, ClearOp);
      RefreshRowTotals(rect);
    }

    /** The cell loop of `effacer_cellules_selectionnees` (with `ClearOp`): every selected
        cell, row by row. */
    method SweepCells(rect: Rect, op: Op)
      requires Valid() && RectIn(rect, |cells|)
      modifies this
      ensures State() == StepRect(old(State()), rect, Height(rect), op)
    {
      ghost var s0 := State();
      ghost var n: nat := 0;
      var r := rect.top;
      while r <= rect.bottom
        invariant r == rect.top + n && n <= Height(rect) && Valid() && |cells| == |s0.cells|
        invariant State() == StepRect(s0, rect, n, op)
      {
        SweepNextRow(s0, rect, r, n, op);
        r, n := r + 1, n + 1;
      }
      assert n == Height(rect);
    }

    /** Row `top + n` of the cell sweep. */
    method SweepNextRow(ghost s0: Sheet, rect: Rect, r: int, ghost n: nat, op: Op)
      requires Valid() && Shaped(s0.cells) && RectIn(rect, |s0.cells|) && r == rect.top + n && n < Height(rect)
      requires State() == StepRect(s0, rect, n, op)
      modifies this
      ensures State() == StepRect(s0, rect, n + 1, op)
    {
      StepRectNext(s0, rect, n, op);
      StepRow(r, rect, op);
    }

    /** The total loop of `effacer_cellules_selectionnees`: the selected rows. */
    method RefreshRowTotals(rect: Rect)
      requires Valid() && RuleFitsRoster() && RectIn(rect, |cells|)
      modifies this
      ensures State() == RefreshRows(old(State()), rect.top, Height(rect), Rule())
    {
      ghost var s0 := State();
      ghost var n: nat := 0;
      var r := rect.top;
      while r <= rect.bottom
        invariant r == rect.top + n && n <= Height(rect) && Valid() && |cells| == |s0.cells|
        invariant State() == RefreshRows(s0, rect.top, n, Rule())
      {
        RefreshNextRow(s0, rect.top, r, n);
        r, n := r + 1, n + 1;
      }
      assert n == Height(rect);
    }

    /** Row `top + n` of the total loop. */
    method RefreshNextRow(ghost s0: Sheet, top: int, r: int, ghost n: nat)
      requires Valid() && RuleFitsRoster() && Shaped(s0.cells) && 0 <= top && r == top + n < |s0.cells|
      requires State() == RefreshRows(s0, top, n, Rule())
      modifies this
      ensures State() == RefreshRows(s0, top, n + 1, Rule())
    {
      RefreshRowsNext(s0, top, n, Rule());
      RefreshRowTotal(r);
    }

    /** `keyPressEvent`. */
    method KeyPress(sel: Option<Rect>, current: Option<(int, int)>, isDelete: bool)
      requires Valid() && RuleFitsRoster() && (sel.Some? ==> RectIn(sel.value, |cells|))
      requires current.Some? ==> InGrid(State(), current.value.0, current.value.1)
      modifies this
      ensures State() == Editing.KeyPress(old(State()), sel, current, isDelete, Rule())
    {
      if isDelete {
        Clear(sel);
      }
      if current.Some? {
        var (r, c) := current.value;
        RecordText(r, c, cells[r][c]);
      }
    }

    // ------------------------------------------------------------ clipboard

    /** `copier_cellules_selectionnees`: the text it puts on the clipboard, `None` when
        nothing is selected. */
    method Copy(sel: Option<Rect>) returns (clip: Option<string>)
      requires Valid() && (sel.Some? ==> RectIn(sel.value, |cells|))
      ensures clip == CopyText(State(), sel)
    {
      if sel.None? {
        return None;
      }
      var rect := sel.value;
      var copied := "";
      var r := rect.top;
      while r <= rect.bottom
        invariant rect.top <= r <= rect.bottom + 1
        invariant copied == CopyLines(State(), rect, r - rect.top)
      {
        var rowData: seq<string> := [];
        var c := rect.left;
        while c <= rect.right
          invariant rect.left <= c <= rect.right + 1
          invariant rowData == cells[r][rect.left..c]
        {
          rowData := rowData + [cells[r][c]];
          c := c + 1;
        }
        copied := copied + Join(rowData, '\t') + "\n";
        r := r + 1;
      }
      return Some(Strip(copied));
    }

    /** One pasted cell. */
    method PasteOne(r: int, c: int, text: string)
      requires Valid() && RuleFitsRoster() && InGrid(State(), r, c)
      modifies this
      ensures State() == PasteCell(old(State()), r, c, text, Rule())
    {
      var t := Strip(text);
      PutIsTextThenRecord(State(), r, c, t, t);
      RecordText(r, c, t);
      SetText(r, c, t);
      RefreshRowTotal(r);
    }

    /** `coller_cellules_selectionnees` (signals blocked around each cell write, on again
        for the row total): the clipboard's lines from the selection's top row down. */
    method Paste(clip: string, sel: Option<Rect>)
      requires Valid() && RuleFitsRoster() && (sel.Some? ==> RectIn(sel.value, |cells|))
      modifies this
      ensures State() == Clipboard.Paste(old(State()), clip, sel, Rule())
    {
      var lines := SplitOn(Strip(clip), '\n');
      if sel.None? {
        return;
      }
      var top, left := sel.value.top, sel.value.left;
      ghost var rows := ClipboardRows(clip);
      ghost var s0 := State();
      var i := 0;
      while i < |lines|
        invariant 0 <= i <= |lines| && |rows| == |lines| && Valid() && |cells| == |s0.cells|
        invariant State() == PasteRows(s0, top, left, rows, i, Rule())
      {
        var cellules := SplitOn(lines[i], '\t');
        PasteNextLine(s0, top, left, rows, i, cellules);
        i := i + 1;
      }
      assert i == |rows|;
    }

    /** Line `i` of the clipboard, pasted into row `top + i`. */
    method PasteNextLine(ghost s0: Sheet, top: int, left: int, ghost rows: seq<seq<string>>, i: nat, cellules: seq<string>)
      requires Valid() && RuleFitsRoster() && Shaped(s0.cells) && 0 <= top && 0 <= left
      requires i < |rows| && cellules == rows[i]
      requires State() == PasteRows(s0, top, left, rows, i, Rule())
      modifies this
      ensures State() == PasteRows(s0, top, left, rows, i + 1, Rule())
    {
      PasteRowsNext(s0, top, left, rows, i, Rule());
      PasteLine(top + i, left, cellules);
    }

    /** One clipboard line, from column `left` rightwards; cells past the grid's edge
        are skipped. */
    method PasteLine(row: int, left: int, cellules: seq<string>)
      requires Valid() && RuleFitsRoster() && 0 <= row && 0 <= left
      modifies this
      ensures State() == PasteRow(old(State()), row, left, cellules, |cellules|, Rule())
    {
      ghost var s0 := State();
      var j := 0;
      while j < |cellules|
        invariant 0 <= j <= |cellules| && Valid() && |cells| == |s0.cells|
        invariant State() == PasteRow(s0, row, left, cellules, j, Rule())
      {
        PasteNextCell(s0, row, left, cellules, j);
        j := j + 1;
      }
      assert j == |cellules|;
    }

    /** Clipboard cell `j` of a line, written at column `left + j` when that is inside
        the grid. */
    method PasteNextCell(ghost s0: Sheet, row: int, left: int, cellules: seq<string>, j: nat)
      requires Valid() && RuleFitsRoster() && Shaped(s0.cells) && |cells| == |s0.cells| && 0 <= row && 0 <= left
      requires j < |cellules|
      requires State() == PasteRow(s0, row, left, cellules, j, Rule())
      modifies this
      ensures State() == PasteRow(s0, row, left, cellules, j + 1, Rule())
    {
      PasteRowNext(s0, row, left, cellules, j, Rule());
      var col := left + j;
      if row < |cells| && col < ColumnCount {
        PasteOne(row, col, cellules[j]);
      }
    }

    /** `couper_cellules_selectionnees`: copy, then clear. */
    method Cut(sel: Option<Rect>) returns (clip: Option<string>)
      requires Valid() && RuleFitsRoster() && (sel.Some? ==> RectIn(sel.value, |cells|))
      modifies this
      ensures (clip, State()) == Clipboard.Cut(old(State()), sel, Rule())
    {
      clip := Copy(sel);
      Clear(sel);
    }

    // ------------------------------------------------------------ saved plannings

    /** `save_json_planning` without the file: for every row its stripped name and the text
        of each of its days, keyed by day name. */
    method SavePlanning() returns (recs: seq<Entry>)
      requires Valid()
      ensures recs == Saved(cells)
    {
      recs := [];
      var r := 0;
      while r < |cells|
        invariant 0 <= r <= |cells|
        invariant recs == Saved(cells)[..r]
      {
        var horaires: map<string, string> := map[];
        var i := 0;
        while i < Days
          invariant 0 <= i <= Days && horaires == DaysMap(cells[r], i)
        {
          horaires := horaires[DayNames[i] := cells[r][i + 1]];
          i := i + 1;
        }
        recs := recs + [Entry(Strip(cells[r][0]), horaires)];
        r := r + 1;
      }
    }

    /** `load_planning` once the file is read: every day cell emptied, the rows indexed by
        stripped, lower-cased name, then each record's day texts written into the row its
        name finds. What the table's change handler does after each of these writes is
        not part of this model, so the history maps are left as they are. */
    method LoadPlanning(recs: seq<Entry>)
      requires Valid()
      modifies this
      ensures Valid() && cells == Loaded(old(cells), recs)
      ensures history == old(history) && redo == old(redo)
    {
      ClearDayCells();
      var index := NameRows();
      NameIndexOfNames(cells, old(cells), |cells|);
      FillFromRecords(index, recs);
    }

    /** The first loop of the load: the seven day cells of every row set to the empty text. */
    method ClearDayCells()
      requires Valid()
      modifies this
      ensures Valid() && cells == Cleared(old(cells), |old(cells)|)
      ensures forall r :: 0 <= r < |cells| ==> cells[r][0] == old(cells)[r][0]
      ensures history == old(history) && redo == old(redo)
    {
      var r := 0;
      while r < |cells|
        invariant 0 <= r <= |cells| && |cells| == |old(cells)|
        invariant cells == Cleared(old(cells), r)
        invariant history == old(history) && redo == old(redo)
      {
        ClearRow(r);
        assert cells == Cleared(old(cells), r + 1);
        r := r + 1;
      }
    }

    method ClearRow(r: int)
      requires Valid() && 0 <= r < |cells|
      modifies this
      ensures cells == old(cells)[r := ClearedFrom(old(cells)[r], TotalColumn)]
      ensures history == old(history) && redo == old(redo)
    {
      ghost var row := cells[r];
      assert ClearedFrom(row, 1) == row;
      var c := 1;
      while c < TotalColumn
        invariant 1 <= c <= TotalColumn
        invariant cells == old(cells)[r := ClearedFrom(row, c)]
        invariant history == old(history) && redo == old(redo)
      {
        cells := cells[r := cells[r][c := ""]];
        assert cells[r] == ClearedFrom(row, c + 1);
        c := c + 1;
      }
    }

    /** `nom_to_row`: each row's stripped, lower-cased name leads to the row. */
    method NameRows() returns (index: map<string, nat>)
      requires Valid()
      ensures index == NameIndex(cells, |cells|)
    {
      index := map[];
      var r := 0;
      while r < |cells|
        invariant 0 <= r <= |cells| && index == NameIndex(cells, r)
      {
        index := index[Lower(Strip(cells[r][0])) := r];
        r := r + 1;
      }
    }

    /** The records in file order, each written into the row its name finds. */
    method FillFromRecords(index: map<string, nat>, recs: seq<Entry>)
      requires Valid() && IndexIn(index, |cells|)
      modifies this
      ensures Valid() && cells == ApplyRecords(old(cells), index, recs, |recs|)
      ensures history == old(history) && redo == old(redo)
    {
      var k := 0;
      while k < |recs|
        invariant 0 <= k <= |recs| && |cells| == |old(cells)| && Valid()
        invariant cells == ApplyRecords(old(cells), index, recs, k)
        invariant history == old(history) && redo == old(redo)
      {
        var nom := Lower(Strip(recs[k].name));
        if nom in index {
          FillRow(index[nom], recs[k].days);
        }
        k := k + 1;
      }
    }

    /** One record's day texts written into its row, a missing day as the empty text. */
    method FillRow(r: int, days: map<string, string>)
      requires Valid() && 0 <= r < |cells|
      modifies this
      ensures cells == old(cells)[r := FilledUpTo(old(cells)[r], days, Days)]
      ensures history == old(history) && redo == old(redo)
    {
      ghost var row := cells[r];
      assert FilledUpTo(row, days, 0) == row;
      var col := 0;
      while col < Days
        invariant 0 <= col <= Days
        invariant cells == old(cells)[r := FilledUpTo(row, days, col)]
        invariant history == old(history) && redo == old(redo)
      {
        var texte := if DayNames[col] in days then days[DayNames[col]] else "";
        cells := cells[r := cells[r][col + 1 := texte]];
        assert cells[r] == FilledUpTo(row, days, col + 1);
        col := col + 1;
      }
    }
  }
}
