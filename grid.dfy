/** The schedule grid as a value: the cell texts (`rows x 9`: name, seven days, total) and
    the two history maps keyed by `(row, column)`. The functions here say what each bulk
    operation of the window does to that value, in the order the window does it; the class
    in the `Planning` module performs them in place and is proved to match. */
module Grid {
  import opened Text
  import opened Intervals
  import opened Totals
  import opened History

  /** A selected range, bounds included. */
  datatype Rect = Rect(top: int, left: int, bottom: int, right: int)

  datatype Sheet = Sheet(cells: seq<seq<string>>,
                         history: map<(int, int), seq<string>>,
                         redo: map<(int, int), seq<string>>)

  predicate Shaped(cells: seq<seq<string>>) {
    forall r :: 0 <= r < |cells| ==> |cells[r]| == ColumnCount
  }

  predicate InGrid(s: Sheet, r: int, c: int) {
    0 <= r < |s.cells| && 0 <= c < ColumnCount
  }

  /** A range Qt reports: inside the grid, top-left before bottom-right. */
  predicate RectIn(sel: Rect, rows: nat) {
    0 <= sel.top <= sel.bottom < rows && 0 <= sel.left <= sel.right < ColumnCount
  }

  predicate InRect(sel: Rect, r: int, c: int) {
    sel.top <= r <= sel.bottom && sel.left <= c <= sel.right
  }

  /** A `defaultdict(list)` read: a missing cell has the empty list. */
  function Get(m: map<(int, int), seq<string>>, k: (int, int)): seq<string> {
    if k in m then m[k] else []
  }

  function StacksAt(s: Sheet, r: int, c: int): Stacks {
    Stacks(Get(s.history, (r, c)), Get(s.redo, (r, c)))
  }

  /** Writes one cell's text and both of its stacks. */
  function Put(s: Sheet, r: int, c: int, text: string, st: Stacks): (s': Sheet)
    requires Shaped(s.cells) && InGrid(s, r, c)
    ensures Shaped(s'.cells) && |s'.cells| == |s.cells|
    ensures s'.cells[r][c] == text && StacksAt(s', r, c) == st
  {
    Sheet(s.cells[r := s.cells[r][c := text]],
          s.history[(r, c) := st.history], s.redo[(r, c) := st.redo])
  }

  /** Every cell of the grid has a non-empty history. */
  predicate HistoriesStarted(s: Sheet) {
    forall r, c :: 0 <= r < |s.cells| && 0 <= c < ColumnCount ==> Get(s.history, (r, c)) != []
  }

  /** The state `init_historique` leaves: each cell's history is its current text alone,
      each redo stack empty. */
  predicate Initialised(s: Sheet) {
    Shaped(s.cells) && forall r, c :: 0 <= r < |s.cells| && 0 <= c < ColumnCount ==>
      Get(s.history, (r, c)) == [s.cells[r][c]] && Get(s.redo, (r, c)) == []
  }

  lemma InitialisedStarted(s: Sheet)
    requires Initialised(s)
    ensures HistoriesStarted(s)
  {
  }

  // ------------------------------------------------------------ one cell

  datatype Op = UndoOp | RedoOp | ClearOp

  /** What one bulk operation does to one selected cell. Undo and redo write only when
      their stack allows it. */
  function StepCell(s: Sheet, r: int, c: int, op: Op): (s': Sheet)
    requires Shaped(s.cells) && InGrid(s, r, c)
    ensures Shaped(s'.cells) && |s'.cells| == |s.cells|
  {
    var st := StacksAt(s, r, c);
    match op
    case UndoOp =>
      if CanUndo(st) then var u := Undo(st); Put(s, r, c, Last(u.history), u) else s
    case RedoOp =>
      if CanRedo(st) then var u := Redo(st); Put(s, r, c, Last(u.history), u) else s
    case ClearOp => Put(s, r, c, "", Clear(st, s.cells[r][c]))
  }

  /** The text and stacks one cell ends with after `StepCell` on it. */
  function CellAfter(op: Op, text: string, st: Stacks): (string, Stacks) {
    match op
    case UndoOp => if CanUndo(st) then (Last(Undo(st).history), Undo(st)) else (text, st)
    case RedoOp => if CanRedo(st) then (Last(Redo(st).history), Redo(st)) else (text, st)
    case ClearOp => ("", Clear(st, text))
  }

  function View(s: Sheet, r: int, c: int): (string, Stacks)
    requires Shaped(s.cells) && InGrid(s, r, c)
  {
    (s.cells[r][c], StacksAt(s, r, c))
  }

  /** `StepCell` changes its own cell as `CellAfter` says and no other cell. */
  lemma StepCellAt(s: Sheet, r: int, c: int, op: Op, r': int, c': int)
    requires Shaped(s.cells) && InGrid(s, r, c) && InGrid(s, r', c')
    ensures View(StepCell(s, r, c, op), r', c')
      == if (r', c') == (r, c) then CellAfter(op, s.cells[r][c], StacksAt(s, r, c)) else View(s, r', c')
  {
  }

  lemma StepCellOther(s: Sheet, r: int, c: int, op: Op, r': int, c': int)
    requires Shaped(s.cells) && InGrid(s, r, c) && InGrid(s, r', c') && (r', c') != (r, c)
    ensures View(StepCell(s, r, c, op), r', c') == View(s, r', c')
  {
  }

  // ------------------------------------------------------------ totals

  /** The text `calculer_total_ligne` writes into the total column of a row. */
  function TotalText(row: seq<string>, roster: seq<Employee>): string
    requires |row| == ColumnCount
  {
    FormatTotal(RoundHundredths(RowTotal(row, roster)))
  }

  /** How a row's total text is computed. The sheet functions take it as a parameter, so
      that what they do to the grid is stated apart from the arithmetic of the total. */
  type TotalRule = seq<string> -> string

  /** The window's own rule for the given roster. */
  function RosterTotal(roster: seq<Employee>): TotalRule {
    row => if |row| == ColumnCount then TotalText(row, roster) else ""
  }

  function WithTotalCell(row: seq<string>, t: string): seq<string>
    requires |row| == ColumnCount
  {
    row[TotalColumn := t]
  }

  /** The total does not read the total column. */
  ghost predicate IgnoresTotalColumn(total: TotalRule) {
    forall row: seq<string>, t: string :: |row| == ColumnCount ==> total(WithTotalCell(row, t)) == total(row)
  }

  lemma RosterTotalIgnoresTotalColumn(roster: seq<Employee>)
    ensures IgnoresTotalColumn(RosterTotal(roster))
  {
    forall row: seq<string>, t: string | |row| == ColumnCount
      ensures RosterTotal(roster)(WithTotalCell(row, t)) == RosterTotal(roster)(row)
    {
      TotalIgnoresTotalColumn(row, roster, t);
    }
  }

  /** `calculer_total_ligne(r)`: the total text is written when it differs from the cell
      (Qt signals only a real change). Every caller runs it with signals on, so the change
      re-enters the cell handler for the total column, which records the total text in that
      cell's history. */
  function RefreshTotal(s: Sheet, r: int, total: TotalRule): (s': Sheet)
    requires Shaped(s.cells) && 0 <= r < |s.cells|
    ensures Shaped(s'.cells) && |s'.cells| == |s.cells|
  {
    var t := total(s.cells[r]);
    if t == s.cells[r][TotalColumn] then s
    else Put(s, r, TotalColumn, t, Record(StacksAt(s, r, TotalColumn), t))
  }

  /** After a refresh the row's total column shows the row's total, and only the total
      cell of that row may have changed. */
  lemma RefreshTotalAt(s: Sheet, r: int, total: TotalRule, r': int, c': int)
    requires Shaped(s.cells) && 0 <= r < |s.cells| && InGrid(s, r', c')
    requires IgnoresTotalColumn(total)
    ensures var s' := RefreshTotal(s, r, total);
      s'.cells[r][TotalColumn] == total(s'.cells[r])
      && ((r', c') != (r, TotalColumn) ==> View(s', r', c') == View(s, r', c'))
  {
    var s' := RefreshTotal(s, r, total);
    var t := total(s.cells[r]);
    assert s'.cells[r] == s.cells[r] || s'.cells[r] == s.cells[r][TotalColumn := t];
    assert total(WithTotalCell(s.cells[r], t)) == t;
  }

  /** The re-entered handler does nothing but record: a total text has no dash and no
      space, so the handler neither returns early nor reformats it, and the second
      `calculer_total_ligne` it calls finds the total already written. */
  lemma TotalTextIsPlain(q: nat)
    ensures '-' !in FormatTotal(q) && ' ' !in FormatTotal(q)
    ensures Normalized(FormatTotal(q)) == FormatTotal(q)
  {
    var s := FormatTotal(q);
    var w := NatToString(q / 100);
    assert forall i :: 0 <= i < |w| ==> IsDigit(w[i]);
    assert forall i :: 0 <= i < |s| ==> s[i] != '-' && s[i] != ' ';
    SpreadNoSpace(s, 0);
  }

  // ----------------------------------------------------- ranges of cells

  /** Columns `left .. left + n - 1` of row `r`, left to right. */
  function StepCols(s: Sheet, r: int, left: int, n: nat, op: Op): (s': Sheet)
    requires Shaped(s.cells) && 0 <= r < |s.cells| && 0 <= left && left + n <= ColumnCount
    ensures Shaped(s'.cells) && |s'.cells| == |s.cells|
    decreases n, 1
  {
    if n == 0 then s else SteppedCol(s, r, left, n, op)
  }

  /** Column `left + n - 1` of row `r`, after the columns before it. */
  function SteppedCol(s: Sheet, r: int, left: int, n: nat, op: Op): (s': Sheet)
    requires Shaped(s.cells) && 0 <= r < |s.cells| && 0 <= left && 0 < n && left + n <= ColumnCount
    ensures Shaped(s'.cells) && |s'.cells| == |s.cells|
    decreases n, 0
  {
    StepCell(StepCols(s, r, left, n - 1, op), r, left + n - 1, op)
  }

  function Width(sel: Rect): nat
    requires sel.left <= sel.right
  {
    sel.right - sel.left + 1
  }

  function Height(sel: Rect): nat
    requires sel.top <= sel.bottom
  {
    sel.bottom - sel.top + 1
  }

  /** The first `n` rows of the range, every selected column of each, without totals. */
  function StepRect(s: Sheet, sel: Rect, n: nat, op: Op): (s': Sheet)
    requires Shaped(s.cells) && RectIn(sel, |s.cells|) && n <= Height(sel)
    ensures Shaped(s'.cells) && |s'.cells| == |s.cells|
  {
    if n == 0 then s else StepCols(StepRect(s, sel, n - 1, op), sel.top + n - 1, sel.left, Width(sel), op)
  }

  /** The totals of rows `top .. top + n - 1`. */
  function RefreshRows(s: Sheet, top: int, n: nat, total: TotalRule): (s': Sheet)
    requires Shaped(s.cells) && 0 <= top && top + n <= |s.cells|
    ensures Shaped(s'.cells) && |s'.cells| == |s.cells|
    decreases n, 1
  {
    if n == 0 then s else RefreshedRow(s, top, n, total)
  }

  /** The total of row `top + n - 1`, after those of the rows above it. */
  function RefreshedRow(s: Sheet, top: int, n: nat, total: TotalRule): (s': Sheet)
    requires Shaped(s.cells) && 0 <= top && 0 < n && top + n <= |s.cells|
    ensures Shaped(s'.cells) && |s'.cells| == |s.cells|
    decreases n, 0
  {
    RefreshTotal(RefreshRows(s, top, n - 1, total), top + n - 1, total)
  }

  /** Undo or redo over the first `n` rows of the range: each row's selected cells, then
      that row's total. */
  function StepRowsWithTotals(s: Sheet, sel: Rect, n: nat, op: Op, total: TotalRule): (s': Sheet)
    requires Shaped(s.cells) && RectIn(sel, |s.cells|) && n <= Height(sel)
    ensures Shaped(s'.cells) && |s'.cells| == |s.cells|
    decreases n, 2
  {
    if n == 0 then s else RowWithTotal(s, sel, n, op, total)
  }

  /** Row `top + n - 1` of the range, after the rows above it: undo or redo over its
      selected cells, then its total. */
  function RowWithTotal(s: Sheet, sel: Rect, n: nat, op: Op, total: TotalRule): (s': Sheet)
    requires Shaped(s.cells) && RectIn(sel, |s.cells|) && 0 < n <= Height(sel)
    ensures Shaped(s'.cells) && |s'.cells| == |s.cells|
    decreases n, 1
  {
    RefreshTotal(SweptRow(s, sel, n, op, total), sel.top + n - 1, total)
  }

  /** Undo or redo over the selected cells of row `top + n - 1`, after the rows above it. */
  function SweptRow(s: Sheet, sel: Rect, n: nat, op: Op, total: TotalRule): (s': Sheet)
    requires Shaped(s.cells) && RectIn(sel, |s.cells|) && 0 < n <= Height(sel)
    ensures Shaped(s'.cells) && |s'.cells| == |s.cells|
    decreases n, 0
  {
    StepCols(StepRowsWithTotals(s, sel, n - 1, op, total), sel.top + n - 1, sel.left, Width(sel), op)
  }

  /** `retour_en_arriere` and `refaire` on the selection (nothing without one). */
  function UndoRedoSelection(s: Sheet, sel: Option<Rect>, op: Op, total: TotalRule): (s': Sheet)
    requires Shaped(s.cells) && (sel.Some? ==> RectIn(sel.value, |s.cells|))
    ensures Shaped(s'.cells) && |s'.cells| == |s.cells|
  {
    match sel
    case None => s
    case Some(rect) => StepRowsWithTotals(s, rect, Height(rect), op, total)
  }

  /** `effacer_cellules_selectionnees`: every selected cell first, then the totals of the
      selected rows. */
  function ClearSelection(s: Sheet, sel: Option<Rect>, total: TotalRule): (s': Sheet)
    requires Shaped(s.cells) && (sel.Some? ==> RectIn(sel.value, |s.cells|))
    ensures Shaped(s'.cells) && |s'.cells| == |s.cells|
  {
    match sel
    case None => s
    case Some(rect) =>
      RefreshRows(StepRect(s, rect, Height(rect), ClearOp), rect.top, Height(rect), total)
  }

  // ------------------------------------------------- one more step

  /* Each sweep extended by one step, for the loops that perform the sweeps in place. */

  lemma StepColsNext(s: Sheet, r: int, left: int, n: nat, op: Op)
    requires Shaped(s.cells) && 0 <= r < |s.cells| && 0 <= left && left + n < ColumnCount
    ensures StepCols(s, r, left, n + 1, op) == StepCell(StepCols(s, r, left, n, op), r, left + n, op)
  {
  }

  lemma StepRectNext(s: Sheet, sel: Rect, n: nat, op: Op)
    requires Shaped(s.cells) && RectIn(sel, |s.cells|) && n < Height(sel)
    ensures StepRect(s, sel, n + 1, op) == StepCols(StepRect(s, sel, n, op), sel.top + n, sel.left, Width(sel), op)
  {
  }

  lemma RefreshRowsNext(s: Sheet, top: int, n: nat, total: TotalRule)
    requires Shaped(s.cells) && 0 <= top && top + n < |s.cells|
    ensures RefreshRows(s, top, n + 1, total) == RefreshTotal(RefreshRows(s, top, n, total), top + n, total)
  {
  }

  lemma StepRowsNext(s: Sheet, sel: Rect, n: nat, op: Op, total: TotalRule)
    requires Shaped(s.cells) && RectIn(sel, |s.cells|) && n < Height(sel)
    ensures StepRowsWithTotals(s, sel, n + 1, op, total) == RefreshTotal(SweptRow(s, sel, n + 1, op, total), sel.top + n, total)
  {
    assert StepRowsWithTotals(s, sel, n + 1, op, total) == RowWithTotal(s, sel, n + 1, op, total);
  }

  lemma SweptRowNext(s: Sheet, sel: Rect, n: nat, op: Op, total: TotalRule)
    requires Shaped(s.cells) && RectIn(sel, |s.cells|) && n < Height(sel)
    ensures SweptRow(s, sel, n + 1, op, total) == StepCols(StepRowsWithTotals(s, sel, n, op, total), sel.top + n, sel.left, Width(sel), op)
  {
  }

  // ------------------------------------------------- pointwise meaning

  /** Sweeping columns changes exactly the swept cells, each as `CellAfter` says. */
  lemma StepColsAt(s: Sheet, r: int, left: int, n: nat, op: Op, r': int, c': int)
    requires Shaped(s.cells) && 0 <= r < |s.cells| && 0 <= left && left + n <= ColumnCount
    requires InGrid(s, r', c')
    ensures View(StepCols(s, r, left, n, op), r', c')
      == if r' == r && left <= c' < left + n then CellAfter(op, s.cells[r'][c'], StacksAt(s, r', c'))
         else View(s, r', c')
  {
    if r' == r && left <= c' < left + n {
      StepColsHit(s, r, left, n, op, c');
    } else {
      StepColsOther(s, r, left, n, op, r', c');
    }
  }

  /** A swept cell ends as `CellAfter` says of what it held before the sweep. */
  lemma {:induction false} StepColsHit(s: Sheet, r: int, left: int, n: nat, op: Op, c': int)
    requires Shaped(s.cells) && 0 <= r < |s.cells| && 0 <= left && left + n <= ColumnCount
    requires left <= c' < left + n
    ensures View(StepCols(s, r, left, n, op), r, c') == CellAfter(op, s.cells[r][c'], StacksAt(s, r, c'))
  {
    if c' == left + n - 1 {
      StepColsHitLast(s, r, left, n, op);
    } else {
      StepColsHit(s, r, left, n - 1, op, c');
      StepColsNextOther(s, r, left, n, op, r, c');
    }
  }

  /** The last column of a sweep leaves every other cell as the columns before it left it. */
  lemma StepColsNextOther(s: Sheet, r: int, left: int, n: nat, op: Op, r': int, c': int)
    requires Shaped(s.cells) && 0 <= r < |s.cells| && 0 <= left && 0 < n && left + n <= ColumnCount
    requires InGrid(s, r', c') && (r', c') != (r, left + n - 1)
    ensures View(StepCols(s, r, left, n, op), r', c') == View(StepCols(s, r, left, n - 1, op), r', c')
  {
  }

  lemma StepColsHitLast(s: Sheet, r: int, left: int, n: nat, op: Op)
    requires Shaped(s.cells) && 0 <= r < |s.cells| && 0 <= left && 0 < n && left + n <= ColumnCount
    ensures View(StepCols(s, r, left, n, op), r, left + n - 1)
      == CellAfter(op, s.cells[r][left + n - 1], StacksAt(s, r, left + n - 1))
  {
    StepColsOther(s, r, left, n - 1, op, r, left + n - 1);
  }

  lemma {:induction false} StepColsOther(s: Sheet, r: int, left: int, n: nat, op: Op, r': int, c': int)
    requires Shaped(s.cells) && 0 <= r < |s.cells| && 0 <= left && left + n <= ColumnCount
    requires InGrid(s, r', c') && !(r' == r && left <= c' < left + n)
    ensures View(StepCols(s, r, left, n, op), r', c') == View(s, r', c')
  {
    StepColsOtherText(s, r, left, n, op, r', c');
    StepColsOtherStacks(s, r, left, n, op, r', c');
  }

  lemma {:induction false} StepColsOtherText(s: Sheet, r: int, left: int, n: nat, op: Op, r': int, c': int)
    requires Shaped(s.cells) && 0 <= r < |s.cells| && 0 <= left && left + n <= ColumnCount
    requires InGrid(s, r', c') && !(r' == r && left <= c' < left + n)
    ensures StepCols(s, r, left, n, op).cells[r'][c'] == s.cells[r'][c']
  {
    if n > 0 {
      StepColsOtherText(s, r, left, n - 1, op, r', c');
    }
  }

  lemma {:induction false} StepColsOtherStacks(s: Sheet, r: int, left: int, n: nat, op: Op, r': int, c': int)
    requires Shaped(s.cells) && 0 <= r < |s.cells| && 0 <= left && left + n <= ColumnCount
    requires InGrid(s, r', c') && !(r' == r && left <= c' < left + n)
    ensures StacksAt(StepCols(s, r, left, n, op), r', c') == StacksAt(s, r', c')
  {
    if n > 0 {
      StepColsOtherStacks(s, r, left, n - 1, op, r', c');
    }
  }

  /** Sweeping the rows of a range changes exactly the cells of those rows' selected columns. */
  lemma {:induction false} StepRectAt(s: Sheet, sel: Rect, n: nat, op: Op, r': int, c': int)
    requires Shaped(s.cells) && RectIn(sel, |s.cells|) && n <= Height(sel) && InGrid(s, r', c')
    ensures View(StepRect(s, sel, n, op), r', c')
      == if sel.top <= r' < sel.top + n && sel.left <= c' <= sel.right
         then CellAfter(op, s.cells[r'][c'], StacksAt(s, r', c'))
         else View(s, r', c')
  {
    if n > 0 {
      var p := StepRect(s, sel, n - 1, op);
      StepRectAt(s, sel, n - 1, op, r', c');
      StepColsAt(p, sel.top + n - 1, sel.left, Width(sel), op, r', c');
    }
  }

  lemma RefreshTotalRows(s: Sheet, r: int, total: TotalRule, r': int)
    requires Shaped(s.cells) && 0 <= r < |s.cells| && 0 <= r' < |s.cells| && r' != r
    ensures RefreshTotal(s, r, total).cells[r'] == s.cells[r']
  {
  }

  /** Refreshing totals touches only the total column of the refreshed rows. */
  lemma {:induction false} RefreshRowsFrame(s: Sheet, top: int, n: nat, total: TotalRule, r': int, c': int)
    requires Shaped(s.cells) && 0 <= top && top + n <= |s.cells| && InGrid(s, r', c')
    requires c' != TotalColumn || !(top <= r' < top + n)
    ensures View(RefreshRows(s, top, n, total), r', c') == View(s, r', c')
  {
    if n > 0 {
      RefreshRowsFrame(s, top, n - 1, total, r', c');
    }
  }

  /** Each refreshed row's total is current afterwards. */
  lemma {:induction false} RefreshRowsCurrent(s: Sheet, top: int, n: nat, total: TotalRule, r': int)
    requires Shaped(s.cells) && 0 <= top && top + n <= |s.cells| && top <= r' < top + n
    requires IgnoresTotalColumn(total)
    ensures var s' := RefreshRows(s, top, n, total);
      s'.cells[r'][TotalColumn] == total(s'.cells[r'])
  {
    var p := RefreshRows(s, top, n - 1, total);
    var r := top + n - 1;
    assert RefreshRows(s, top, n, total) == RefreshTotal(p, r, total);
    if r' == r {
      RefreshTotalAt(p, r, total, r', 0);
    } else {
      RefreshRowsCurrent(s, top, n - 1, total, r');
      RefreshTotalRows(p, r, total, r');
    }
  }

  /** After a clear every selected day cell is empty, its history ends with `""` just
      above the text it held, its redo stack is empty, and the total of every selected
      row is current; cells outside the selected rows are untouched. */
  lemma ClearSelectionMeaning(s: Sheet, sel: Rect, total: TotalRule, r: int, c: int)
    requires Shaped(s.cells) && RectIn(sel, |s.cells|) && InGrid(s, r, c)
    requires IgnoresTotalColumn(total)
    ensures var s' := ClearSelection(s, Some(sel), total);
      (InRect(sel, r, c) && c != TotalColumn ==>
         s'.cells[r][c] == "" && StacksAt(s', r, c) == Clear(StacksAt(s, r, c), s.cells[r][c]))
      && (sel.top <= r <= sel.bottom ==> s'.cells[r][TotalColumn] == total(s'.cells[r]))
      && (!InRect(sel, r, c) && c != TotalColumn ==> View(s', r, c) == View(s, r, c))
      && (!(sel.top <= r <= sel.bottom) ==> View(s', r, c) == View(s, r, c))
  {
    var p := StepRect(s, sel, Height(sel), ClearOp);
    StepRectAt(s, sel, Height(sel), ClearOp, r, c);
    if c != TotalColumn || !(sel.top <= r <= sel.bottom) {
      RefreshRowsFrame(p, sel.top, Height(sel), total, r, c);
    }
    if sel.top <= r <= sel.bottom {
      RefreshRowsCurrent(p, sel.top, Height(sel), total, r);
    }
  }

  lemma {:induction false} StepColsOtherRow(s: Sheet, r: int, left: int, n: nat, op: Op, r': int)
    requires Shaped(s.cells) && 0 <= r < |s.cells| && 0 <= left && left + n <= ColumnCount
    requires 0 <= r' < |s.cells| && r' != r
    ensures StepCols(s, r, left, n, op).cells[r'] == s.cells[r']
  {
    if n > 0 {
      StepColsOtherRow(s, r, left, n - 1, op, r');
    }
  }

  /** One row of undo or redo: the selected cells of that row change as `CellAfter` says,
      every other cell but that row's total stays, and that row's total is current. */
  lemma RowWithTotalAt(s: Sheet, sel: Rect, n: nat, op: Op, total: TotalRule, r': int, c': int)
    requires Shaped(s.cells) && RectIn(sel, |s.cells|) && 0 < n <= Height(sel) && InGrid(s, r', c')
    requires (r', c') != (sel.top + n - 1, TotalColumn)
    ensures var p, s' := StepRowsWithTotals(s, sel, n - 1, op, total), RowWithTotal(s, sel, n, op, total);
      (r' == sel.top + n - 1 && sel.left <= c' <= sel.right ==> View(s', r', c') == CellAfter(op, p.cells[r'][c'], StacksAt(p, r', c')))
      && (!(r' == sel.top + n - 1 && sel.left <= c' <= sel.right) ==> View(s', r', c') == View(p, r', c'))
  {
    var p, r := StepRowsWithTotals(s, sel, n - 1, op, total), sel.top + n - 1;
    var q := SweptRow(s, sel, n, op, total);
    assert q == StepCols(p, r, sel.left, Width(sel), op);
    StepColsAt(p, r, sel.left, Width(sel), op, r', c');
    RefreshTotalFrame(q, r, total, r', c');
  }

  lemma RowWithTotalCurrent(s: Sheet, sel: Rect, n: nat, op: Op, total: TotalRule, r': int)
    requires Shaped(s.cells) && RectIn(sel, |s.cells|) && 0 < n <= Height(sel) && 0 <= r' < |s.cells|
    requires IgnoresTotalColumn(total)
    ensures var p, s' := StepRowsWithTotals(s, sel, n - 1, op, total), RowWithTotal(s, sel, n, op, total);
      (r' == sel.top + n - 1 ==> s'.cells[r'][TotalColumn] == total(s'.cells[r']))
      && (r' != sel.top + n - 1 ==> s'.cells[r'] == p.cells[r'])
  {
    var p, r := StepRowsWithTotals(s, sel, n - 1, op, total), sel.top + n - 1;
    var q := SweptRow(s, sel, n, op, total);
    assert q == StepCols(p, r, sel.left, Width(sel), op);
    if r' == r {
      RefreshTotalAt(q, r, total, r', 0);
    } else {
      StepColsOtherRow(p, r, sel.left, Width(sel), op, r');
      RefreshTotalRows(q, r, total, r');
    }
  }

  /** Frame half of `RefreshTotalAt`, for any rule. */
  lemma RefreshTotalFrame(s: Sheet, r: int, total: TotalRule, r': int, c': int)
    requires Shaped(s.cells) && 0 <= r < |s.cells| && InGrid(s, r', c')
    requires (r', c') != (r, TotalColumn)
    ensures View(RefreshTotal(s, r, total), r', c') == View(s, r', c')
  {
  }

  /** Undo and redo change the selected day cells as `CellAfter` says, leave every other
      day cell and every other row alone. */
  lemma {:induction false} StepRowsFrame(s: Sheet, sel: Rect, n: nat, op: Op, total: TotalRule, r': int, c': int)
    requires Shaped(s.cells) && RectIn(sel, |s.cells|) && n <= Height(sel) && InGrid(s, r', c')
    requires c' != TotalColumn || !(sel.top <= r' < sel.top + n)
    ensures var s' := StepRowsWithTotals(s, sel, n, op, total);
      (sel.top <= r' < sel.top + n && sel.left <= c' <= sel.right ==>
         View(s', r', c') == CellAfter(op, s.cells[r'][c'], StacksAt(s, r', c')))
      && (!(sel.top <= r' < sel.top + n && sel.left <= c' <= sel.right) ==> View(s', r', c') == View(s, r', c'))
  {
    if n > 0 {
      var r := sel.top + n - 1;
      var p := StepRowsWithTotals(s, sel, n - 1, op, total);
      assert StepRowsWithTotals(s, sel, n, op, total) == RowWithTotal(s, sel, n, op, total);
      StepRowsFrame(s, sel, n - 1, op, total, r', c');
      RowWithTotalAt(s, sel, n, op, total, r', c');
      if r' == r {
        assert View(p, r', c') == View(s, r', c');
        assert p.cells[r'][c'] == s.cells[r'][c'] && StacksAt(p, r', c') == StacksAt(s, r', c');
      }
    }
  }

  /** Undo and redo leave the total of every selected row current. */
  lemma {:induction false} StepRowsCurrent(s: Sheet, sel: Rect, n: nat, op: Op, total: TotalRule, r': int)
    requires Shaped(s.cells) && RectIn(sel, |s.cells|) && n <= Height(sel)
    requires sel.top <= r' < sel.top + n
    requires IgnoresTotalColumn(total)
    ensures var s' := StepRowsWithTotals(s, sel, n, op, total);
      s'.cells[r'][TotalColumn] == total(s'.cells[r'])
  {
    assert StepRowsWithTotals(s, sel, n, op, total) == RowWithTotal(s, sel, n, op, total);
    RowWithTotalCurrent(s, sel, n, op, total, r');
    if r' != sel.top + n - 1 {
      StepRowsCurrent(s, sel, n - 1, op, total, r');
    }
  }

  /** Undo then redo on the same selection gives every selected day cell that could be
      undone its stacks back, and shows the text that was on top of its history. */
  lemma UndoThenRedo(s: Sheet, sel: Rect, total: TotalRule, r: int, c: int)
    requires Shaped(s.cells) && RectIn(sel, |s.cells|) && InRect(sel, r, c) && c != TotalColumn
    requires CanUndo(StacksAt(s, r, c))
    ensures var s' := UndoRedoSelection(UndoRedoSelection(s, Some(sel), UndoOp, total), Some(sel), RedoOp, total);
      StacksAt(s', r, c) == StacksAt(s, r, c) && s'.cells[r][c] == Last(StacksAt(s, r, c).history)
  {
    var u := UndoRedoSelection(s, Some(sel), UndoOp, total);
    StepRowsFrame(s, sel, Height(sel), UndoOp, total, r, c);
    StepRowsFrame(u, sel, Height(sel), RedoOp, total, r, c);
    RedoUndoes(StacksAt(s, r, c));
  }

  /** Redo then undo on the same selection gives every selected day cell that could be
      redone (and has a history) its stacks back. */
  lemma RedoThenUndo(s: Sheet, sel: Rect, total: TotalRule, r: int, c: int)
    requires Shaped(s.cells) && RectIn(sel, |s.cells|) && InRect(sel, r, c) && c != TotalColumn
    requires CanRedo(StacksAt(s, r, c)) && StacksAt(s, r, c).history != []
    ensures var s' := UndoRedoSelection(UndoRedoSelection(s, Some(sel), RedoOp, total), Some(sel), UndoOp, total);
      StacksAt(s', r, c) == StacksAt(s, r, c)
  {
    var u := UndoRedoSelection(s, Some(sel), RedoOp, total);
    StepRowsFrame(s, sel, Height(sel), RedoOp, total, r, c);
    StepRowsFrame(u, sel, Height(sel), UndoOp, total, r, c);
    UndoRedoes(StacksAt(s, r, c));
  }

  /** After a clear, undo on the same selection shows again what each selected day cell
      held before the clear. */
  lemma ClearThenUndo(s: Sheet, sel: Rect, total: TotalRule, r: int, c: int)
    requires Shaped(s.cells) && RectIn(sel, |s.cells|) && InRect(sel, r, c) && c != TotalColumn
    requires IgnoresTotalColumn(total)
    ensures var s' := UndoRedoSelection(ClearSelection(s, Some(sel), total), Some(sel), UndoOp, total);
      s'.cells[r][c] == s.cells[r][c]
  {
    var k := ClearSelection(s, Some(sel), total);
    ClearSelectionMeaning(s, sel, total, r, c);
    StepRowsFrame(k, sel, Height(sel), UndoOp, total, r, c);
    UndoAfterClear(StacksAt(s, r, c), s.cells[r][c]);
  }

  // ------------------------------------------------- history in step

  /** A cell is in step with its history when the history is not empty and its top is the
      text the cell shows: what an undo pops is then what the cell showed. */
  predicate SyncedView(v: (string, Stacks)) {
    v.1.history != [] && Last(v.1.history) == v.0
  }

  predicate Synced(s: Sheet) {
    Shaped(s.cells) && forall r, c :: 0 <= r < |s.cells| && 0 <= c < ColumnCount ==> SyncedView(View(s, r, c))
  }

  lemma InitialisedSynced(s: Sheet)
    requires Initialised(s)
    ensures Synced(s) && HistoriesStarted(s)
  {
  }

  lemma SyncedStarted(s: Sheet)
    requires Synced(s)
    ensures HistoriesStarted(s)
  {
    forall r, c | 0 <= r < |s.cells| && 0 <= c < ColumnCount ensures Get(s.history, (r, c)) != [] {
      assert SyncedView(View(s, r, c));
    }
  }

  /** Undo, redo and clear each leave a cell in step if it was. */
  lemma CellAfterSynced(op: Op, text: string, st: Stacks)
    requires SyncedView((text, st))
    ensures SyncedView(CellAfter(op, text, st))
  {
  }

  lemma StepCellSynced(s: Sheet, r: int, c: int, op: Op)
    requires Synced(s) && InGrid(s, r, c)
    ensures Synced(StepCell(s, r, c, op))
  {
    var s' := StepCell(s, r, c, op);
    forall r', c' | 0 <= r' < |s'.cells| && 0 <= c' < ColumnCount ensures SyncedView(View(s', r', c')) {
      StepCellAt(s, r, c, op, r', c');
      assert SyncedView(View(s, r', c')) && SyncedView(View(s, r, c));
      CellAfterSynced(op, s.cells[r][c], StacksAt(s, r, c));
    }
  }

  /** A refresh writes the total only together with recording it. */
  lemma RefreshTotalSynced(s: Sheet, r: int, total: TotalRule)
    requires Synced(s) && 0 <= r < |s.cells|
    ensures Synced(RefreshTotal(s, r, total))
  {
    var s' := RefreshTotal(s, r, total);
    forall r', c' | 0 <= r' < |s'.cells| && 0 <= c' < ColumnCount ensures SyncedView(View(s', r', c')) {
      assert SyncedView(View(s, r', c'));
      if (r', c') != (r, TotalColumn) {
        RefreshTotalFrame(s, r, total, r', c');
      }
    }
  }

  lemma {:induction false} StepColsSynced(s: Sheet, r: int, left: int, n: nat, op: Op)
    requires Synced(s) && 0 <= r < |s.cells| && 0 <= left && left + n <= ColumnCount
    ensures Synced(StepCols(s, r, left, n, op))
  {
    if n > 0 {
      StepColsSynced(s, r, left, n - 1, op);
      StepCellSynced(StepCols(s, r, left, n - 1, op), r, left + n - 1, op);
    }
  }

  lemma {:induction false} StepRectSynced(s: Sheet, sel: Rect, n: nat, op: Op)
    requires Synced(s) && RectIn(sel, |s.cells|) && n <= Height(sel)
    ensures Synced(StepRect(s, sel, n, op))
  {
    if n > 0 {
      StepRectSynced(s, sel, n - 1, op);
      StepColsSynced(StepRect(s, sel, n - 1, op), sel.top + n - 1, sel.left, Width(sel), op);
    }
  }

  lemma {:induction false} RefreshRowsSynced(s: Sheet, top: int, n: nat, total: TotalRule)
    requires Synced(s) && 0 <= top && top + n <= |s.cells|
    ensures Synced(RefreshRows(s, top, n, total))
  {
    if n > 0 {
      RefreshRowsSynced(s, top, n - 1, total);
      RefreshTotalSynced(RefreshRows(s, top, n - 1, total), top + n - 1, total);
    }
  }

  lemma {:induction false} StepRowsSynced(s: Sheet, sel: Rect, n: nat, op: Op, total: TotalRule)
    requires Synced(s) && RectIn(sel, |s.cells|) && n <= Height(sel)
    ensures Synced(StepRowsWithTotals(s, sel, n, op, total))
  {
    if n > 0 {
      var p := StepRowsWithTotals(s, sel, n - 1, op, total);
      var r := sel.top + n - 1;
      StepRowsSynced(s, sel, n - 1, op, total);
      StepColsSynced(p, r, sel.left, Width(sel), op);
      assert SweptRow(s, sel, n, op, total) == StepCols(p, r, sel.left, Width(sel), op);
      RefreshTotalSynced(SweptRow(s, sel, n, op, total), r, total);
      assert StepRowsWithTotals(s, sel, n, op, total) == RowWithTotal(s, sel, n, op, total);
    }
  }

  /** Clearing, undoing and redoing a selection keep every cell in step with its history. */
  lemma BulkOpsKeepSynced(s: Sheet, sel: Option<Rect>, total: TotalRule)
    requires Synced(s) && (sel.Some? ==> RectIn(sel.value, |s.cells|))
    ensures Synced(ClearSelection(s, sel, total))
    ensures Synced(UndoRedoSelection(s, sel, UndoOp, total))
    ensures Synced(UndoRedoSelection(s, sel, RedoOp, total))
  {
    if sel.Some? {
      var rect := sel.value;
      StepRectSynced(s, rect, Height(rect), ClearOp);
      RefreshRowsSynced(StepRect(s, rect, Height(rect), ClearOp), rect.top, Height(rect), total);
      StepRowsSynced(s, rect, Height(rect), UndoOp, total);
      StepRowsSynced(s, rect, Height(rect), RedoOp, total);
    }
  }
}
