/** Copy, paste and cut on the selection (`copier_cellules_selectionnees`,
    `coller_cellules_selectionnees`, `couper_cellules_selectionnees`). The clipboard is a
    text: rows end with a newline, cells are separated by tabs, and the whole text is
    stripped when it is written and again when it is read. */
module Clipboard {
  import opened Text
  import opened Totals
  import opened History
  import opened Grid

  // ------------------------------------------------------------ copy

  /** The selected texts of row `r`, left to right. */
  function RowTexts(s: Sheet, sel: Rect, r: int): (ts: seq<string>)
    requires Shaped(s.cells) && RectIn(sel, |s.cells|) && sel.top <= r <= sel.bottom
    ensures |ts| == Width(sel)
    ensures forall j :: 0 <= j < |ts| ==> ts[j] == s.cells[r][sel.left + j]
  {
    s.cells[r][sel.left..sel.right + 1]
  }

  /** The selected texts, row by row. */
  function RectTexts(s: Sheet, sel: Rect): (rows: seq<seq<string>>)
    requires Shaped(s.cells) && RectIn(sel, |s.cells|)
    ensures |rows| == Height(sel)
    ensures forall i :: 0 <= i < |rows| ==> rows[i] == RowTexts(s, sel, sel.top + i)
  {
    seq(Height(sel), i requires 0 <= i < Height(sel) => RowTexts(s, sel, sel.top + i))
  }

  /** The first `n` rows of the copied text before the final strip. */
  function CopyLines(s: Sheet, sel: Rect, n: nat): string
    requires Shaped(s.cells) && RectIn(sel, |s.cells|) && n <= Height(sel)
  {
    if n == 0 then "" else CopyLines(s, sel, n - 1) + Join(RowTexts(s, sel, sel.top + n - 1), '\t') + "\n"
  }

  /** The text put on the clipboard; `None` when nothing is selected (the clipboard is then
      left as it was). */
  function CopyText(s: Sheet, sel: Option<Rect>): Option<string>
    requires Shaped(s.cells) && (sel.Some? ==> RectIn(sel.value, |s.cells|))
  {
    match sel
    case None => None
    case Some(rect) => Some(Strip(CopyLines(s, rect, Height(rect))))
  }

  // ------------------------------------------------------------ paste

  /** The clipboard text read as rows of cells. */
  function ClipboardRows(clip: string): (rows: seq<seq<string>>)
    ensures |rows| >= 1 && forall i :: 0 <= i < |rows| ==> |rows[i]| >= 1
  {
    var lines := SplitOn(Strip(clip), '\n');
    seq(|lines|, i requires 0 <= i < |lines| => SplitOn(lines[i], '\t'))
  }

  /** What a pasted cell ends with: the stripped text, recorded in its history. */
  function Pasted(text: string, st: Stacks): (string, Stacks) {
    (Strip(text), Record(st, Strip(text)))
  }

  /** One pasted cell: record, write with signals blocked, then the row total. Signals are
      on again for the total (`blockSignals` is a flag, which the unblocking after the
      cell write clears), so the total is recorded through the handler as after any other
      edit. */
  function PasteCell(s: Sheet, r: int, c: int, text: string, total: TotalRule): (s': Sheet)
    requires Shaped(s.cells) && InGrid(s, r, c)
    ensures Shaped(s'.cells) && |s'.cells| == |s.cells|
  {
    var t := Strip(text);
    RefreshTotal(Put(s, r, c, t, Record(StacksAt(s, r, c), t)), r, total)
  }

  /** The first `n` cells of one clipboard row pasted from column `left` of row `r`. */
  function PasteRow(s: Sheet, r: int, left: int, texts: seq<string>, n: nat, total: TotalRule): (s': Sheet)
    requires Shaped(s.cells) && 0 <= r && 0 <= left && n <= |texts|
    ensures Shaped(s'.cells) && |s'.cells| == |s.cells|
    decreases n, 2
  {
    if n == 0 then s else PasteRowCell(s, r, left, texts, n, total)
  }

  /** Cell `n - 1` of the row, after the cells before it: pasted at column `left + n - 1`
      when that is inside the grid, dropped otherwise. */
  function PasteRowCell(s: Sheet, r: int, left: int, texts: seq<string>, n: nat, total: TotalRule): (s': Sheet)
    requires Shaped(s.cells) && 0 <= r && 0 <= left && 0 < n <= |texts|
    ensures Shaped(s'.cells) && |s'.cells| == |s.cells|
    decreases n, 1
  {
    if r < |s.cells| && left + n - 1 < ColumnCount then PastedCell(s, r, left, texts, n, total)
    else PasteRow(s, r, left, texts, n - 1, total)
  }

  /** Cell `n - 1` of the row pasted inside the grid, after the cells before it. */
  function PastedCell(s: Sheet, r: int, left: int, texts: seq<string>, n: nat, total: TotalRule): (s': Sheet)
    requires Shaped(s.cells) && 0 <= r < |s.cells| && 0 <= left && 0 < n <= |texts| && left + n - 1 < ColumnCount
    ensures Shaped(s'.cells) && |s'.cells| == |s.cells|
    decreases n, 0
  {
    PasteCell(PasteRow(s, r, left, texts, n - 1, total), r, left + n - 1, texts[n - 1], total)
  }

  /** The first `n` clipboard rows pasted from `(top, left)`. */
  function PasteRows(s: Sheet, top: int, left: int, rows: seq<seq<string>>, n: nat, total: TotalRule): (s': Sheet)
    requires Shaped(s.cells) && 0 <= top && 0 <= left && n <= |rows|
    ensures Shaped(s'.cells) && |s'.cells| == |s.cells|
  {
    if n == 0 then s
    else PasteRow(PasteRows(s, top, left, rows, n - 1, total), top + n - 1, left, rows[n - 1], |rows[n - 1]|, total)
  }

  /* Each paste loop extended by one step, for the loops that paste in place. */

  lemma PasteRowNext(s: Sheet, r: int, left: int, texts: seq<string>, n: nat, total: TotalRule)
    requires Shaped(s.cells) && 0 <= r && 0 <= left && n < |texts|
    ensures var p := PasteRow(s, r, left, texts, n, total);
      PasteRow(s, r, left, texts, n + 1, total)
        == if r < |s.cells| && left + n < ColumnCount then PasteCell(p, r, left + n, texts[n], total) else p
  {
    if r < |s.cells| && left + n < ColumnCount {
      assert PastedCell(s, r, left, texts, n + 1, total)
        == PasteCell(PasteRow(s, r, left, texts, n, total), r, left + n, texts[n], total);
    }
  }

  lemma PasteRowsNext(s: Sheet, top: int, left: int, rows: seq<seq<string>>, n: nat, total: TotalRule)
    requires Shaped(s.cells) && 0 <= top && 0 <= left && n < |rows|
    ensures PasteRows(s, top, left, rows, n + 1, total) == PasteRow(PasteRows(s, top, left, rows, n, total), top + n, left, rows[n], |rows[n]|, total)
  {
  }

  /** Paste of the clipboard's rows, already split, at the top-left corner of the
      selection; nothing without one. */
  function PasteSplit(s: Sheet, rows: seq<seq<string>>, sel: Option<Rect>, total: TotalRule): (s': Sheet)
    requires Shaped(s.cells) && (sel.Some? ==> RectIn(sel.value, |s.cells|))
    ensures Shaped(s'.cells) && |s'.cells| == |s.cells|
  {
    match sel
    case None => s
    case Some(rect) => PasteRows(s, rect.top, rect.left, rows, |rows|, total)
  }

  /** Paste of the clipboard text. */
  function Paste(s: Sheet, clip: string, sel: Option<Rect>, total: TotalRule): (s': Sheet)
    requires Shaped(s.cells) && (sel.Some? ==> RectIn(sel.value, |s.cells|))
    ensures Shaped(s'.cells) && |s'.cells| == |s.cells|
  {
    PasteSplit(s, ClipboardRows(clip), sel, total)
  }

  /** Cut: the copied text (if any) and the grid after clearing the selection. */
  function Cut(s: Sheet, sel: Option<Rect>, total: TotalRule): (Option<string>, Sheet)
    requires Shaped(s.cells) && (sel.Some? ==> RectIn(sel.value, |s.cells|))
  {
    (CopyText(s, sel), ClearSelection(s, sel, total))
  }

  // ------------------------------------------------- meaning of paste

  lemma PasteCellAt(s: Sheet, r: int, c: int, text: string, total: TotalRule, r': int, c': int)
    requires Shaped(s.cells) && InGrid(s, r, c) && InGrid(s, r', c') && (r', c') != (r, TotalColumn)
    ensures var s' := PasteCell(s, r, c, text, total);
      ((r', c') == (r, c) ==> View(s', r', c') == Pasted(text, StacksAt(s, r, c)))
      && ((r', c') != (r, c) ==> View(s', r', c') == View(s, r', c'))
  {
    var t := Strip(text);
    RefreshTotalFrame(Put(s, r, c, t, Record(StacksAt(s, r, c), t)), r, total, r', c');
  }

  /** One more cell of a row, inside the grid: that cell, column `c`, gets the pasted text. */
  lemma PasteRowCellSame(s: Sheet, r: int, left: int, texts: seq<string>, n: nat, total: TotalRule, c: int)
    requires Shaped(s.cells) && 0 <= r < |s.cells| && 0 <= left && 0 < n <= |texts| && c == left + n - 1 < TotalColumn
    ensures View(PasteRowCell(s, r, left, texts, n, total), r, c)
      == Pasted(texts[n - 1], StacksAt(PasteRow(s, r, left, texts, n - 1, total), r, c))
  {
    PasteCellAt(PasteRow(s, r, left, texts, n - 1, total), r, c, texts[n - 1], total, r, c);
  }

  /** One more cell of a row leaves every other day cell as it was. */
  lemma PasteRowCellOther(s: Sheet, r: int, left: int, texts: seq<string>, n: nat, total: TotalRule, r': int, c': int)
    requires Shaped(s.cells) && 0 <= r && 0 <= left && 0 < n <= |texts|
    requires InGrid(s, r', c') && c' != TotalColumn && (r', c') != (r, left + n - 1)
    ensures View(PasteRowCell(s, r, left, texts, n, total), r', c') == View(PasteRow(s, r, left, texts, n - 1, total), r', c')
  {
    if r < |s.cells| && left + n - 1 < ColumnCount {
      PasteCellAt(PasteRow(s, r, left, texts, n - 1, total), r, left + n - 1, texts[n - 1], total, r', c');
    }
  }

  /** Pasting one clipboard row sets each of its in-grid day cells to the stripped text,
      recorded once, and leaves the other day cells alone. */
  lemma PasteRowAt(s: Sheet, r: int, left: int, texts: seq<string>, n: nat, total: TotalRule, r': int, c': int)
    requires Shaped(s.cells) && 0 <= r && 0 <= left && n <= |texts|
    requires InGrid(s, r', c') && c' != TotalColumn
    ensures var s' := PasteRow(s, r, left, texts, n, total);
      (r' == r && left <= c' < left + n ==> View(s', r', c') == Pasted(texts[c' - left], StacksAt(s, r', c')))
      && (!(r' == r && left <= c' < left + n) ==> View(s', r', c') == View(s, r', c'))
  {
    if r' == r && left <= c' < left + n {
      var k := c' - left + 1;
      PasteRowKeeps(s, r, left, texts, 0, k - 1, total, r, c');
      PasteRowCellSame(s, r, left, texts, k, total, c');
      PasteRowKeeps(s, r, left, texts, k, n, total, r, c');
      assert StacksAt(PasteRow(s, r, left, texts, k - 1, total), r, c') == StacksAt(s, r, c');
    } else {
      PasteRowKeeps(s, r, left, texts, 0, n, total, r', c');
    }
  }

  /** Cells `k` to `n - 1` of a row leave every day cell outside their columns as it was. */
  lemma {:induction false} PasteRowKeeps(s: Sheet, r: int, left: int, texts: seq<string>, k: nat, n: nat, total: TotalRule, r': int, c': int)
    requires Shaped(s.cells) && 0 <= r && 0 <= left && k <= n <= |texts|
    requires InGrid(s, r', c') && c' != TotalColumn && !(r' == r && left + k <= c' < left + n)
    ensures View(PasteRow(s, r, left, texts, n, total), r', c') == View(PasteRow(s, r, left, texts, k, total), r', c')
    decreases n
  {
    if n > k {
      PasteRowKeeps(s, r, left, texts, k, n - 1, total, r', c');
      PasteRowCellOther(s, r, left, texts, n, total, r', c');
      assert PasteRow(s, r, left, texts, n, total) == PasteRowCell(s, r, left, texts, n, total);
    }
  }

  lemma PasteCellOtherRow(s: Sheet, r: int, c: int, text: string, total: TotalRule, r': int)
    requires Shaped(s.cells) && InGrid(s, r, c) && 0 <= r' < |s.cells| && r' != r
    ensures PasteCell(s, r, c, text, total).cells[r'] == s.cells[r']
  {
    var t := Strip(text);
    RefreshTotalRows(Put(s, r, c, t, Record(StacksAt(s, r, c), t)), r, total, r');
  }

  lemma PasteRowCellOtherRow(s: Sheet, r: int, left: int, texts: seq<string>, n: nat, total: TotalRule, r': int)
    requires Shaped(s.cells) && 0 <= r && 0 <= left && 0 < n <= |texts| && 0 <= r' < |s.cells| && r' != r
    ensures PasteRowCell(s, r, left, texts, n, total).cells[r'] == PasteRow(s, r, left, texts, n - 1, total).cells[r']
  {
    if r < |s.cells| && left + n - 1 < ColumnCount {
      PasteCellOtherRow(PasteRow(s, r, left, texts, n - 1, total), r, left + n - 1, texts[n - 1], total, r');
    }
  }

  lemma {:induction false} PasteRowOtherRow(s: Sheet, r: int, left: int, texts: seq<string>, n: nat, total: TotalRule, r': int)
    requires Shaped(s.cells) && 0 <= r && 0 <= left && n <= |texts| && 0 <= r' < |s.cells| && r' != r
    ensures PasteRow(s, r, left, texts, n, total).cells[r'] == s.cells[r']
    decreases n
  {
    if n > 0 {
      PasteRowOtherRow(s, r, left, texts, n - 1, total, r');
      PasteRowCellOtherRow(s, r, left, texts, n, total, r');
      assert PasteRow(s, r, left, texts, n, total) == PasteRowCell(s, r, left, texts, n, total);
    }
  }

  /** A cell pasted inside the grid leaves its row's total current. */
  lemma PastedCellCurrent(s: Sheet, r: int, left: int, texts: seq<string>, n: nat, total: TotalRule)
    requires Shaped(s.cells) && 0 <= r < |s.cells| && 0 <= left && 0 < n <= |texts| && left + n - 1 < ColumnCount
    requires IgnoresTotalColumn(total)
    ensures var s' := PasteRowCell(s, r, left, texts, n, total);
      s'.cells[r][TotalColumn] == total(s'.cells[r])
  {
    var p := PasteRow(s, r, left, texts, n - 1, total);
    var t := Strip(texts[n - 1]);
    var c := left + n - 1;
    RefreshTotalAt(Put(p, r, c, t, Record(StacksAt(p, r, c), t)), r, total, r, 0);
  }

  /** A row that received at least one cell ends with its total current. */
  lemma {:induction false} PasteRowCurrent(s: Sheet, r: int, left: int, texts: seq<string>, n: nat, total: TotalRule)
    requires Shaped(s.cells) && 0 <= r < |s.cells| && 0 <= left < ColumnCount && 1 <= n <= |texts|
    requires IgnoresTotalColumn(total)
    ensures var s' := PasteRow(s, r, left, texts, n, total);
      s'.cells[r][TotalColumn] == total(s'.cells[r])
    decreases n
  {
    if left + n - 1 < ColumnCount {
      PastedCellCurrent(s, r, left, texts, n, total);
    } else {
      PasteRowCurrent(s, r, left, texts, n - 1, total);
    }
  }

  /** Pasting several rows: each in-grid day cell under the clipboard gets its stripped
      text, every other day cell stays. */
  lemma {:induction false} PasteRowsAt(s: Sheet, top: int, left: int, rows: seq<seq<string>>, n: nat, total: TotalRule, r': int, c': int)
    requires Shaped(s.cells) && 0 <= top && 0 <= left && n <= |rows|
    requires InGrid(s, r', c') && c' != TotalColumn
    ensures var s' := PasteRows(s, top, left, rows, n, total);
      (top <= r' < top + n && left <= c' < left + |rows[r' - top]| ==>
         View(s', r', c') == Pasted(rows[r' - top][c' - left], StacksAt(s, r', c')))
      && (!(top <= r' < top + n && left <= c' < left + |rows[r' - top]|) ==> View(s', r', c') == View(s, r', c'))
  {
    if n > 0 {
      var p := PasteRows(s, top, left, rows, n - 1, total);
      var r := top + n - 1;
      assert PasteRows(s, top, left, rows, n, total) == PasteRow(p, r, left, rows[n - 1], |rows[n - 1]|, total);
      PasteRowsAt(s, top, left, rows, n - 1, total, r', c');
      PasteRowAt(p, r, left, rows[n - 1], |rows[n - 1]|, total, r', c');
      if r' == r {
        assert View(p, r', c') == View(s, r', c');
        assert StacksAt(p, r', c') == StacksAt(s, r', c');
      }
    }
  }

  lemma {:induction false} PasteRowsCurrent(s: Sheet, top: int, left: int, rows: seq<seq<string>>, n: nat, total: TotalRule, r': int)
    requires Shaped(s.cells) && 0 <= top && 0 <= left < ColumnCount && n <= |rows|
    requires top <= r' < top + n && r' < |s.cells| && |rows[r' - top]| >= 1
    requires IgnoresTotalColumn(total)
    ensures var s' := PasteRows(s, top, left, rows, n, total);
      s'.cells[r'][TotalColumn] == total(s'.cells[r'])
  {
    var p := PasteRows(s, top, left, rows, n - 1, total);
    var r := top + n - 1;
    assert PasteRows(s, top, left, rows, n, total) == PasteRow(p, r, left, rows[n - 1], |rows[n - 1]|, total);
    if r' == r {
      PasteRowCurrent(p, r, left, rows[n - 1], |rows[n - 1]|, total);
    } else {
      PasteRowsCurrent(s, top, left, rows, n - 1, total, r');
      PasteRowOtherRow(p, r, left, rows[n - 1], |rows[n - 1]|, total, r');
    }
  }

  /** Paste at a selection: the clipboard's rows and cells land from its top-left corner,
      stripped and recorded; the parts beyond the grid are dropped; nothing else changes. */
  lemma PasteMeaning(s: Sheet, rows: seq<seq<string>>, sel: Rect, total: TotalRule, r: int, c: int)
    requires Shaped(s.cells) && RectIn(sel, |s.cells|) && InGrid(s, r, c) && c != TotalColumn
    ensures var s' := PasteSplit(s, rows, Some(sel), total);
      (sel.top <= r < sel.top + |rows| && sel.left <= c < sel.left + |rows[r - sel.top]| ==>
         View(s', r, c) == Pasted(rows[r - sel.top][c - sel.left], StacksAt(s, r, c)))
      && (!(sel.top <= r < sel.top + |rows| && sel.left <= c < sel.left + |rows[r - sel.top]|) ==>
         View(s', r, c) == View(s, r, c))
  {
    assert PasteSplit(s, rows, Some(sel), total) == PasteRows(s, sel.top, sel.left, rows, |rows|, total);
    PasteRowsAt(s, sel.top, sel.left, rows, |rows|, total, r, c);
  }

  /** After a paste every row that received a cell has its total current. */
  lemma PasteTotals(s: Sheet, rows: seq<seq<string>>, sel: Rect, total: TotalRule, r: int)
    requires Shaped(s.cells) && RectIn(sel, |s.cells|) && 0 <= r < |s.cells|
    requires IgnoresTotalColumn(total)
    requires sel.top <= r < sel.top + |rows| && |rows[r - sel.top]| >= 1
    ensures var s' := PasteSplit(s, rows, Some(sel), total);
      s'.cells[r][TotalColumn] == total(s'.cells[r])
  {
    PasteRowsCurrent(s, sel.top, sel.left, rows, |rows|, total, r);
  }

  // ------------------------------------------------- paste and the history

  lemma PasteCellSynced(s: Sheet, r: int, c: int, text: string, total: TotalRule)
    requires Synced(s) && InGrid(s, r, c)
    ensures Synced(PasteCell(s, r, c, text, total))
  {
    var t := Strip(text);
    var p := Put(s, r, c, t, Record(StacksAt(s, r, c), t));
    forall r', c' | 0 <= r' < |p.cells| && 0 <= c' < ColumnCount ensures SyncedView(View(p, r', c')) {
      assert SyncedView(View(s, r', c'));
    }
    RefreshTotalSynced(p, r, total);
  }

  lemma PasteRowCellSynced(s: Sheet, r: int, left: int, texts: seq<string>, n: nat, total: TotalRule)
    requires Shaped(s.cells) && 0 <= r && 0 <= left && 0 < n <= |texts|
    requires Synced(PasteRow(s, r, left, texts, n - 1, total))
    ensures Synced(PasteRowCell(s, r, left, texts, n, total))
  {
    if r < |s.cells| && left + n - 1 < ColumnCount {
      PasteCellSynced(PasteRow(s, r, left, texts, n - 1, total), r, left + n - 1, texts[n - 1], total);
    }
  }

  lemma {:induction false} PasteRowSynced(s: Sheet, r: int, left: int, texts: seq<string>, n: nat, total: TotalRule)
    requires Synced(s) && 0 <= r && 0 <= left && n <= |texts|
    ensures Synced(PasteRow(s, r, left, texts, n, total))
    decreases n
  {
    if n > 0 {
      PasteRowSynced(s, r, left, texts, n - 1, total);
      PasteRowCellSynced(s, r, left, texts, n, total);
    }
  }

  lemma {:induction false} PasteRowsSynced(s: Sheet, top: int, left: int, rows: seq<seq<string>>, n: nat, total: TotalRule)
    requires Synced(s) && 0 <= top && 0 <= left && n <= |rows|
    ensures Synced(PasteRows(s, top, left, rows, n, total))
  {
    if n > 0 {
      PasteRowsSynced(s, top, left, rows, n - 1, total);
      PasteRowSynced(PasteRows(s, top, left, rows, n - 1, total), top + n - 1, left, rows[n - 1], |rows[n - 1]|, total);
    }
  }

  /** Paste and cut keep every cell in step with its history. */
  lemma PasteCutSynced(s: Sheet, clip: string, sel: Option<Rect>, total: TotalRule)
    requires Synced(s) && (sel.Some? ==> RectIn(sel.value, |s.cells|))
    ensures Synced(Paste(s, clip, sel, total)) && Synced(Cut(s, sel, total).1)
  {
    if sel.Some? {
      var rows := ClipboardRows(clip);
      PasteRowsSynced(s, sel.value.top, sel.value.left, rows, |rows|, total);
    }
    BulkOpsKeepSynced(s, sel, total);
  }

  /** How a total cell may change across a paste: not at all, or its history extended by
      the texts written to it (any pasted text, then the recorded total or totals), with
      the redo stack emptied. */
  predicate TotalGrown(before: (string, Stacks), after: (string, Stacks)) {
    after == before
    || (after.1.redo == [] && |before.1.history| < |after.1.history|
        && after.1.history[..|before.1.history|] == before.1.history)
  }

  lemma TotalGrownTrans(a: (string, Stacks), b: (string, Stacks), c: (string, Stacks))
    requires TotalGrown(a, b) && TotalGrown(b, c)
    ensures TotalGrown(a, c)
  {
    if a != b && b != c {
      assert c.1.history[..|a.1.history|] == c.1.history[..|b.1.history|][..|a.1.history|];
    }
  }

  /** One pasted cell, with it and its row's total cell in step: every total cell keeps
      its view, or its history is extended by the texts written to it (the pasted text when
      the cell is the total cell, then the recorded total) and its redo stack emptied. */
  lemma PasteCellTotalStep(s: Sheet, r: int, c: int, text: string, total: TotalRule, r': int)
    requires Shaped(s.cells) && InGrid(s, r, c) && 0 <= r' < |s.cells|
    requires SyncedView(View(s, r, c)) && SyncedView(View(s, r, TotalColumn))
    ensures TotalGrown(View(s, r', TotalColumn), View(PasteCell(s, r, c, text, total), r', TotalColumn))
    ensures r' != r ==> View(PasteCell(s, r, c, text, total), r', TotalColumn) == View(s, r', TotalColumn)
  {
    var t := Strip(text);
    var p := Put(s, r, c, t, Record(StacksAt(s, r, c), t));
    var s' := RefreshTotal(p, r, total);
    assert s' == PasteCell(s, r, c, text, total);
    if r' != r {
      assert View(p, r', TotalColumn) == View(s, r', TotalColumn);
      RefreshTotalFrame(p, r, total, r', TotalColumn);
    } else {
      RecordAppendsIffNew(StacksAt(s, r, c), t);
      assert TotalGrown(View(s, r, TotalColumn), View(p, r, TotalColumn));
      assert SyncedView(View(p, r, TotalColumn));
      RecordAppendsIffNew(StacksAt(p, r, TotalColumn), total(p.cells[r]));
      assert TotalGrown(View(p, r, TotalColumn), View(s', r, TotalColumn));
      TotalGrownTrans(View(s, r, TotalColumn), View(p, r, TotalColumn), View(s', r, TotalColumn));
    }
  }

  /** Cell `n - 1` of a pasted row, after the cells before it, in a table in step. */
  lemma PasteRowCellTotal(s: Sheet, r: int, left: int, texts: seq<string>, n: nat, total: TotalRule, r': int)
    requires Shaped(s.cells) && 0 <= r && 0 <= left && 0 < n <= |texts| && 0 <= r' < |s.cells|
    requires r < |s.cells| && left + n - 1 < ColumnCount ==>
      var p := PasteRow(s, r, left, texts, n - 1, total);
      SyncedView(View(p, r, left + n - 1)) && SyncedView(View(p, r, TotalColumn))
    ensures var p, q := PasteRow(s, r, left, texts, n - 1, total), PasteRow(s, r, left, texts, n, total);
      TotalGrown(View(p, r', TotalColumn), View(q, r', TotalColumn))
      && (r' != r ==> View(q, r', TotalColumn) == View(p, r', TotalColumn))
  {
    var p := PasteRow(s, r, left, texts, n - 1, total);
    var q := PasteRow(s, r, left, texts, n, total);
    PasteRowNext(s, r, left, texts, n - 1, total);
    if r < |s.cells| && left + n - 1 < ColumnCount {
      assert q == PasteCell(p, r, left + n - 1, texts[n - 1], total);
      PasteCellTotalStep(p, r, left + n - 1, texts[n - 1], total, r');
    } else {
      assert q == p;
    }
  }

  lemma {:induction false} PasteRowTotalHistory(s: Sheet, r: int, left: int, texts: seq<string>, n: nat, total: TotalRule, r': int)
    requires Synced(s) && 0 <= r && 0 <= left && n <= |texts| && 0 <= r' < |s.cells|
    ensures var v := View(PasteRow(s, r, left, texts, n, total), r', TotalColumn);
      TotalGrown(View(s, r', TotalColumn), v) && (r' != r ==> v == View(s, r', TotalColumn))
    decreases n
  {
    if n > 0 {
      var p := PasteRow(s, r, left, texts, n - 1, total);
      PasteRowTotalHistory(s, r, left, texts, n - 1, total, r');
      PasteRowSynced(s, r, left, texts, n - 1, total);
      if r < |s.cells| && left + n - 1 < ColumnCount {
        assert SyncedView(View(p, r, left + n - 1)) && SyncedView(View(p, r, TotalColumn));
      }
      PasteRowCellTotal(s, r, left, texts, n, total, r');
      TotalGrownTrans(View(s, r', TotalColumn), View(p, r', TotalColumn),
                      View(PasteRow(s, r, left, texts, n, total), r', TotalColumn));
    }
  }

  lemma {:induction false} PasteRowsTotalHistory(s: Sheet, top: int, left: int, rows: seq<seq<string>>, n: nat, total: TotalRule, r': int)
    requires Synced(s) && 0 <= top && 0 <= left && n <= |rows| && 0 <= r' < |s.cells|
    ensures var v := View(PasteRows(s, top, left, rows, n, total), r', TotalColumn);
      TotalGrown(View(s, r', TotalColumn), v)
      && (!(top <= r' < top + n && |rows[r' - top]| > 0) ==> v == View(s, r', TotalColumn))
  {
    if n > 0 {
      var p := PasteRows(s, top, left, rows, n - 1, total);
      PasteRowsTotalHistory(s, top, left, rows, n - 1, total, r');
      PasteRowsSynced(s, top, left, rows, n - 1, total);
      PasteRowTotalHistory(p, top + n - 1, left, rows[n - 1], |rows[n - 1]|, total, r');
      TotalGrownTrans(View(s, r', TotalColumn), View(p, r', TotalColumn),
                      View(PasteRows(s, top, left, rows, n, total), r', TotalColumn));
    }
  }

  /** The row totals a paste writes are recorded, as the handler records any total it
      sees change. In a table in step, each total cell after the paste is in step, and it
      either has the view it had or has its history extended by the texts written to it (any
      pasted text, then the recorded total or totals), with its redo stack emptied. A row that received no clipboard cell keeps its
      total cell as it was. */
  lemma PasteRecordsTotals(s: Sheet, rows: seq<seq<string>>, sel: Rect, total: TotalRule, r: int)
    requires Synced(s) && RectIn(sel, |s.cells|) && 0 <= r < |s.cells|
    ensures var before, after := View(s, r, TotalColumn), View(PasteSplit(s, rows, Some(sel), total), r, TotalColumn);
      SyncedView(after)
      && (after == before
          || (after.1.redo == [] && |before.1.history| < |after.1.history|
              && after.1.history[..|before.1.history|] == before.1.history))
      && (!(sel.top <= r < sel.top + |rows| && |rows[r - sel.top]| > 0) ==> after == before)
  {
    var s' := PasteSplit(s, rows, Some(sel), total);
    PasteRowsTotalHistory(s, sel.top, sel.left, rows, |rows|, total, r);
    PasteRowsSynced(s, sel.top, sel.left, rows, |rows|, total);
    assert SyncedView(View(s', r, TotalColumn));
  }

  // ------------------------------------------------- copy then paste

  /** A text that the clipboard passes through unchanged inside a selection: no tab, no
      newline, no whitespace at either end. It may be empty. */
  predicate Plain(t: string) {
    '\t' !in t && '\n' !in t && (t == [] || (!IsSpace(t[0]) && !IsSpace(t[|t| - 1])))
  }

  /** A plain text that is not empty: one that survives at either end of the copied text,
      where the strip of the whole clipboard would remove an empty cell's tab. */
  predicate Clean(t: string) {
    t != [] && Plain(t)
  }

  /** A selection that survives copy and paste: every cell plain, and the first and last
      selected cells not empty. */
  predicate CleanRect(s: Sheet, sel: Rect)
    requires Shaped(s.cells) && RectIn(sel, |s.cells|)
  {
    (forall r, c :: sel.top <= r <= sel.bottom && sel.left <= c <= sel.right ==> Plain(s.cells[r][c]))
    && Clean(s.cells[sel.top][sel.left]) && Clean(s.cells[sel.bottom][sel.right])
  }

  lemma {:induction false} JoinSnoc(xs: seq<string>, y: string, sep: char)
    requires |xs| >= 1
    ensures Join(xs + [y], sep) == Join(xs, sep) + [sep] + y
  {
    if |xs| == 1 {
      assert (xs + [y])[1..] == [y];
    } else {
      assert (xs + [y])[1..] == xs[1..] + [y];
      JoinSnoc(xs[1..], y, sep);
    }
  }

  lemma JoinFirst(xs: seq<string>, sep: char)
    requires |xs| >= 1 && xs[0] != []
    ensures |Join(xs, sep)| >= 1 && Join(xs, sep)[0] == xs[0][0]
  {
  }

  lemma {:induction false} JoinLast(xs: seq<string>, sep: char)
    requires |xs| >= 1 && xs[|xs| - 1] != []
    ensures var j := Join(xs, sep);
      |j| >= 1 && j[|j| - 1] == xs[|xs| - 1][|xs[|xs| - 1]| - 1]
  {
    if |xs| > 1 {
      JoinLast(xs[1..], sep);
    }
  }

  /** The text of one copied row. */
  function Line(s: Sheet, sel: Rect, r: int): string
    requires Shaped(s.cells) && RectIn(sel, |s.cells|) && sel.top <= r <= sel.bottom
  {
    Join(RowTexts(s, sel, r), '\t')
  }

  function Lines(s: Sheet, sel: Rect, n: nat): (ls: seq<string>)
    requires Shaped(s.cells) && RectIn(sel, |s.cells|) && n <= Height(sel)
    ensures |ls| == n && forall i :: 0 <= i < n ==> ls[i] == Line(s, sel, sel.top + i)
  {
    seq(n, i requires 0 <= i < n => Line(s, sel, sel.top + i))
  }

  lemma {:induction false} CopyLinesJoin(s: Sheet, sel: Rect, n: nat)
    requires Shaped(s.cells) && RectIn(sel, |s.cells|) && 1 <= n <= Height(sel)
    ensures CopyLines(s, sel, n) == Join(Lines(s, sel, n), '\n') + "\n"
  {
    if n == 1 {
      assert CopyLines(s, sel, 0) == "";
    } else {
      CopyLinesJoin(s, sel, n - 1);
      assert Lines(s, sel, n) == Lines(s, sel, n - 1) + [Line(s, sel, sel.top + n - 1)];
      JoinSnoc(Lines(s, sel, n - 1), Line(s, sel, sel.top + n - 1), '\n');
    }
  }

  lemma StripFinalNewline(j: string)
    requires j != [] && !IsSpace(j[0]) && !IsSpace(j[|j| - 1])
    ensures Strip(j + "\n") == j
  {
    var t := j + "\n";
    assert TrimLeft(t) == t;
    assert t[..|t| - 1] == j;
    assert TrimRight(t) == TrimRight(j);
  }

  /** The line of a selected row of plain cells: no newline in it, and when its first or
      last cell is not empty, its first or last character is that cell's. */
  lemma CleanRowLine(s: Sheet, sel: Rect, r: int)
    requires Shaped(s.cells) && RectIn(sel, |s.cells|) && sel.top <= r <= sel.bottom && CleanRect(s, sel)
    ensures '\n' !in Line(s, sel, r)
    ensures var l := Line(s, sel, r);
      (s.cells[r][sel.left] != [] ==> l != [] && l[0] == s.cells[r][sel.left][0])
      && (s.cells[r][sel.right] != [] ==>
            l != [] && l[|l| - 1] == s.cells[r][sel.right][|s.cells[r][sel.right]| - 1])
  {
    var ts := RowTexts(s, sel, r);
    CleanRowTexts(s, sel, r);
    JoinNoChar(ts, '\t', '\n');
    if ts[0] != [] {
      JoinFirst(ts, '\t');
    }
    if ts[|ts| - 1] != [] {
      JoinLast(ts, '\t');
    }
  }

  /** The line of a selected row of plain cells splits at its tabs back into the row's texts. */
  lemma CleanRowSplit(s: Sheet, sel: Rect, r: int)
    requires Shaped(s.cells) && RectIn(sel, |s.cells|) && sel.top <= r <= sel.bottom && CleanRect(s, sel)
    ensures SplitOn(Line(s, sel, r), '\t') == RowTexts(s, sel, r)
  {
    var ts := RowTexts(s, sel, r);
    CleanRowTexts(s, sel, r);
    SplitJoin(ts, '\t');
  }

  lemma CleanRowTexts(s: Sheet, sel: Rect, r: int)
    requires Shaped(s.cells) && RectIn(sel, |s.cells|) && sel.top <= r <= sel.bottom && CleanRect(s, sel)
    ensures forall j :: 0 <= j < Width(sel) ==> '\t' !in RowTexts(s, sel, r)[j] && Plain(RowTexts(s, sel, r)[j])
  {
    var ts := RowTexts(s, sel, r);
    forall j | 0 <= j < |ts| ensures Plain(ts[j]) {
      assert InRect(sel, r, sel.left + j);
    }
  }

  /** The copied text of a clean selection: its lines joined by newlines, with nothing
      for a second strip to remove. */
  lemma CopyTextLines(s: Sheet, sel: Rect)
    requires Shaped(s.cells) && RectIn(sel, |s.cells|) && CleanRect(s, sel)
    ensures var ls, clip := Lines(s, sel, Height(sel)), CopyText(s, Some(sel)).value;
      clip == Join(ls, '\n') && Strip(clip) == clip
      && forall i :: 0 <= i < |ls| ==> '\n' !in ls[i]
  {
    var ls := Lines(s, sel, Height(sel));
    CopyLinesJoin(s, sel, Height(sel));
    forall i | 0 <= i < |ls| ensures '\n' !in ls[i] {
      CleanRowLine(s, sel, sel.top + i);
    }
    assert ls[0] == Line(s, sel, sel.top);
    assert ls[|ls| - 1] == Line(s, sel, sel.bottom);
    CleanRowLine(s, sel, sel.top);
    CleanRowLine(s, sel, sel.bottom);
    assert Clean(s.cells[sel.top][sel.left]) && Clean(s.cells[sel.bottom][sel.right]);
    JoinFirst(ls, '\n');
    JoinLast(ls, '\n');
    var j := Join(ls, '\n');
    StripFinalNewline(j);
    StripNoEdges(j);
  }

  /** Copying a clean selection (its inner cells may be empty) and reading the clipboard
      back gives the selected texts, row by row and cell by cell. */
  lemma CopyReadsBack(s: Sheet, sel: Rect)
    requires Shaped(s.cells) && RectIn(sel, |s.cells|) && CleanRect(s, sel)
    ensures CopyText(s, Some(sel)).Some? && ClipboardRows(CopyText(s, Some(sel)).value) == RectTexts(s, sel)
  {
    var clip := CopyText(s, Some(sel)).value;
    var rows, want := ClipboardRows(clip), RectTexts(s, sel);
    CopySplitLines(s, sel);
    ReadRowAt(s, sel, clip, 0);
    forall i | 0 <= i < |rows| ensures rows[i] == want[i] {
      ReadRowAt(s, sel, clip, i);
    }
  }

  /** A clipboard whose stripped text splits at its newlines into the lines of a clean
      selection reads back, at row `i`, as the texts of selected row `i`. */
  lemma ReadRowAt(s: Sheet, sel: Rect, clip: string, i: int)
    requires Shaped(s.cells) && RectIn(sel, |s.cells|) && CleanRect(s, sel) && 0 <= i < Height(sel)
    requires SplitOn(Strip(clip), '\n') == Lines(s, sel, Height(sel))
    ensures var rows := ClipboardRows(clip);
      |rows| == Height(sel) && rows[i] == RowTexts(s, sel, sel.top + i)
  {
    var lines := SplitOn(Strip(clip), '\n');
    assert lines[i] == Line(s, sel, sel.top + i);
    CleanRowSplit(s, sel, sel.top + i);
  }

  /** The stripped copied text of a clean selection splits at its newlines into the lines
      of the selected rows. */
  lemma CopySplitLines(s: Sheet, sel: Rect)
    requires Shaped(s.cells) && RectIn(sel, |s.cells|) && CleanRect(s, sel)
    ensures SplitOn(Strip(CopyText(s, Some(sel)).value), '\n') == Lines(s, sel, Height(sel))
  {
    var ls := Lines(s, sel, Height(sel));
    CopyTextLines(s, sel);
    SplitJoin(ls, '\n');
  }

  /** So copying a clean selection and pasting it back onto the same selection leaves
      each of its day cells, and its history, as it was. */
  lemma CopyPasteSamePlace(s: Sheet, sel: Rect, total: TotalRule, r: int, c: int)
    requires Synced(s) && RectIn(sel, |s.cells|) && CleanRect(s, sel)
    requires InRect(sel, r, c) && c != TotalColumn
    ensures View(Paste(s, CopyText(s, Some(sel)).value, Some(sel), total), r, c) == View(s, r, c)
  {
    var clip := CopyText(s, Some(sel)).value;
    CopyReadsBack(s, sel);
    assert Paste(s, clip, Some(sel), total) == PasteSplit(s, RectTexts(s, sel), Some(sel), total);
    PasteOwnTexts(s, sel, total, r, c);
  }

  /** Pasting a clean selection's own texts back onto it leaves each of its day cells, and
      its history, as it was. */
  lemma PasteOwnTexts(s: Sheet, sel: Rect, total: TotalRule, r: int, c: int)
    requires Synced(s) && RectIn(sel, |s.cells|) && CleanRect(s, sel)
    requires InRect(sel, r, c) && c != TotalColumn
    ensures View(PasteSplit(s, RectTexts(s, sel), Some(sel), total), r, c) == View(s, r, c)
  {
    PasteMeaning(s, RectTexts(s, sel), sel, total, r, c);
    RectTextAt(s, sel, r, c);
    PastedOver(View(s, r, c));
  }

  /** The selected texts hold cell `(r, c)` at its place in the selection. */
  lemma RectTextAt(s: Sheet, sel: Rect, r: int, c: int)
    requires Shaped(s.cells) && RectIn(sel, |s.cells|) && InRect(sel, r, c)
    ensures var rows := RectTexts(s, sel);
      sel.top <= r < sel.top + |rows| && sel.left <= c < sel.left + |rows[r - sel.top]|
      && rows[r - sel.top][c - sel.left] == s.cells[r][c]
  {
    var i := r - sel.top;
    assert sel.top + i == r;
    assert RectTexts(s, sel)[i] == RowTexts(s, sel, r);
  }

  /** A plain text pasted over itself, when its history already ends with it, changes
      neither the text nor the history. */
  lemma PastedOver(v: (string, Stacks))
    requires Plain(v.0) && SyncedView(v)
    ensures Pasted(v.0, v.1) == v
  {
    StripNoEdges(v.0);
  }

  /** The strip of the copied text drops an empty first cell: a row whose selection starts
      with an empty cell reads back one cell short, so a paste shifts it left. */
  lemma CopyDropsLeadingEmptyCell(s: Sheet, sel: Rect)
    requires Shaped(s.cells) && RectIn(sel, |s.cells|)
    requires sel.top == sel.bottom && sel.right == sel.left + 1
    requires s.cells[sel.top][sel.left] == "" && Clean(s.cells[sel.top][sel.right])
    ensures ClipboardRows(CopyText(s, Some(sel)).value) == [[s.cells[sel.top][sel.right]]]
  {
    var x := s.cells[sel.top][sel.right];
    var ts := RowTexts(s, sel, sel.top);
    assert ts == ["", x];
    assert Join(ts, '\t') == "\t" + x by {
      assert ts[1..] == [x];
    }
    assert CopyLines(s, sel, 1) == "\t" + x + "\n" by {
      assert CopyLines(s, sel, 0) == "";
    }
    var t := "\t" + x + "\n";
    assert TrimLeft(t) == x + "\n" by {
      assert t[1..] == x + "\n";
    }
    StripFinalNewline(x);
    StripIdempotent(t);
    SplitPrefix(x, "", '\n');
    SplitPrefix(x, "", '\t');
  }
}
