/** What typing into a cell, a key press and the history update do to the grid value:
    the cell-change handler (`eventListener_chgt_cellule`), `keyPressEvent` and
    `mettre_a_jour_historique_et_total`. */
module Editing {
  import opened Text
  import opened Intervals
  import opened History
  import opened Totals
  import opened Grid

  /** Writes a text without touching either stack. */
  function WithText(s: Sheet, r: int, c: int, text: string): (s': Sheet)
    requires Shaped(s.cells) && InGrid(s, r, c)
    ensures Shaped(s'.cells) && |s'.cells| == |s.cells|
    ensures s'.cells[r][c] == text && StacksAt(s', r, c) == StacksAt(s, r, c)
  {
    Sheet(s.cells[r := s.cells[r][c := text]], s.history, s.redo)
  }

  /** Writing the text a cell already has leaves the sheet as it was. */
  lemma WithTextSame(s: Sheet, r: int, c: int)
    requires Shaped(s.cells) && InGrid(s, r, c)
    ensures WithText(s, r, c, s.cells[r][c]) == s
  {
    assert s.cells[r][c := s.cells[r][c]] == s.cells[r];
    assert s.cells[r := s.cells[r]] == s.cells;
  }

  /** Records a text in a cell's history without touching the cell. */
  function WithRecord(s: Sheet, r: int, c: int, text: string): (s': Sheet)
    requires Shaped(s.cells) && InGrid(s, r, c)
    ensures s'.cells == s.cells && StacksAt(s', r, c) == Record(StacksAt(s, r, c), text)
  {
    var st := Record(StacksAt(s, r, c), text);
    Sheet(s.cells, s.history[(r, c) := st.history], s.redo[(r, c) := st.redo])
  }

  /** Writing a cell together with its stacks is writing the text, then recording. */
  lemma PutIsTextThenRecord(s: Sheet, r: int, c: int, t: string, text: string)
    requires Shaped(s.cells) && InGrid(s, r, c)
    ensures Put(s, r, c, t, Record(StacksAt(s, r, c), text)) == WithRecord(WithText(s, r, c, t), r, c, text)
    ensures Put(s, r, c, t, Record(StacksAt(s, r, c), text)) == WithText(WithRecord(s, r, c, text), r, c, t)
  {
  }

  /** The handler on cell `(r, c)` once its new text is in place. The name column is left
      alone; a text holding a `-` is left alone too, and is then neither recorded nor
      totalled. Otherwise the text is formatted (signals blocked), the final text recorded,
      and the row total refreshed. */
  function HandleChange(s: Sheet, r: int, c: int, total: TotalRule): (s': Sheet)
    requires Shaped(s.cells) && InGrid(s, r, c)
    ensures Shaped(s'.cells) && |s'.cells| == |s.cells|
  {
    var text := s.cells[r][c];
    if c == 0 || '-' in text then s
    else
      var f := Normalized(text);
      RefreshTotal(Put(s, r, c, f, Record(StacksAt(s, r, c), f)), r, total)
  }

  /** The user commits `text` into cell `(r, c)`. Qt signals only a real change, so an
      unchanged text does nothing. */
  function Edit(s: Sheet, r: int, c: int, text: string, total: TotalRule): (s': Sheet)
    requires Shaped(s.cells) && InGrid(s, r, c)
    ensures Shaped(s'.cells) && |s'.cells| == |s.cells|
  {
    if text == s.cells[r][c] then s else HandleChange(WithText(s, r, c, text), r, c, total)
  }

  /** `keyPressEvent`: Delete and Backspace clear the selection first; then the current
      cell's text is recorded. */
  function KeyPress(s: Sheet, sel: Option<Rect>, current: Option<(int, int)>, isDelete: bool, total: TotalRule): (s': Sheet)
    requires Shaped(s.cells) && (sel.Some? ==> RectIn(sel.value, |s.cells|))
    requires current.Some? ==> InGrid(s, current.value.0, current.value.1)
    ensures Shaped(s'.cells) && |s'.cells| == |s.cells|
  {
    var k := if isDelete then ClearSelection(s, sel, total) else s;
    match current
    case None => k
    case Some((r, c)) => WithRecord(k, r, c, k.cells[r][c])
  }

  /** `mettre_a_jour_historique_et_total`: records the stripped text (the cell keeps its
      text) and refreshes the row total. */
  function UpdateHistoryAndTotal(s: Sheet, r: int, c: int, total: TotalRule): (s': Sheet)
    requires Shaped(s.cells) && InGrid(s, r, c)
    ensures Shaped(s'.cells) && |s'.cells| == |s.cells|
  {
    RefreshTotal(WithRecord(s, r, c, Strip(s.cells[r][c])), r, total)
  }

  // ------------------------------------------------------------ meaning

  /** A day-cell edit without a dash: the cell shows the formatted text, which tops its
      history (pushed once), the row total is current, and nothing else changes. */
  lemma EditFormats(s: Sheet, r: int, c: int, text: string, total: TotalRule, r': int, c': int)
    requires Shaped(s.cells) && InGrid(s, r, c) && InGrid(s, r', c')
    requires 0 < c < TotalColumn && '-' !in text && text != s.cells[r][c]
    requires IgnoresTotalColumn(total)
    ensures var s' := Edit(s, r, c, text, total);
      s'.cells[r][c] == Normalized(text)
      && StacksAt(s', r, c) == Record(StacksAt(s, r, c), Normalized(text))
      && s'.cells[r][TotalColumn] == total(s'.cells[r])
      && ((r', c') != (r, c) && (r', c') != (r, TotalColumn) ==> View(s', r', c') == View(s, r', c'))
  {
    var w := WithText(s, r, c, text);
    var f := Normalized(text);
    var p := Put(w, r, c, f, Record(StacksAt(w, r, c), f));
    assert Edit(s, r, c, text, total) == RefreshTotal(p, r, total);
    RefreshTotalAt(p, r, total, r', c');
    RefreshTotalAt(p, r, total, r, c);
  }

  /** A text holding a dash is kept as typed, but its history is not touched and the row
      total is not recomputed: every other cell, including the total, stays. */
  lemma EditWithDash(s: Sheet, r: int, c: int, text: string, total: TotalRule, r': int, c': int)
    requires Shaped(s.cells) && InGrid(s, r, c) && InGrid(s, r', c')
    requires '-' in text
    ensures var s' := Edit(s, r, c, text, total);
      s'.cells[r][c] == text && StacksAt(s', r, c) == StacksAt(s, r, c)
      && ((r', c') != (r, c) ==> View(s', r', c') == View(s, r', c'))
  {
  }

  /** Editing a name changes only the name cell: no history and no total. */
  lemma EditName(s: Sheet, r: int, text: string, total: TotalRule, r': int, c': int)
    requires Shaped(s.cells) && InGrid(s, r, 0) && InGrid(s, r', c')
    ensures var s' := Edit(s, r, 0, text, total);
      s'.cells[r][0] == text && StacksAt(s', r, 0) == StacksAt(s, r, 0)
      && ((r', c') != (r, 0) ==> View(s', r', c') == View(s, r', c'))
  {
  }

  /** Typing the text a cell already shows does nothing. */
  lemma EditSameText(s: Sheet, r: int, c: int, total: TotalRule)
    requires Shaped(s.cells) && InGrid(s, r, c)
    ensures Edit(s, r, c, s.cells[r][c], total) == s
  {
  }

  /** A day-cell edit keeps every cell in step with its history when the text has no
      dash; a dash leaves the edited cell out of step whenever the text is new. */
  lemma EditSynced(s: Sheet, r: int, c: int, text: string, total: TotalRule)
    requires Synced(s) && InGrid(s, r, c) && 0 < c
    ensures '-' !in text ==> Synced(Edit(s, r, c, text, total))
    ensures '-' in text && text != s.cells[r][c] ==> !Synced(Edit(s, r, c, text, total))
  {
    var s' := Edit(s, r, c, text, total);
    if text != s.cells[r][c] {
      var w := WithText(s, r, c, text);
      if '-' !in text {
        var f := Normalized(text);
        var p := Put(w, r, c, f, Record(StacksAt(w, r, c), f));
        forall r', c' | 0 <= r' < |p.cells| && 0 <= c' < ColumnCount ensures SyncedView(View(p, r', c')) {
          assert SyncedView(View(s, r', c'));
        }
        RefreshTotalSynced(p, r, total);
      } else {
        assert SyncedView(View(s, r, c));
        assert !SyncedView(View(s', r, c));
      }
    }
  }

  /** Recording what a cell shows puts it in step and keeps the others as they were. */
  lemma RecordShownSynced(s: Sheet, r: int, c: int)
    requires Shaped(s.cells) && InGrid(s, r, c)
    ensures var s' := WithRecord(s, r, c, s.cells[r][c]);
      SyncedView(View(s', r, c)) && (Synced(s) ==> Synced(s'))
  {
    var s' := WithRecord(s, r, c, s.cells[r][c]);
    if Synced(s) {
      forall r', c' | 0 <= r' < |s'.cells| && 0 <= c' < ColumnCount ensures SyncedView(View(s', r', c')) {
        assert SyncedView(View(s, r', c'));
      }
    }
  }

  /** After a key press the current cell is in step with its history, and clearing first
      keeps every cell in step. */
  lemma KeyPressSynced(s: Sheet, sel: Option<Rect>, r: int, c: int, isDelete: bool, total: TotalRule)
    requires Shaped(s.cells) && (sel.Some? ==> RectIn(sel.value, |s.cells|)) && InGrid(s, r, c)
    ensures var s' := KeyPress(s, sel, Some((r, c)), isDelete, total);
      SyncedView(View(s', r, c)) && (Synced(s) ==> Synced(s'))
  {
    var k := if isDelete then ClearSelection(s, sel, total) else s;
    assert KeyPress(s, sel, Some((r, c)), isDelete, total) == WithRecord(k, r, c, k.cells[r][c]);
    if Synced(s) {
      BulkOpsKeepSynced(s, sel, total);
    }
    RecordShownSynced(k, r, c);
  }

  /** The history update records the text as it reads once stripped: a cell whose text
      has whitespace at an edge is left out of step with its history. */
  lemma UpdateHistoryRecordsStripped(s: Sheet, r: int, c: int, total: TotalRule)
    requires Shaped(s.cells) && InGrid(s, r, c) && c != TotalColumn
    ensures var s' := UpdateHistoryAndTotal(s, r, c, total);
      s'.cells[r][c] == s.cells[r][c]
      && StacksAt(s', r, c) == Record(StacksAt(s, r, c), Strip(s.cells[r][c]))
      && (SyncedView(View(s', r, c)) <==> Strip(s.cells[r][c]) == s.cells[r][c])
  {
    var p := WithRecord(s, r, c, Strip(s.cells[r][c]));
    RefreshTotalFrame(p, r, total, r, c);
  }
}
