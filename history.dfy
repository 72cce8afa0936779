/** The per-cell edit history of the schedule grid: for each cell, the list of texts it
    has held (`historique`) and the list of texts undone from it (`redo_stack`). Both are
    stacks whose top is the last element. */
module History {

  /** The two stacks of one cell. */
  datatype Stacks = Stacks(history: seq<string>, redo: seq<string>)

  function Last(s: seq<string>): string
    requires s != []
  {
    s[|s| - 1]
  }

  /** The recording rule used by the cell handler, key presses, paste and the history
      update: push `text` when the history is empty or its top differs, and clear the redo
      stack exactly when something was pushed. */
  function Record(st: Stacks, text: string): (r: Stacks)
    ensures r.history != [] && Last(r.history) == text
    ensures |st.history| <= |r.history| <= |st.history| + 1
    ensures r.history[..|st.history|] == st.history
    ensures r.redo == st.redo || r.redo == []
  {
    if st.history == [] || Last(st.history) != text then Stacks(st.history + [text], [])
    else st
  }

  /** `retour_en_arriere` applies only when the history holds more than the first text. */
  predicate CanUndo(st: Stacks) {
    |st.history| > 1
  }

  /** Moves the top of the history onto the redo stack; the cell then shows the new top. */
  function Undo(st: Stacks): (r: Stacks)
    requires CanUndo(st)
    ensures |r.history| == |st.history| - 1 >= 1
    ensures |r.redo| == |st.redo| + 1
  {
    Stacks(st.history[..|st.history| - 1], st.redo + [Last(st.history)])
  }

  /** `refaire` applies only when something was undone. */
  predicate CanRedo(st: Stacks) {
    st.redo != []
  }

  /** Pops the redo stack onto the history; the cell then shows the popped text. */
  function Redo(st: Stacks): (r: Stacks)
    requires CanRedo(st)
    ensures |r.history| == |st.history| + 1 && |r.redo| == |st.redo| - 1
    ensures Last(r.history) == Last(st.redo)
  {
    Stacks(st.history + [Last(st.redo)], st.redo[..|st.redo| - 1])
  }

  /** `effacer_cellules_selectionnees` on one cell holding `current`: the current text is
      recorded, then `""` is pushed unconditionally and the redo stack is cleared. */
  function Clear(st: Stacks, current: string): (r: Stacks)
    ensures |r.history| >= 2
    ensures Last(r.history) == "" && r.redo == []
  {
    Stacks(Record(st, current).history + [""], [])
  }

  // ------------------------------------------------------------ properties

  /** Recording the same text twice records it once. */
  lemma RecordIdempotent(st: Stacks, text: string)
    ensures Record(Record(st, text), text) == Record(st, text)
  {
  }

  /** The record appends exactly when the top differs, and then forgets every redo. */
  lemma RecordAppendsIffNew(st: Stacks, text: string)
    ensures |Record(st, text).history| == |st.history| + 1
      <==> (st.history == [] || Last(st.history) != text)
    ensures |Record(st, text).history| == |st.history| + 1 ==> Record(st, text).redo == []
    ensures |Record(st, text).history| == |st.history| ==> Record(st, text) == st
  {
  }

  /** Redo after undo restores both stacks, and the cell shows the text it showed before. */
  lemma RedoUndoes(st: Stacks)
    requires CanUndo(st)
    ensures CanRedo(Undo(st)) && Redo(Undo(st)) == st
    ensures Last(Redo(Undo(st)).history) == Last(st.history)
  {
    assert st.history[..|st.history| - 1] + [Last(st.history)] == st.history;
  }

  /** Undo after redo restores both stacks. */
  lemma UndoRedoes(st: Stacks)
    requires CanRedo(st)
    ensures CanUndo(Redo(st)) <==> st.history != []
    ensures st.history != [] ==> Undo(Redo(st)) == st
  {
    if st.history != [] {
      assert st.redo[..|st.redo| - 1] + [Last(st.redo)] == st.redo;
      assert (st.history + [Last(st.redo)])[..|st.history|] == st.history;
    }
  }

  /** Undo leaves at least one text, so a history started with one text never empties. */
  lemma UndoKeepsFirst(st: Stacks)
    requires CanUndo(st)
    ensures Undo(st).history != [] && Undo(st).history[0] == st.history[0]
  {
  }

  /** After a clear, one undo shows the text the cell held before the clear. */
  lemma UndoAfterClear(st: Stacks, current: string)
    ensures CanUndo(Clear(st, current))
    ensures Last(Undo(Clear(st, current)).history) == current
  {
    var h := Record(st, current).history;
    assert (h + [""])[..|h|] == h;
  }
}
