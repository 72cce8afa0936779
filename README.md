# Weekly planning grid: a verified model

This project models the schedule-grid engine of the planning window (`Window` in
`main.py`). A manager fills a table with one row per employee. Column 0 holds the
employee's name, columns 1 to 7 the shifts from Monday to Sunday (for example
`7 - 12   14 - 19`, or an absence code such as `CP`), and column 8 the total hours of
the row.

The model covers:

- the formatting the cell handler applies to a typed cell (`eventListener_chgt_cellule`);
- how a cell's text is read as shift intervals, and when two shifts overlap;
- the row total and the text written into the total column (`calculer_total_ligne`);
- the per-cell history and redo stacks, with undo, redo, clear, copy, paste and cut over
  the selected rectangle;
- the planning analysis (`analyser_planning`): overlapping shifts, deviations from the
  contract's weekly hours, and understaffed periods, with the report text it shows;
- how a saved week is built from the table (`save_json_planning`) and put back into it
  by employee name (`load_planning`).

Layout, one module per file, in dependency order:

| module | file | contents |
|---|---|---|
| `Text` | text.dfy | `strip`, `upper`/`lower`, `split`/`join`, digits, and the decimal `float` grammar |
| `Intervals` | intervals.dfy | token splitting on `[-\s]+`, `extraire_creneaux`, `chevauche`, the space formatter |
| `Totals` | totals.dfy | contracts and baselines, cell hours, row total, `round(total, 2)` and its text |
| `History` | history.dfy | the stacks of one cell: record, undo, redo, clear |
| `Grid` | grid.dfy | the table with its history maps, bulk undo/redo/clear over a rectangle, total refresh |
| `Editing` | editing.dfy | the cell handler, key presses, `mettre_a_jour_historique_et_total` |
| `Clipboard` | clipboard.dfy | copy, paste, cut |
| `Planning` | planning.dfy | the `Window` class: fields updated in place by loop-based methods |
| `Analysis` | analysis.dfy | `generate_hours`, the day buckets, the presence walk |
| `Understaffing` | understaffing.dfy | the scan of a day's buckets for periods with fewer than 3 people |
| `Findings` | findings.dfy | the analysis as data: overlap, deviation and understaffing findings |
| `Messages` | messages.dfy | `h_float_to_str`, the `.2f` amounts, the report lines |
| `Snapshot` | snapshot.dfy | saved weeks and loading them back by name |

The table is a `seq<seq<string>>` with 9 columns per row. `historique` and `redo_stack` are
maps from `(row, column)` to lists of texts. The functional modules state what each
operation does to that state. The `Planning.Window` class holds the same state as fields
and performs each operation with main.py's loops, proved equal to the functional
statement. Hours are exact reals. The clipboard, the selection (at most one rectangle) and
the roster are parameters.

These quirks of the code are kept:

- A typed text that contains a `-` is left as it is. It is then not recorded in the
  cell's history, and the row total is not recomputed (main.py:582-583).
- `calculer_total_ligne` sums columns 0 to 7, so it also reads the name column.
- `calculer_total_ligne` writes the total with signals on, after clear, undo, redo,
  typing and each pasted cell. Paste blocks signals around each cell write
  (main.py:764-766), but `blockSignals` is a flag, not a counter: the `False` at
  main.py:766 turns signals back on inside the blocked `eventFilter` call
  (main.py:692-694). So when a total changes, Qt re-enters the cell handler for column 8,
  and the handler records the total text in that cell's history and empties its redo
  stack. `PasteRecordsTotals` states this for paste.
- The trailing understaffing check (main.py:337-340) can never add a message: the loop
  has already closed any open period at the last bucket. `TrailingCheckIdle` proves this.

## Model

| member | source | states |
|---|---|---|
| Text.StripEdges | main.py:539 | `strip()` never lengthens the text and leaves no whitespace at either end |
| Text.StripIdempotent | main.py:266 | stripping a stripped text changes nothing |
| Text.CaseMaps | main.py:540 | the model's `Upper` and `Lower` map each character on its own, by `UpperChar` and `LowerChar` |
| Text.Upper | main.py:540 | the model's upper-casing keeps the length of the text (Python's need not, see Left out) |
| Text.Lower | main.py:922-926 | the model's lower-casing keeps the length of the text (Python's need not, see Left out) |
| Text.SplitOn | main.py:735 | `split(sep)` gives at least one piece, and no piece holds the separator |
| Text.SplitJoin | main.py:729-735 | splitting a `join` on a separator that no part holds gives back the parts |
| Text.JoinNoChar | main.py:729 | a join contains a character only if one of its parts contains it |
| Text.NatToString | main.py:563 | the decimal digits of a number read back as that number |
| Text.ParseFloat | main.py:278 | a blank text is not a number (`float("")` raises) |
| Text.ParseDecimal | main.py:551 | `w.f` made of digits parses to the decimal value of `w` and `f` |
| Text.NoDigitNoParse | main.py:551 | a text without a digit never parses as a number |
| Text.ReplaceChar | main.py:278 | `replace(",", ".")` changes exactly the commas, position by position |
| Intervals.SkipSepsSuffix | main.py:363 | dropping leading separators leaves a suffix of the text |
| Intervals.Tokens | main.py:363 | `re.split(r"[-\s]+", …)` gives at least one token, and no token holds a separator |
| Intervals.TokensJoin | main.py:363 | words without separators, joined by single spaces, split back into those words |
| Intervals.LeadingSepToken | main.py:363 | a text that starts with a separator yields an empty first token |
| Intervals.TrailingSepToken | main.py:363 | a text that ends with a separator yields an empty last token |
| Intervals.TokensNonEmptyText | main.py:363 | a text that starts with a non-separator has a non-empty first token |
| Intervals.ParseAll | main.py:363 | `map(float, …)` succeeds iff every token parses, and then gives each token's value in order |
| Intervals.Pairs | main.py:364 | the intervals are the consecutive pairs of values; an odd last value is dropped |
| Intervals.ExtractIntervalsSpec | main.py:361-366 | all tokens numeric: the pairs of token values; some token not numeric: no interval |
| Intervals.EdgeSeparatorGivesNothing | main.py:361-366 | a text with a separator at either end yields no interval |
| Intervals.TwoShifts | main.py:361-366 | `a - b   c - d` over four numbers yields the intervals `(a, b)` and `(c, d)` |
| Intervals.OneShift | main.py:361-366 | `x-y` over two numbers yields the interval `(x, y)` |
| Intervals.TwoShiftsExample | main.py:361-366 | `"7 - 14   15 - 19"` yields `[(7, 14), (15, 19)]` |
| Intervals.OverlapSymmetric | main.py:368-369 | overlap is symmetric |
| Intervals.OverlapNeedsProperIntervals | main.py:368-369 | touching or disjoint intervals do not overlap; overlapping intervals both have start < end |
| Intervals.ChainedHasNoOverlap | main.py:292 | shifts in time order, each ending before the next starts, raise no overlap |
| Intervals.ChainBound | main.py:292 | in such a chain every earlier shift ends before every later one starts |
| Intervals.Normalize | main.py:581-596 | the handler's loop computes the formatted text: unchanged with a `-`, otherwise each space replaced by its piece |
| Intervals.SpacePieceSeps | main.py:591-594 | each space becomes three separator characters, `" - "` or `"   "` |
| Intervals.SpreadLength | main.py:588-596 | the formatted text is the length plus two per space |
| Intervals.NormalizedLength | main.py:588-596 | without a `-` the handler's output has length `len + 2·#spaces` |
| Intervals.SpreadKeepsLetters | main.py:588-596 | the characters other than spaces and dashes keep their order |
| Intervals.SpreadByPosition | main.py:588-596 | the output is the concatenation, in order, of each character's piece: the k-th space gives `" - "` for odd k and `"   "` for even k |
| Intervals.SpreadNoSpace | main.py:588-596 | a text without spaces is left unchanged |
| Intervals.SpreadDash | main.py:591-592 | a text with a space gains a `-` (the first space is odd) |
| Intervals.NormalizedIdempotent | main.py:581-596 | formatting a formatted text changes nothing |
| Intervals.TokensSpread | main.py:585-596 | formatting does not change the token list |
| Intervals.NormalizedKeepsIntervals | main.py:581-596 | a cell's intervals are the same before and after formatting |
| Totals.ContractOfFirstMatch | main.py:518-522 | the contract is that of the first roster entry with the exact name, `""` when none has it |
| Totals.LookupContract | main.py:518-522 | the `for emp in employees` search returns that contract |
| Totals.TotalBaseline | main.py:524-533 | the baseline is one of 0, 33, 35, 39 |
| Totals.CodesStartWithLetter | main.py:543-548 | the absence codes begin with a capital letter, so they never parse as shifts |
| Totals.Span | main.py:555 | `abs(fin - debut)` is non-negative and is one of the two differences |
| Totals.CellHours | main.py:538-559 | a day cell never counts negative hours; its meaning is stated by the lemmas below |
| Totals.RowTotal | main.py:511-559 | a row total is never negative |
| Totals.CellHoursIgnoresEdgesAndCase | main.py:539-540 | a cell's hours read through `strip` and `upper`: surrounding whitespace and letter case do not matter |
| Totals.UpperStrip | main.py:539-540 | upper-casing and stripping commute |
| Totals.AbsenceCodes | main.py:543-548 | `CP`/`CGP`/`CONGÉS` count a sixth of the baseline; `AFORMANCE`/`CFA`/`COURS`/`ALTERNANCE` count 7 |
| Totals.NoDigitCountsNothing | main.py:549-559 | a cell without digits that is no code counts 0 (the `ValueError` is swallowed) |
| Totals.ShiftCell | main.py:549-555 | a cell `x-y` of two numbers counts `abs(y - x)` |
| Totals.OneShiftHours | main.py:549-555 | a cell holding one interval counts that interval's length |
| Totals.ComputeRowTotal | main.py:511-559 | the contract search and column loops compute the row's exact total over columns 0 to 7 |
| Totals.SumColumns | main.py:535-559 | the column loop adds each cell's hours in order |
| Totals.SumCellsNext | main.py:535-559 | one more column adds that cell's hours |
| Totals.ComputeCellHours | main.py:538-559 | the per-cell branch computes that cell's hours |
| Totals.SumSpans | main.py:552-555 | the interval loop adds each interval's length |
| Totals.TotalIgnoresTotalColumn | main.py:535 | the row total does not read the total column |
| Totals.RoundHalfEven | main.py:563 | `round` gives the nearest integer, ties to even |
| Totals.RoundHundredths | main.py:563 | `round(total, 2)` is within 0.005 of the total |
| Totals.RoundHundredthsExact | main.py:563 | a value already in hundredths is kept |
| Totals.CentsText | main.py:563 | the fractional digits read back as the cents |
| Totals.FormatTotalRoundTrip | main.py:561-567 | the total text parses back, also after `replace(",", ".")`, to the rounded total |
| Totals.FormatTotalValue | main.py:563 | the digits of the total text have the rounded value |
| Totals.ReadTotal | main.py:276-280 | the analysis reads the total column as its number, or 0 when it does not parse |
| Totals.FormatTotalNoComma | main.py:278 | a written total holds no comma |
| Totals.PaidLeaveExample | main.py:543-567 | a 35h contract with `7-12`, `7-12`, `CP` totals 95/6, written `15.83` |
| History.Record | main.py:394-396 | after a record the text tops the history, which grew by at most one entry and kept its earlier entries; redo is kept or emptied |
| History.RecordIdempotent | main.py:394-396 | recording the same text twice records it once |
| History.RecordAppendsIffNew | main.py:394-396 | the history grows exactly when it was empty or its top differed; a growth clears redo; otherwise nothing changes |
| History.Undo | main.py:444-447 | undo drops the top of the history onto the redo stack |
| History.Redo | main.py:466-468 | redo moves the last undone text back on top of the history |
| History.Clear | main.py:415-428 | after a clear the history (at least two entries) ends with `""`, and redo is empty |
| History.RedoUndoes | main.py:444-468 | redo after undo restores both stacks exactly |
| History.UndoRedoes | main.py:444-468 | undo after redo restores both stacks, when the history was not empty |
| History.UndoKeepsFirst | main.py:444 | undo never removes the first text of the history |
| History.UndoAfterClear | main.py:415-447 | undo after a clear brings back the text the cell held |
| Grid.InitialisedStarted | main.py:371-381 | after `init_historique` every cell has a history |
| Grid.InitialisedSynced | main.py:371-381 | after `init_historique` every cell shows the top of its history |
| Grid.StepCell | main.py:443-472 | undo, redo or clear of one cell keeps the table's shape |
| Grid.RefreshTotal | main.py:561-567 | the recorded total write keeps the table's shape |
| Grid.UndoRedoSelection | main.py:436-477 | undo or redo over the selection keeps the table's shape |
| Grid.ClearSelection | main.py:400-434 | the clear over the selection keeps the table's shape |
| Grid.StepCellAt | main.py:440-472 | undo, redo or clear of one cell changes it as the stacks say |
| Grid.StepCellOther | main.py:440-472 | undo, redo or clear of one cell leaves every other cell alone |
| Grid.RefreshTotalAt | main.py:561-567 | after `calculer_total_ligne` the row shows its total; only that total cell changed |
| Grid.RefreshTotalFrame | main.py:561-567 | the refresh leaves every other cell alone, for any total rule |
| Grid.RosterTotalIgnoresTotalColumn | main.py:535 | the window's total rule does not read the total column |
| Grid.TotalTextIsPlain | main.py:569-614 | a total text has no dash and no space, so the re-entered handler leaves it as it is |
| Grid.ClearSelectionMeaning | main.py:400-432 | each selected cell outside column 8 ends `""` with the clear's stacks; each selected row's total is current; the other cells are unchanged |
| Grid.StepRowsFrame | main.py:436-477 | undo or redo changes the selected cells as their stacks say and leaves the others alone |
| Grid.StepRowsCurrent | main.py:453-475 | every row of the selection ends with its total current |
| Grid.RefreshRowsCurrent | main.py:431-432 | every refreshed row ends with its total current |
| Grid.UndoThenRedo | main.py:436-477 | redo after undo restores a selected cell's stacks, and the cell shows its history's top |
| Grid.RedoThenUndo | main.py:436-477 | undo after redo restores a selected cell's stacks |
| Grid.ClearThenUndo | main.py:400-456 | undo after a clear brings back each selected day cell's text |
| Grid.CellAfterSynced | main.py:436-477 | undo, redo and clear keep a cell showing its history's top |
| Grid.StepCellSynced | main.py:436-477 | so does undo, redo or clear of one cell within the whole table |
| Grid.RefreshTotalSynced | main.py:561-567 | a recorded total write keeps the table in step with its histories |
| Grid.BulkOpsKeepSynced | main.py:400-477 | clear, undo and redo of a selection keep every cell showing its history's top |
| Editing.EditFormats | main.py:569-614 | typing a day text without `-`: the cell shows the formatted text, which tops its history, the total is current, and nothing else changes |
| Editing.HandleChange | main.py:569-614 | the cell handler keeps the table's shape |
| Editing.Edit | main.py:569-614 | a typed text followed by the handler keeps the table's shape |
| Editing.KeyPress | main.py:383-398 | a key press keeps the table's shape |
| Editing.UpdateHistoryAndTotal | main.py:698-712 | `mettre_a_jour_historique_et_total` keeps the table's shape |
| Editing.EditWithDash | main.py:581-583 | typing a text with `-`: the cell keeps it, its history is unchanged, nothing else changes |
| Editing.EditName | main.py:573-575 | typing a name: the cell keeps it, its history is unchanged, nothing else changes |
| Editing.EditSameText | main.py:569 | re-entering a cell's own text changes nothing (Qt signals only a change) |
| Editing.EditSynced | main.py:569-614 | an edit without `-` keeps the table in step; a new text with `-` leaves its cell out of step |
| Editing.KeyPressSynced | main.py:383-398 | after a key press the current cell shows its history's top, and a table in step stays in step |
| Editing.UpdateHistoryRecordsStripped | main.py:698-712 | the cell keeps its text, its stripped text is recorded, and it is in step iff it had no edge whitespace |
| Clipboard.RowTexts | main.py:724-728 | a copied row holds the selected cells of that row, left to right |
| Clipboard.RectTexts | main.py:724-729 | the copied rows are the selected rows, top to bottom |
| Clipboard.ClipboardRows | main.py:735-745 | the clipboard reads as at least one line of at least one cell |
| Clipboard.CopyLinesJoin | main.py:724-729 | the copy loop produces the rows' tab-joined lines, each followed by a newline |
| Clipboard.StripFinalNewline | main.py:731 | the final `strip()` drops only the last newline when the text has no edge whitespace |
| Clipboard.CopyTextLines | main.py:716-731 | for a clean selection the clipboard text is the newline-join of the lines, and is already stripped; a clean selection has no tab, newline or edge whitespace in any cell, and its first and last cells are not empty (inner cells may be) |
| Clipboard.CopyReadsBack | main.py:716-745 | for a clean selection, empty inner cells included, reading the copied text back gives the selected texts |
| Clipboard.CopyDropsLeadingEmptyCell | main.py:731 | the strip drops a leading empty cell: `["", x]` reads back as `[x]` |
| Clipboard.PasteCellAt | main.py:750-768 | a pasted cell shows the stripped text, recorded once; no other cell changes except the row's total cell |
| Clipboard.Paste | main.py:733-768 | paste keeps the table's shape |
| Clipboard.PasteRowAt | main.py:744-768 | a pasted line sets each of its in-grid cells and leaves the other cells alone |
| Clipboard.PasteMeaning | main.py:733-768 | each clipboard cell lands from the selection's top-left corner, stripped and recorded; parts beyond the grid are dropped; other cells are unchanged |
| Clipboard.PasteTotals | main.py:768 | every row that received a cell ends with its total current |
| Clipboard.PasteCellTotalStep | main.py:764-768 | after one pasted cell the row's total cell keeps its view, or its history is extended by the texts written to it (the pasted text when the cell is the total cell, then the recorded total) and its redo stack emptied; other rows' total cells are untouched |
| Clipboard.PasteRecordsTotals | main.py:733-768 | in a table in step, each total cell ends in step with its history; it keeps its view or its history is extended by the texts written to it (any pasted text, then the recorded total or totals), its redo stack emptied; a row that received no cell keeps its total cell |
| Clipboard.PasteCutSynced | main.py:733-773 | paste and cut keep every cell, the total column included, in step with its history |
| Clipboard.PastedOver | main.py:756-762 | a text without tab, newline or edge whitespace (possibly empty) pasted over itself, in step with its history, changes neither the cell nor its stacks |
| Clipboard.PasteOwnTexts | main.py:733-768 | pasting a clean selection's own texts onto it leaves each of its day cells and their stacks as they were |
| Clipboard.CopyPasteSamePlace | main.py:716-768 | copy then paste onto the same clean selection leaves each of its day cells and their stacks as they were |
| Planning.Window.constructor | main.py:371-381 | a window over the table and roster, each cell's history holding its text |
| Planning.Window.InitHistory | main.py:371-381 | `init_historique` sets every history to the cell's text and every redo stack to empty |
| Planning.Window.RecordText | main.py:394-396 | the recording rule applied to the history fields |
| Planning.Window.RefreshRowTotal | main.py:511-567 | the row's total written to column 8, and recorded on re-entry |
| Planning.Window.OnCellChanged | main.py:569-614 | the cell handler as specified by `Editing.HandleChange` |
| Planning.Window.CommitText | main.py:569-614 | a typed text followed by the handler, as `Editing.Edit` |
| Planning.Window.UpdateHistoryAndTotal | main.py:698-712 | `mettre_a_jour_historique_et_total` as specified |
| Planning.Window.StepOne | main.py:443-472 | one cell's undo, redo or clear on the fields |
| Planning.Window.UndoRedo | main.py:436-477 | the nested undo or redo loops, each row's total refreshed after its cells |
| Planning.Window.Clear | main.py:400-434 | the clear loops, then one refresh per touched row |
| Planning.Window.KeyPress | main.py:383-398 | Delete/Backspace clear, then the current cell is recorded |
| Planning.Window.Copy | main.py:716-731 | the copy loops produce the specified clipboard text; `None` without a selection |
| Planning.Window.Paste | main.py:733-768 | the paste loops, as specified by `Clipboard.Paste` |
| Planning.Window.Cut | main.py:770-773 | copy, then clear |
| Planning.Window.SavePlanning | main.py:1082-1093 | the saved entries of the table |
| Planning.Window.LoadPlanning | main.py:909-932 | the table becomes the loaded table, and the histories are untouched |
| Planning.Window.ClearDayCells | main.py:909-912 | every day cell emptied; names and totals kept |
| Planning.Window.NameRows | main.py:917-922 | the name-to-row dictionary |
| Planning.Window.FillFromRecords | main.py:925-932 | each entry applied in order |
| Analysis.Trunc | main.py:357 | `int(h)` truncates toward zero |
| Analysis.Round2 | main.py:350 | `round(h, 2)` is within 0.005 of `h` |
| Analysis.Round2Quarters | main.py:350-353 | a quarter-hour value is kept by `round(·, 2)` |
| Analysis.GenerateHours | main.py:346-354 | the `while` loop returns the generated hours |
| Analysis.WholeHoursMembers | main.py:349-351 | the reference list `s, s+1, …, n-1` holds exactly the whole numbers in `[s, n)`, in order |
| Analysis.HourStepsWhole | main.py:349-351 | from a whole start to `n + 0.25`, the loop appends the whole hours from `s` to `n-1` |
| Analysis.GeneratedWhole | main.py:346-354 | `generate_hours(s, n + 0.25)` is the whole hours from `s` to `n-1`, then `n + 0.25` |
| Analysis.DayBucketsAre | main.py:259-263 | the buckets are 7..20 and 21.25 on weekdays, 8..12 and 13.25 on Sunday |
| Analysis.DayBucketsAscending | main.py:259-263 | each day's buckets rise strictly, so `sorted` keeps their order |
| Analysis.Zeroes | main.py:260 | every bucket starts at 0 |
| Analysis.WalkPointsRange | main.py:301-305 | the walk visits only points in `[debut, fin)` |
| Analysis.WalkCounts | main.py:301-305 | each bucket gains one per visit, and no bucket is added |
| Analysis.WholeWalkPoints | main.py:301-305 | from a whole start with end ≤ 21 the walk visits exactly the whole hours in `[s, fin)` |
| Analysis.AddPresenceCounts | main.py:296-305 | a shift adds one to each bucket it visits; a shift with start == end, or a reversed one, adds nothing |
| Analysis.WholeShiftCounts | main.py:296-305 | a shift with whole start `s` and end ≤ 21 adds exactly one to each whole bucket in `[s, fin)` |
| Analysis.WalkShift | main.py:296-305 | the walk loop computes that presence |
| Understaffing.MaxOf | main.py:332 | `max(heures)` is a bucket and bounds all buckets |
| Understaffing.MaxOfAscending | main.py:328-332 | for rising buckets the maximum is the last one |
| Understaffing.ScanStepInv | main.py:328-336 | one step of the scan keeps its invariant |
| Understaffing.ScanUpToInv | main.py:326-336 | the invariant holds after every prefix of the buckets |
| Understaffing.OpenBeforeNextBucket | main.py:330-331 | an open period started before the next bucket |
| Understaffing.TrailingCheckIdle | main.py:337-340 | the trailing check never adds a period |
| Understaffing.WindowsMeaning | main.py:326-340 | each period runs from an understaffed bucket to a staffed bucket or the last one, with start < end; periods rise and do not touch; every bucket inside is understaffed; every understaffed bucket before the last lies in a period |
| Understaffing.ScanDay | main.py:326-340 | the scan loop returns those periods |
| Findings.AnyOverlap | main.py:292 | the `any(...)` over pairs is true iff two shifts of the cell overlap |
| Findings.ContractHours | main.py:308-316 | only `33h`, `35h`, `39h` and `ALTERNANT` have contract hours, 33, 35, 39 and 35 |
| Findings.ContractHoursBaseline | main.py:307-316 | the compared hours equal the total's baseline except for students (baseline 35, no comparison) |
| Findings.DeviationFindings | main.py:307-323 | one deviation exactly when a compared contract's total differs; surplus iff above; the amount is the absolute difference |
| Findings.CellShifts | main.py:284-289 | a blank cell has no shifts |
| Findings.ShiftsOfCells | main.py:283-289 | each day's shifts are those of its cell |
| Findings.ReadRow | main.py:265-289 | a row reads as seven days |
| Findings.ReadRows | main.py:265-289 | each row of the table is read on its own |
| Findings.ReadRowMeaning | main.py:265-289 | a row's name is its stripped name cell, its days its cells' shifts, its total the read-back total |
| Findings.AddShiftsCounts | main.py:296-305 | each bucket gains its number of visits over the cell's shifts |
| Findings.ScanDaysOverlaps | main.py:283-293 | the row's overlap findings are exactly one per day whose shifts overlap |
| Findings.ScanDaysPresence | main.py:283-305 | the days scanned so far gain their shifts' visits; the others are unchanged |
| Findings.RowFindingsOf | main.py:265-323 | a row's findings are its overlaps, then its deviation |
| Findings.RowsPresence | main.py:265-305 | each bucket counts the visits of all rows read so far |
| Findings.RowsNoUnderstaffing | main.py:265-323 | the row loop reports no understaffing |
| Findings.RowsOverlaps | main.py:283-293 | an overlap finding is listed iff some row read so far overlaps on that day |
| Findings.RowsDeviations | main.py:307-323 | a deviation is listed iff it is the deviation of some row read so far |
| Findings.StaffFindingsMeaning | main.py:326-340 | an understaffing finding is listed iff its period is one of that day's periods |
| Findings.AnalyseMeaning | main.py:253-340 | each kind of finding appears iff the grid shows it: overlaps by row and day, deviations by row, understaffing by the final presence |
| Findings.AnalysePlanning | main.py:253-340 | the analysis loops return the specified findings |
| Findings.InitialCounters | main.py:259-263 | the loops start from zero presence on each day's buckets |
| Findings.AnalyseRow | main.py:265-323 | one row of the loop, as specified |
| Findings.AnalyseCell | main.py:283-305 | one day cell of the loop, as specified |
| Findings.AddShiftsLoop | main.py:296-305 | the loop over a cell's shifts, as specified |
| Findings.ReportUnderstaffing | main.py:326-340 | the day loop appends every day's periods, in day order |
| Findings.ReportWindows | main.py:333-336 | each period of a day becomes one finding, in order |
| Messages.DayName | main.py:255 | the day's French name, a single line |
| Messages.PaddedDigits | main.py:359 | `{n:02d}` is at least two digits with the value `n`, exactly two below 100 |
| Messages.HourTextQuarters | main.py:356-359 | `h_float_to_str(n + q/4)` is `{n:02d}h{15q:02d}` |
| Messages.HourTextMeaning | main.py:356-359 | for `n < 100` the text is five characters `HHhMM`, reading back as `n + q/4` |
| Messages.Fixed2Parses | main.py:322 | the `.2f` amount parses back within 0.005, exactly for hundredths |
| Messages.Messages | main.py:290-340 | one message per finding, in order |
| Messages.MessageBullet | main.py:293 | each message starts with `• ` |
| Messages.MessageOneLine | main.py:293-339 | a message holds no newline for names without one |
| Messages.ReportLines | main.py:343-344 | the report text splits on newlines back into the messages; without findings it is the "no error" text |
| Messages.ReportEmpty | main.py:343-344 | the report is the "no error" text iff there is no finding |
| Messages.AnalysisPrintable | main.py:253-340 | every finding of the analysis can be printed |
| Messages.AnalysisReport | main.py:253-344 | the shown text is the "no error" text iff the analysis found nothing |
| Snapshot.DayNamesDistinct | main.py:1080 | the seven day names are distinct |
| Snapshot.DaysMapMeaning | main.py:1086-1089 | the saved days map holds each day name with its cell's text |
| Snapshot.SavedDays | main.py:1082-1093 | reading a saved day back gives the cell's text |
| Snapshot.NameKeyStrip | main.py:917-926 | matching by name ignores surrounding whitespace |
| Snapshot.Cleared | main.py:909-912 | clearing the day cells keeps the table's shape |
| Snapshot.NameIndex | main.py:917-922 | every name points to a row of the table |
| Snapshot.ApplyRecords | main.py:925-932 | applying entries keeps the table's shape |
| Snapshot.NameIndexKnows | main.py:917-922 | every row's stripped, lower-cased name is in the dictionary |
| Snapshot.NameIndexLast | main.py:917-922 | each name points to the last row that has it |
| Snapshot.NameIndexOfNames | main.py:917-922 | the dictionary depends only on the name column |
| Snapshot.IndexOfDistinct | main.py:917-922 | with distinct names each row's name points to that row |
| Snapshot.ApplyRecordsFrame | main.py:925-932 | applying entries keeps the shape, the names and the totals |
| Snapshot.LoadedFrame | main.py:909-932 | loading keeps the shape, the name column and the total column |
| Snapshot.LoadUnknownIgnored | main.py:925-927 | an entry whose name matches no row changes nothing |
| Snapshot.LoadLastRecordWins | main.py:918-932 | the last entry with a row's name sets its seven days, a missing day to `""` |
| Snapshot.LoadUnnamedRowEmpty | main.py:909-932 | a row named by no entry ends with empty days |
| Snapshot.SaveLoadRoundTrip | main.py:909-932 | saving a table (main.py:1082-1093) and loading it into one with the same distinct names restores every day cell |

## Left out

- Qt itself is not modelled: layouts, styles and colours (`apply_table_style`, `apply_font_to_table`), shortcuts, `eventFilter` key routing and the message box. Every cell is taken to exist, so the `if item` / `if not item` branches are not modelled.
- The calendar is left out (week selection, headers, `date.today()`): it depends on the clock and on the locale.
- File and document I/O is left out: the JSON files of `load_planning`, `save_json_planning` and `load_employees`, PDF output, e-mail and `resource_path`. A saved week is a list of entries. An entry without a name reads as the empty name, and one without a day reads that day as `""`.
- Planning.Window.LoadPlanning: each `setItem` of `load_planning` emits `cellChanged`, so the cell handler `eventListener_chgt_cellule` (connected at main.py:217) runs for every written cell, formatting the text, recording it in the history and refreshing the row total. That re-entry and its history records are not modelled: the model's load formats nothing, records nothing and refreshes no total.
- Floating point is left out: hours are exact reals. `round(x, 2)` and `.2f` are round-half-even of the exact value, and `str` of a total is its shortest two-decimal text. Binary rounding effects are not captured.
- Text.ParseFloat: accepts only an optional sign, ASCII digits `0`-`9` and an optional fraction, with surrounding whitespace. Python's `float` also reads other Unicode decimal digits (such as U+FF17 or U+0663), exponents, `inf`, `nan` and underscores between digits; the model rejects these.
- Text.Upper, Text.Lower: only `a`-`z` with U+00E0..U+00FE (except U+00F7), and `A`-`Z` with U+00C0..U+00DE (except U+00D7), change case. Python's U+00DF to "SS", U+00FF to U+0178 and U+00B5 to U+039C, and the other scripts (some mapped to two characters), are not modelled. So the model's case maps keep the length where Python's may not.
- Analysis.DayBucketsAscending: `sorted(heures)` is taken as the generated bucket order, which the lemma shows is already ascending.
- The `isinstance(self.historique[...], list)` else-branch (main.py:610-612) is not modelled: every history is a list from `init_historique` on.
- Roster reloading, `update_employes_column` and notifications are left out. The roster is a fixed parameter of the window.
- gestion_employes.py, envoi_mails.py, selection_mails.py and test.py are not part of this model: they hold the roster dialog, mail sending, a mail selection dialog and an image script.
