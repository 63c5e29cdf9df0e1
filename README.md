# libsmartcols table printing, modelled in Dafny

This project models how libsmartcols prints a table
(`libsmartcols/src/table_print.c`). Printing happens in three stages:

- **Widths.** `count_column_width` measures a column over all lines. It keeps:
  - the widest row (`width_max`);
  - a working width that skips the outlier rows of an "extreme" column;
  - the average width, computed the first time only;
  - the header width (`width_min`);
  - a size hint.

  `recount_widths` then fits the columns into the terminal's width, in four phases:
  1. count every column;
  2. recount the extreme columns when the table is too wide;
  3. grow into any slack: the extreme columns first, then every column
     round robin (maximize) or only the last column;
  4. shrink one cell per column per sweep, first the truncatable columns and
     then all shrinkable ones, until the table fits or a sweep takes nothing.
- **Text.** `line_get_data` gives the text a line shows in a column. In the tree
  column that is the ancestry prefix built by `line_get_ascii_art`, then a
  branch glyph, then the cell. Everything is cut to the scratch buffer.
- **Output.** `print_data` writes one cell: raw, `NAME="value"` (export), or
  formatted. Formatted output covers colour, truncation, right alignment,
  padding, separators, and the re-indent after an overflowing value.

  `print_line` and `print_header` write rows. `print_table` writes the lines in
  table order. `print_tree` and `print_tree_line` write each root's subtree,
  parent before children.

  `scols_print_table` puts it together. It sets the default symbols, works out
  the target width and measures the buffer with `strlen_line`. It then either
  fails with `-ENOMEM`, or negotiates the widths (not in raw or export mode),
  prints, and returns 0.

The files, in dependency order:

- `wrappers.dfy`: the Option type used for the C code's nullable pointers.
- `mbs.dfy`: the mbsalign routines and `SIZE_MAX`. The routines are supplied
  as a record of functions.
- `model.dfy`: cells, lines, symbols, column attributes and width fields.
  - Lines live in an index arena: each line has a parent index and an ordered
    list of child indices.
  - Flags.
  - The ancestry `Path` of a line.
- `tree_art.dfy`: `line_get_ascii_art` and `line_get_data`, on values.
- `setup.dfy`: the target width, `strlen_line` and the buffer size.
- `width_calc.dfy`: `count_column_width` as a function of a column's fields
  before the scan.
- `negotiate.dfy`: `recount_widths` as a sequence of functions on the
  column widths, carrying the running total and the extreme counter as the
  C code does. The growth step of the extreme columns (line 437) is the
  corrected one of the first finding below; `GrowExtremesAsWritten` is the
  step as written, and `GrowAsWrittenAgrees` shows the two agree unless an
  extreme column is already wider than its widest row.
- `traversal.dfy`: the order in which lines are visited, in flat mode and in
  tree mode.
- `render.dfy`: what is written, as a sequence of tokens. Every fputs, every
  padding blank and every colour escape is one token.
- `table.dfy`: the imperative model.
  - `Column` is a class with the five width fields.
  - `Stream` is a class holding the tokens written so far.
  - `Table` is a class with the terminal fields (`symbols`, `isTerm`,
    `termwidth`).
  - Each C function is a method that follows its loops. Each is proved to
    leave exactly the state the value-level functions describe. Like those
    functions, `GrowColumn` runs the corrected growth step, and
    `Table.Table.Print` the corrected ascii art test (see "## Findings").

The model follows the code. The two places where the code is evidently
wrong are listed under "## Findings": each is modelled as written, and the
rest of the model uses the corrected version.

Three behaviours of the code worth knowing:

- **Extreme columns.** During the extreme pass, a column that did not shrink
  only decrements the extreme counter. It keeps its extreme flag, so the
  growth phase still grows it.
- **Target width.** The target width is not clamped to 1. A margin larger than
  the width wraps around in size_t (`Setup.TermWidthWraps`).
- **Broken values.** A value whose width is 0 or broken is not written at all.

## Model

| member | source | states |
|---|---|---|
| Model.Path | libsmartcols/src/table_print.c:145-148 | The ancestry of a line: it starts at a root, each entry is the parent of the next, it ends with the line itself, and every entry is a line of the table. |
| TreeArt.Prefix | libsmartcols/src/table_print.c:189-190 | strncpy followed by a terminator at the last byte. The result has at most n bytes and is a prefix of the input. It is the whole input when that fits. |
| TreeArt.AsciiArt | libsmartcols/src/table_print.c:136-164 | Corrected ancestry prefix. Bytes written plus room left equal the room given. At least one byte is always left for the terminator. |
| TreeArt.AsciiArtAsWritten | libsmartcols/src/table_print.c:158-159 | The same, with the `*bufsz < len` test as written. Bytes written plus room left still equal the room given. |
| TreeArt.AsciiArtIsPathSegments | libsmartcols/src/table_print.c:136-164 | The prefix is the segments of the ancestors below the root: two blanks under a last child, the vertical glyph otherwise. It is produced exactly when every segment leaves room for the terminator. |
| TreeArt.AsciiArtAgrees | libsmartcols/src/table_print.c:136-164 | The corrected ascii art is the as-written one, except that where the C code fills the buffer to its last byte the corrected one reports that the art does not fit. |
| TreeArt.AsciiArtAsWrittenLeavesNoTerminator | libsmartcols/src/table_print.c:158-159 | A two-level tree with a 2-byte buffer: as written, the art fills the buffer and leaves 0 bytes. The corrected version refuses. |
| TreeArt.SegsSnoc | libsmartcols/src/table_print.c:148-163 | The recursion first adds the parent's segments, then its own; extending the path by one line appends that line's segment. |
| TreeArt.LineData | libsmartcols/src/table_print.c:166-213 | The text always fits the buffer with its terminator. A missing cell or text gives NULL. |
| TreeArt.TreeLineData | libsmartcols/src/table_print.c:194-212 | tree column: a root shows its text cut to the buffer; another line shows nothing exactly when its ancestry art does not fit, and otherwise its tree text (segments, connector, data) cut to the buffer |
| TreeArt.TreeLineDataFits | libsmartcols/src/table_print.c:194-212 | With a buffer longer than the tree text, the whole tree text is shown. |
| Setup.TermWidth | libsmartcols/src/table_print.c:567-571 | The target is the queried width on a terminal, or 80 when off a terminal or when the query gives 0, less termreduce. It is taken modulo 2^64, so it is exactly the difference when the margin fits. |
| Setup.TermWidthWraps | libsmartcols/src/table_print.c:571 | A margin of 81 off a terminal gives the target SIZE_MAX. |
| Setup.CellWithinLine | libsmartcols/src/table_print.c:529-543 | strlen_line counts every cell's bytes, so no cell has more bytes than its line. |
| Setup.LongestLineBounds | libsmartcols/src/table_print.c:573-580 | The buffer size before the NUL byte is at least the target width and at least every line's byte length. |
| Setup.NonTreeDataUncut | libsmartcols/src/table_print.c:188-191 | With scols_print_table's buffer, a cell outside the tree column is never cut, so its text is exactly the cell's. |
| WidthCalc.RowWidths | libsmartcols/src/table_print.c:333-338 | One measured width per line, in table order. NULL text and broken widths count as 0. |
| WidthCalc.ScanMeaning | libsmartcols/src/table_print.c:332-350 | The combined result of the scan below. |
| WidthCalc.ScanKept | libsmartcols/src/table_print.c:342-349 | The scan's working width is the maximum over the rows that are not outliers. For a no-extremes column, its sum and count are theirs. |
| WidthCalc.ScanKeptWidth | libsmartcols/src/table_print.c:348-349 | The working width is the maximum of the kept rows. |
| WidthCalc.ScanKeptSums | libsmartcols/src/table_print.c:344-347 | Sum and count are those of the kept rows for a no-extremes column, and 0 otherwise. |
| WidthCalc.ScanMaxGrows | libsmartcols/src/table_print.c:339-340 | width_max never decreases and bounds every row. |
| WidthCalc.ScanMaxAttained | libsmartcols/src/table_print.c:339-340 | width_max is either its old value or some row's width. |
| WidthCalc.KeptSnoc | libsmartcols/src/table_print.c:342-343 | A row is kept exactly when it is not more than twice the cached average of an extreme column. |
| WidthCalc.Floor | libsmartcols/src/table_print.c:363-371 | The width never shrinks. It is at least width_min unless the column is strict-width. It takes width_min, or else the hint when both are below the hint, or stays. |
| WidthCalc.CountWidth | libsmartcols/src/table_print.c:317-372 | The full count_column_width contract, in the list below this table. |
| WidthCalc.CountWidthMeaning | libsmartcols/src/table_print.c:317-372 | The width is the floor of the maximum over the kept rows. The first time, the average is the mean of the kept rows, and the column becomes extreme exactly when width_max exceeds twice that mean. Otherwise the average and the flag are unchanged. |
| WidthCalc.KeptAreNotOutliers | libsmartcols/src/table_print.c:342-347 | Every kept row is a non-outlier. If an extreme column's average is 0, every kept row is 0. |
| WidthCalc.KeptMaxMonotone | libsmartcols/src/table_print.c:342-349 | Excluding more outliers never gives a larger working width. |
| WidthCalc.CountWidthIdempotent | libsmartcols/src/table_print.c:352-357 | Once the average and the flag have settled, counting again changes nothing. |
| WidthCalc.OutliersPersist | libsmartcols/src/table_print.c:342-357 | A row that is an outlier before a count is still one after it. |
| WidthCalc.SecondPassNoWider | libsmartcols/src/table_print.c:404-411 | The second count of an extreme column never makes it wider and keeps its width_min. |
| WidthCalc.FloorMonotone | libsmartcols/src/table_print.c:363-371 | The floor step is monotone in the scanned width. |
| Negotiate.TotalUpdate | libsmartcols/src/table_print.c:390 | Changing one column's width changes the output width (widths plus separators) by the difference. |
| Negotiate.Initial | libsmartcols/src/table_print.c:387-392 | Phase 1 counts every column once and keeps the column count. |
| Negotiate.InitialUpTo | libsmartcols/src/table_print.c:387-392 | Phase 1 done on a prefix of the columns. |
| Negotiate.InitialUpToStep | libsmartcols/src/table_print.c:388-389 | Counting the next column extends phase 1 by that column. |
| Negotiate.InitialUpToAll | libsmartcols/src/table_print.c:387-392 | Done on no columns, phase 1 changes nothing; done on all of them, it is the whole phase. |
| Negotiate.SumsSnoc | libsmartcols/src/table_print.c:390-391 | The running width and extreme counter gain the column's width and flag. |
| Negotiate.Reduce | libsmartcols/src/table_print.c:399-415 | Phase 2; its own contract only keeps the column count. What it does is stated by ReduceShape and ReduceTotal. |
| Negotiate.ReduceStep | libsmartcols/src/table_print.c:404-413 | Recounting an extreme column replaces exactly that column with its recount. |
| Negotiate.ReduceShape | libsmartcols/src/table_print.c:399-415 | Phase 2 recounts exactly the extreme columns and leaves the others unchanged. |
| Negotiate.ReduceStepTotal | libsmartcols/src/table_print.c:407-413 | Because a recount never widens, `width -= org - new` keeps the output width equal to the widths plus separators. |
| Negotiate.ReduceTotal | libsmartcols/src/table_print.c:399-415 | After phase 2, the running width still equals the widths plus separators. |
| Negotiate.GrowExtremes | libsmartcols/src/table_print.c:420-445 | Corrected growth of the extreme columns. The output width never passes the target. |
| Negotiate.GrowStep | libsmartcols/src/table_print.c:435-440 | Corrected growth step. The output width only grows and stays within the target. |
| Negotiate.SizeWrapLandsOnMax | libsmartcols/src/table_print.c:437-439 | In size_t, `w + (wm - w)` is wm also when wm < w. |
| Negotiate.GrowStepAsWrittenShrinksBelowMin | libsmartcols/src/table_print.c:435-439 | An extreme column: width 4, width_min 4, width_max 1, slack 10. As written, the growth step sets its width to 1, below width_min. The corrected step leaves it at 4. |
| Negotiate.GrowAsWrittenFromInitial | libsmartcols/src/table_print.c:385-445 | On a first print, a no-extremes column "NAME" with rows of widths 0, 0, 1 beside a column "X" of width 1, on an 80-cell terminal: phase 1 counts the first column to width 4, width_max 1, average 0 and extreme, with a total of 6. The extreme pass as written then leaves it at width 1; the corrected one keeps 4. |
| Negotiate.GrowExtremesAsWritten | libsmartcols/src/table_print.c:431-445 | The extreme pass with the growth step as written. It keeps the column count and never passes the target. |
| Negotiate.GrowAsWrittenAgrees | libsmartcols/src/table_print.c:431-445 | The as-written and the corrected extreme pass leave the same widths and total whenever no extreme column still to be visited is wider than its widest row. |
| Negotiate.GrownExtremesStep | libsmartcols/src/table_print.c:423-444 | A column grown within its widest row, followed by growth of the later columns, is growth from this column on. |
| Negotiate.GrowExtremesMeaning | libsmartcols/src/table_print.c:420-445 | Only widths change, and they only grow. Columns that are not extreme keep their width. A grown column stays within its widest row. The total stays consistent and within the target. |
| Negotiate.RoundRobin | libsmartcols/src/table_print.c:447-457 | The maximize loop ends with the output width exactly at the target. |
| Negotiate.RoundRobinShares | libsmartcols/src/table_print.c:449-457 | The slack is shared out evenly: if the slack is k*n + rest, every column gains k and the first rest columns gain one more. |
| Negotiate.RoundRobinMeaning | libsmartcols/src/table_print.c:449-457 | Only widths change, and they only grow. The total stays consistent. |
| Negotiate.GrowLastMeaning | libsmartcols/src/table_print.c:458-467 | The last column gains exactly the slack unless it is right aligned, so the output then reaches the target. No other column changes. |
| Negotiate.ExpandMeaning | libsmartcols/src/table_print.c:417-468 | Phase 3 widens only, keeps the total consistent and within the target, and with maximize fills the target exactly. |
| Negotiate.SweepFrom | libsmartcols/src/table_print.c:478-504 | A sweep never increases the output width. If the width did not drop, the widths are unchanged. |
| Negotiate.Shrink | libsmartcols/src/table_print.c:474-511 | Phase 4 never increases the output width. |
| Negotiate.SweepMeaning | libsmartcols/src/table_print.c:478-504 | A sweep takes at most one cell from a column, and only from one it does not skip (tree, absolute hint without trunc, trunc-only pass, at width_min). The total stays consistent and does not drop below the target. |
| Negotiate.SweptStep | libsmartcols/src/table_print.c:491-502 | Taking a cell from a column that is not skipped, then sweeping the later columns, is a sweep from this column. |
| Negotiate.ShrinkMeaning | libsmartcols/src/table_print.c:474-511 | The full phase 4 contract, in the list below this table. |
| Negotiate.SweepTruncOnly | libsmartcols/src/table_print.c:486-487 | The first, trunc-only pass never touches a column that may not be truncated. |
| Negotiate.NegotiatedWidths | libsmartcols/src/table_print.c:377-528 | recount_widths keeps the column count. Off a terminal it is phase 1 only. |
| Negotiate.CountedAtLeastMin | libsmartcols/src/table_print.c:385-415 | After phases 1 and 2, every column that is not strict-width is at least its header width, whatever the other columns are. |
| Negotiate.BeforeShrink | libsmartcols/src/table_print.c:385-468 | Before phase 4 the total is consistent, maximize has reached the target, and every column that is not strict-width is at least its header width. |
| Negotiate.NegotiateMeaning | libsmartcols/src/table_print.c:377-528 | On a terminal the table fits the target, unless a sweep over every column can take nothing more. With maximize it fills the target or more. No column that is not strict-width ends narrower than its header, whatever the other columns are. |
| Render.ResolveColor | libsmartcols/src/table_print.c:67-74 | No colour is used unless colours are wanted. |
| Render.ResolveColorPrecedence | libsmartcols/src/table_print.c:67-74 | The colour is the first one set among the cell's, the line's and the column's. |
| Render.Encode | libsmartcols/src/table_print.c:76-85 | Encoding yields a value exactly when its width is not 0; failure and a broken width give no value. |
| Render.Truncate | libsmartcols/src/table_print.c:91-99 | A failed truncation prints nothing and pads from 0 to the fill width. |
| Render.FillWidth | libsmartcols/src/table_print.c:86-89 | The fill width never exceeds the column's width. |
| Render.RawAndExportShape | libsmartcols/src/table_print.c:50-65 | Raw mode writes the value; export mode writes `NAME=` and the quoted value. In both, a separator follows unless the column is the last. |
| Render.LaidBodyShape | libsmartcols/src/table_print.c:100-118 | The value part of a cell holds no padding, separator or newline, and only the fitted value at its width. |
| Render.LastFitCovers | libsmartcols/src/table_print.c:86-99 | In the last column without maximize, the fill width never exceeds the printed length. Requires sound mbs routines where truncation succeeds. |
| Render.LastColumnUnpadded | libsmartcols/src/table_print.c:86-131 | In formatted mode, with sound mbs routines whose truncation succeeds, the last column of a table without maximize is written with no padding, no separator and no newline. A failed truncation pads the whole width, as the code does. |
| Render.LastLayoutIsBody | libsmartcols/src/table_print.c:119-122 | When the last column's value covers its fill width, the cell is the value alone. |
| Render.LaidValues | libsmartcols/src/table_print.c:100-131 | The only value a formatted cell holds is the fitted one, at its width in cells. |
| Render.TruncatedWithinWidth | libsmartcols/src/table_print.c:91-117 | A truncatable column never writes a value wider than its width, given sound mbs routines. |
| Render.FittingCellFillsColumn | libsmartcols/src/table_print.c:86-131 | A value that fits a left-aligned column other than the last occupies exactly the column's width and is followed by exactly one separator. |
| Render.LaidBodyOccupied | libsmartcols/src/table_print.c:111-117 | A left-aligned value covers its width in cells, or nothing when there is no value. |
| Render.OverflowReindents | libsmartcols/src/table_print.c:122-128 | A value too wide for a column that is not truncatable and not last is written whole. It is followed by a newline and one filler under every column up to and including its own. |
| Render.CellOutputs | libsmartcols/src/table_print.c:228-231 | The column loop; its own contract gives one output per column. What each output is is stated by CellOutputsAt. |
| Render.CellOutputsAt | libsmartcols/src/table_print.c:228-231 | The output of column c is print_data on column c with the row's colour, the cell and the value. |
| Render.RowCellsFlat | libsmartcols/src/table_print.c:228-231 | A row is the column outputs, one after the other. |
| Render.LineRow | libsmartcols/src/table_print.c:228-231 | print_line supplies one cell and one value per column. |
| Render.RawCellCounts | libsmartcols/src/table_print.c:50-65 | In raw and export mode a cell holds no newline. It holds one separator unless it is the last column. |
| Render.RawRowSeparators | libsmartcols/src/table_print.c:228-231 | In raw and export mode, the first n cells of a row hold no newline and n separators, or n - 1 when they reach the last column. |
| Render.RawLineCounts | libsmartcols/src/table_print.c:219-233 | In raw and export mode a line holds exactly one newline and one separator fewer than there are columns. |
| Render.LinesNewlines | libsmartcols/src/table_print.c:258-270 | In raw and export mode, k printed lines hold k newlines and k*(n-1) separators. |
| Render.HeaderRow | libsmartcols/src/table_print.c:249-254 | The header row; its own contract gives one cell and one value per column. How it is written is stated by Table.Table.PrintHeader. |
| Render.HeaderTokens | libsmartcols/src/table_print.c:235-256 | Nothing is written exactly when headings are off, in export mode, or when there are no lines. Otherwise the header ends with a newline. |
| Render.LineOutputs | libsmartcols/src/table_print.c:219-233 | The outputs of all lines; its own contract gives one per line. What each is is stated by LineOutputsAt. |
| Render.LineOutputsAt | libsmartcols/src/table_print.c:219-233 | The output of line i is print_line on line i. |
| Render.FlatOutOrder | libsmartcols/src/table_print.c:267-269 | print_table's loop writes the lines in table order. |
| Render.SubtreeOutOrder | libsmartcols/src/table_print.c:272-289 | print_tree_line writes the lines of the subtree in its traversal order. |
| Render.ForestOutOrder | libsmartcols/src/table_print.c:284-288 | The children loop writes the children's subtrees in list order. |
| Render.TreeOutOrder | libsmartcols/src/table_print.c:300-305 | print_tree's loop writes the lines in tree order. |
| Render.TreeOutRoot | libsmartcols/src/table_print.c:301-304 | A root extends both the output and the order by its subtree. |
| Traversal.FlatOrder | libsmartcols/src/table_print.c:267-269 | Flat order visits every line once, in table order. |
| Traversal.Subtree | libsmartcols/src/table_print.c:272-289 | The visiting order of print_tree_line; its own contract says it starts with its own line and visits only lines of the table. The order is stated by SubtreeParentFirst and Render.SubtreeOutOrder. |
| Traversal.Forest | libsmartcols/src/table_print.c:284-288 | The children loop; its own contract says it visits only lines of the table. The order is stated by ForestParentFirst and NoRoots. |
| Traversal.TreeOrder | libsmartcols/src/table_print.c:300-305 | Tree order; its own contract says it visits only lines of the table. The order is stated by TreeOrderParentFirst and TreeOrderRoots. |
| Traversal.SubtreeParentFirst | libsmartcols/src/table_print.c:272-289 | In a subtree every line is the subtree's root or comes after its parent. |
| Traversal.ParentFirstCons | libsmartcols/src/table_print.c:278-288 | A line followed by its descendants, each after its parent, keeps parents before children. |
| Traversal.ForestParentFirst | libsmartcols/src/table_print.c:284-288 | The children's subtrees keep parents before children. |
| Traversal.TreeOrderParentFirst | libsmartcols/src/table_print.c:291-306 | Tree mode prints every line after its parent, roots excepted. |
| Traversal.NoRoots | libsmartcols/src/table_print.c:284-288 | The children's subtrees hold no root. |
| Traversal.RootSubtreeRoots | libsmartcols/src/table_print.c:301-304 | A root's subtree holds one root, itself. |
| Traversal.TreeOrderRoots | libsmartcols/src/table_print.c:300-305 | Tree mode starts a block at exactly the table's roots, in table order. |
| Table.Table.ScanLines | libsmartcols/src/table_print.c:330-350 | The measuring loop leaves the scan's working width and maximum in the column, and returns its sum and count. The average, the flag and width_min are unchanged. |
| Table.Table.ScanRow | libsmartcols/src/table_print.c:334-349 | One iteration of the measuring loop is one scan step. |
| Table.Table.CountColumnWidth | libsmartcols/src/table_print.c:317-372 | count_column_width leaves exactly CountWidth's fields in the column. |
| Table.Table.SettleColumn | libsmartcols/src/table_print.c:352-371 | The average, the flag, width_min and the floor are set as CountWidth settles them. |
| Table.Table.CountColumn | libsmartcols/src/table_print.c:389 | Counting column i changes that column only, to its recount. |
| Table.Table.CountAll | libsmartcols/src/table_print.c:387-392 | Phase 1 leaves the initial widths and returns their output width and extreme count. |
| Table.Table.ReduceExtremes | libsmartcols/src/table_print.c:399-415 | Phase 2 leaves the state Reduce describes. |
| Table.Table.ReduceColumn | libsmartcols/src/table_print.c:404-413 | One extreme column is recounted as ReduceStep describes. |
| Table.Table.GrowExtremeColumns | libsmartcols/src/table_print.c:420-445 | The extreme columns are grown as GrowExtremes describes. |
| Table.Table.GrowColumn | libsmartcols/src/table_print.c:424-443 | One extreme column is grown as GrowStep describes. |
| Table.Table.Maximize | libsmartcols/src/table_print.c:447-457 | The maximize loop leaves RoundRobin's widths and the target width. |
| Table.Table.MaximizeRound | libsmartcols/src/table_print.c:450-456 | Each round makes progress towards the target and stays on RoundRobin's course. |
| Table.Table.GrowLastColumn | libsmartcols/src/table_print.c:458-467 | The last-column growth leaves GrowLast's state. |
| Table.Table.ShrinkStep | libsmartcols/src/table_print.c:480-502 | One column of a sweep loses one cell exactly when Shrinks holds. Otherwise nothing changes. |
| Table.Table.Sweep | libsmartcols/src/table_print.c:478-504 | One sweep leaves SweepFrom's widths and total. |
| Table.Table.ShrinkColumns | libsmartcols/src/table_print.c:474-511 | Phase 4 leaves Shrink's widths and total. |
| Table.Table.GrowColumns | libsmartcols/src/table_print.c:417-468 | Phase 3 leaves Expand's state. |
| Table.Table.RecountWidths | libsmartcols/src/table_print.c:377-528 | recount_widths leaves exactly NegotiatedWidths' widths in the columns. |
| Table.Table.PutColored | libsmartcols/src/table_print.c:103-107 | A value is written between the colour and the reset when there is a colour. |
| Table.Table.PutPads | libsmartcols/src/table_print.c:119-120 | The padding loop writes one blank for every cell from len up to the width. |
| Table.Table.PutReindent | libsmartcols/src/table_print.c:123-128 | The re-indent writes a newline and one filler per column up to and including this one. |
| Table.Table.FitValue | libsmartcols/src/table_print.c:76-99 | Encoding, fill width and truncation give Fit's result. |
| Table.Table.PutBody | libsmartcols/src/table_print.c:100-118 | The value is written right aligned or as it is, and the length the padding starts from is returned. |
| Table.Table.PutTail | libsmartcols/src/table_print.c:122-131 | After the padding comes the separator, the re-indent, or nothing in the last column. |
| Table.Table.PutLayout | libsmartcols/src/table_print.c:100-131 | The value, the padding and the tail, as Layout describes. |
| Table.Table.PrintFormatted | libsmartcols/src/table_print.c:67-131 | print_data in formatted mode writes exactly Formatted's tokens. |
| Table.Table.PrintData | libsmartcols/src/table_print.c:34-134 | print_data writes exactly DataTokens' tokens, in every mode. |
| Table.Table.PrintRowCell | libsmartcols/src/table_print.c:228-231 | One more column of the row is written. |
| Table.Table.PrintRow | libsmartcols/src/table_print.c:228-231 | The column loop writes every column's cell in order. |
| Table.Table.PrintLine | libsmartcols/src/table_print.c:219-233 | print_line writes exactly line i's output. |
| Table.Table.PrintHeader | libsmartcols/src/table_print.c:235-256 | print_header writes exactly HeaderTokens' tokens. |
| Table.Table.PrintTable | libsmartcols/src/table_print.c:258-270 | print_table writes the header and then every line in table order. |
| Table.Table.PrintLines | libsmartcols/src/table_print.c:267-269 | print_table's loop writes every line in table order. |
| Table.Table.PrintNext | libsmartcols/src/table_print.c:268-269 | One more line of print_table's loop is written. |
| Table.Table.PrintTreeLine | libsmartcols/src/table_print.c:272-289 | print_tree_line writes the line and then each child's subtree. |
| Table.Table.PrintChildren | libsmartcols/src/table_print.c:284-288 | The children loop writes each child's subtree, in list order. |
| Table.Table.PrintTree | libsmartcols/src/table_print.c:291-306 | print_tree writes the header and then every root's subtree, roots in table order. |
| Table.Table.PrintRoots | libsmartcols/src/table_print.c:300-305 | print_tree's loop writes every root's subtree. |
| Table.Table.PrintRoot | libsmartcols/src/table_print.c:301-304 | A root writes its subtree; any other line writes nothing. |
| Table.Table.PrintAll | libsmartcols/src/table_print.c:590-593 | The tree flag selects print_tree or print_table, and the result is TableTokens. |
| Table.Table.LineSizeOf | libsmartcols/src/table_print.c:573-582 | The buffer size is the longest line at or above the target width, plus one byte for the NUL. |
| Table.Table.PrintSized | libsmartcols/src/table_print.c:587-593 | Widths are negotiated unless in raw or export mode, and then the table is printed. |
| Table.Table.Print | libsmartcols/src/table_print.c:553-597 | The full scols_print_table contract, in the list below this table. |

The three longest contracts are:

- **WidthCalc.CountWidth.** Unless the column is strict-width, its width is at
  least width_min. width_min is the header width, or SIZE_MAX for a broken
  one. width_max only grows and bounds every row. The average, once set, is
  kept. The extreme flag is never cleared, and it is newly set only when
  width_max exceeds twice a fresh average.
- **Negotiate.ShrinkMeaning.** Phase 4:
  - only changes widths, and only shrinks them;
  - keeps the total consistent;
  - never drops the total below the target;
  - never takes a column that was at least its header width below it;
  - never touches a tree column or an absolute-hint column that may not be
    truncated.

  If the table is still too wide afterwards, a full sweep can take nothing
  more.
- **Table.Table.Print.**
  - It sets the default symbols when none are set.
  - It stores isTerm and the target width.
  - The allocation flag decides the result: `-ENOMEM` with nothing
    changed and nothing written, or 0.
  - On success it leaves the negotiated widths (or the old ones in raw and
    export mode) and appends TableTokens with the measured buffer size.

## Left out

- **Byte-level output is abstract.** fputs_nonblank, fputs_quoted, the
  `%*s` padding and the colour escapes are opaque tokens. Their
  bytes and the file stream are not modelled.
- **The mbsalign routines, apart from their results, are parameters.**
  mbs_safe_width, mbs_safe_encode and mbs_truncate are given as functions.
  Only their results and `Mbs.Sound` (a truncation to w cells gives at most w
  cells and at most as many cells as bytes) are relied on.
- **isatty, get_terminal_width and malloc are parameters** of
  `Table.Table.Print` (`isTermIn`, `query`, `alloc`). A query of 0 stands for
  "unknown". A negative result of get_terminal_width is not modelled.
- **Default symbols.** scols_table_set_symbols is not part of this model;
  the default symbols are passed to `Table.Table.Print`.
- **The scratch buffer is a value.** line_get_data's buffer is modelled by
  the string it ends up holding. The memset and the aliasing between calls
  are left out.
- **The tree recursion is cut after |lines| levels.** This applies to
  `Model.Path`, `TreeArt.AsciiArt`, `Traversal.Subtree` and
  `Table.Table.PrintTreeLine`. An acyclic arena has no deeper line, but the
  model does not prove that the cut is never reached.
- **Some size_t overflows are not modelled:** `line_sz + 1`, `width_avg * 2`,
  the running sum of count_column_width and the running output width. All
  integers there are unbounded. The target width is modelled in size_t. The
  size_t wrap of the growth step at line 437 is stated by
  `Negotiate.SizeWrapLandsOnMax`; the as-written step lands on width_max as
  that wrap does.
- **A NULL table is not modelled.** scols_print_table's `-1` return for it
  does not occur: a `Table` object always exists.
- **scols_print_table_to_string is not modelled.** It needs open_memstream.
- **Encoding and truncation failures are results.** mbs_safe_encode
  returning NULL and mbs_truncate returning `(size_t) -1` are
  `EncodeFailed` and `TruncateFailed`.
- **Padding compares different units, as the code does.** After mbs_truncate,
  print_data compares a byte count with a cell width for padding, and
  `%*s` pads in bytes. The model keeps both: `Render.TokenCells` counts a
  right-aligned value plus its byte padding. Padding is therefore exact only
  for ASCII.
- Table.Table.Print: requires, as `NegotiatedWidths` does, that a table with
  no columns is not printed on a terminal with a non-zero target width
  outside raw and export mode. The C code then loops forever when maximize
  is set, or reads a column that does not exist.
- Table.Table.Print: requires every header to have a name when a header is
  printed. The C code passes a NULL name to strncpy.
- **width_hint is a double, modelled as an exact real.** The product
  `width_hint * termwidth` at line 493 and the cast `(size_t) width_hint` at
  line 368 are computed without floating-point rounding. A hint such as 0.3
  is the exact real 0.3, not the nearest double, so the comparison at line
  493 can differ from the C code's at the boundary.
- **A string is a NUL-free byte string.** `string` stands for the bytes of a
  C string, one char per byte and none of them NUL. `Setup.LineBytes` and
  `TreeArt.Prefix` count these chars as bytes.
- **strlen_line is the function `Setup.LineBytes`.** Its loop is not a method.
- **recount_widths reads no table fields.** The buffer size, the symbols, the
  target width and the terminal flag are parameters of
  `Table.Table.RecountWidths`.
- **Cells and headers are constant.** Only the column width fields and the
  terminal fields change.
- Negotiate.GrowStep: runs the corrected growth step of line 437, not the
  code's; `Negotiate.GrowAsWrittenAgrees` shows the code's extreme pass gives
  the same result unless an extreme column is already wider than its
  widest row.
- Negotiate.GrowExtremes: runs the corrected growth step of line 437; the
  code's pass is `Negotiate.GrowExtremesAsWritten`, equal to it under
  `Negotiate.GrowAsWrittenAgrees`'s condition.
- Negotiate.ExpandMeaning: is stated of phase 3 with the corrected growth
  step of line 437.
- Negotiate.NegotiatedWidths: uses the corrected growth step of line 437.
- Negotiate.BeforeShrink: is stated with the corrected growth step of line
  437.
- Negotiate.NegotiateMeaning: is stated with the corrected growth step of
  line 437. As written, an extreme column that is wider than its widest row
  can end below its header width.
- Table.Table.GrowColumn: runs the corrected growth step of line 437, as
  `Negotiate.GrowStep` does.
- Table.Table.GrowExtremeColumns: runs the corrected growth step of line
  437, as `Negotiate.GrowExtremes` does.
- Table.Table.GrowColumns: runs the corrected growth step of line 437.
- Table.Table.RecountWidths: runs the corrected growth step of line 437.
- Table.Table.PrintSized: negotiates with the corrected growth step of line
  437 and prints with the corrected ascii art test of line 158.
- Table.Table.Print: negotiates with the corrected growth step of line 437
  and prints with the corrected ascii art test of line 158.
- TreeArt.LineData: uses the corrected test of line 158, because the
  as-written path leaves the buffer without a terminator.
  `TreeArt.AsciiArtAgrees` shows that this is the only difference.
- TreeArt.TreeLineData: is stated of the corrected test of line 158, as
  `TreeArt.LineData` is.

## Findings

| source | as written | input that shows it | evidently intended | confidence | as-written member | corrected member |
|---|---|---|---|---|---|---|
| libsmartcols/src/table_print.c:437 | `add = cl->width_max - cl->width` in size_t when the column would overshoot its widest row | A no-extremes column headed "NAME" with rows of widths 0, 0, 1, beside a column "X" of width 1, on an 80-cell terminal: phase 1 makes the first column extreme with width 4, width_min 4 and width_max 1, `add` wraps and the column lands on width 1 | The growth step never shrinks a column; one already past its widest row keeps its width | not executed | Negotiate.GrowAsWrittenFromInitial, Negotiate.GrowStepAsWrittenShrinksBelowMin, Negotiate.GrowExtremesAsWritten | Negotiate.GrowExtremesMeaning, Negotiate.GrowAsWrittenAgrees |
| libsmartcols/src/table_print.c:158 | `if (*bufsz < len)` accepts a segment that exactly fills the rest of the buffer | Line 2 under line 1, the only child of root line 0, with a buffer of 2 bytes: line 1's two-blank segment fills both bytes and no terminator fits | `*bufsz <= len` is refused, so one byte stays for the NUL | not executed | TreeArt.AsciiArtAsWrittenLeavesNoTerminator | TreeArt.AsciiArtIsPathSegments, TreeArt.AsciiArtAgrees |
