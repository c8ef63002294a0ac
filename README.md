# A verified model of the ted / seggs editor engine

This project models the line-buffer engine of `ted.c`, a small terminal text
editor, and of `seggs.c`, a simpler editor built on the same engine. Both are
C programs that keep all their state in one global `ec`. That state is a
growable array of byte rows plus a few integer cursor and viewport fields.

The model is split into these modules:

- **Bytes and Keys** (`bytes.dfy`, `keys.dfy`): the byte type, `CTRL_KEY`,
  and `editor_read_key`. The key decoder is written as a function from a
  finite input byte string to a key. It covers the CSI and SS3 sequences of
  section 5.4 of ECMA-48 and the VT220 `ESC [ n ~` editing keys.
- **RowRender** (`render.dfy`): `editor_update_row`,
  `editor_row_curx_to_rx` and `editor_row_rx_to_curx`.
  - The loops are methods proved against the functions `Render`,
    `RenderCol` and `LogicalCol`.
  - Lemmas give the render layout (no tab; each tab pads to a multiple of 8)
    and the column round trip.
- **RowStore and EditModel** (`rowstore.dfy`, `edit.dfy`): the row
  operations and the three edit operations as functions on a document
  (a sequence of rows) and a cursor.
  - This is also where `editor_move_cursor` lives.
  - Lemmas state the inverse pairs: split/join, insert/delete row and
    insert/delete byte. Backspace undoes Enter and undoes a typed byte.
- **Search and Prompt** (`search.dfy`, `prompt.dfy`):
  - the wrap-around scan of `editor_find_callback` with its two statics as
    explicit state;
  - the line-editing state machine of `editor_prompt`.
- **TextFile** (`textfile.dfy`):
  - the trailing `\n`/`\r` strip loop of `editor_open`;
  - `editor_rows_to_string`;
  - a `getline` line split that makes the open/save round trip statable.
- **Output** (`output.dfy`):
  - `ab_append` on a heap array;
  - one axis of `editor_scroll`;
  - the visible slice of a row drawn by `editor_draw_rows`.
- **TedEditor** (`ted.dfy`): the state of `ted.c` as a class.
  - Each field is a field of `ec` or one of the statics `lastMatch`,
    `direction` and `quitTimes`.
  - Each C function is a method, proved against the value-level functions
    above.
- **SeggsEditor** (`seggs.dfy`): the state of `seggs.c` as a class.
  - It covers row appending, `editor_open`, scrolling, cursor moves and the
    Page/Home/End keys.
  - `editor_draw_rows` builds a frame in an append buffer; lemmas state the
    frame's line structure.

## Model

| member | source | states |
|---|---|---|
| Bytes.CtrlKey | ted.c:36 | `CTRL_KEY(k)` of a lower-case letter is that letter's position in the alphabet, 1 to 26 |
| Keys.Decode | ted.c:172-239 | one key from the front of the input: None exactly on empty input; a non-ESC byte is returned as itself after one byte; after ESC, fewer than 3 bytes give ESC after all of them, `ESC [ digit` reads a fourth byte when there is one, and every other ESC sequence reads 3 bytes |
| Keys.DecodeMatchesTable | seggs.c:144-211 | an ESC-led input that starts with a listed escape sequence decodes to that sequence's key after exactly its bytes; every non-ESC result comes from a listed sequence |
| Keys.DecodeEncode | ted.c:183-238 | round trip: the canonical bytes of every key decode back to that key, consuming exactly those bytes, whatever input follows |
| RowStore.InsertRow | ted.c:348-368 | no change unless `0 <= at <= numRows`; otherwise `s` is row `at`, earlier rows are kept and later rows shift down by one |
| RowStore.InsertRowAtEnd | ted.c:348-368 | inserting at `numRows` appends the row |
| RowStore.DeleteRow | ted.c:375-384 | no change unless `0 <= at < numRows`; otherwise row `at` is removed and later rows shift up by one |
| RowStore.InsertPos | ted.c:386-389 | an out-of-range insertion point is clamped to the row size |
| RowStore.InsertChar | ted.c:386-396 | the byte is at the clamped position and every other byte keeps its order |
| RowStore.DeleteChar | ted.c:407-416 | no change outside `[0, size)`; otherwise exactly byte `at` is removed |
| RowStore.Split | ted.c:430-444 | splitting row `y` at column `x`: the two new rows concatenate to the old one, the first has length `x`, and other rows keep their places |
| RowStore.Join | ted.c:459-464 | row `y` is appended to row `y - 1` and removed; other rows keep their places |
| RowStore.DeleteRowInsertRow | ted.c:348-384 | deleting the row just inserted restores the document |
| RowStore.InsertRowDeleteRow | ted.c:348-384 | re-inserting the row just deleted restores the document |
| RowStore.DeleteCharInsertChar | ted.c:386-416 | deleting at the position a byte was inserted at restores the row |
| RowStore.InsertCharDeleteChar | ted.c:386-416 | re-inserting the byte just deleted restores the row |
| RowStore.JoinSplit | ted.c:430-465 | joining the two halves of a split restores the document |
| RowStore.SplitJoin | ted.c:430-465 | splitting a joined row at the join point restores the document |
| RowStore.SplitAtZero | ted.c:431-432 | a newline at column 0 (an empty row inserted above) is the split at column 0 |
| EditModel.InsertCharEdit | ted.c:420-428 | the byte is inserted at the cursor and the cursor moves right; on the line past the end a new row holding just that byte is appended |
| EditModel.NewlineEdit | ted.c:430-444 | one more row; the cursor's row is split at the cursor so that the two parts concatenate to it and the first is `x` long; earlier rows keep their places and later rows shift down by one; on the line past the end an empty row is appended; the cursor goes to column 0 of the next row |
| EditModel.DeleteEdit | ted.c:446-465 | no change past the end or at (0,0); inside a row the byte left of the cursor goes; at column 0 the text becomes `Join` of the row with the previous one and the cursor lands on the join |
| EditModel.DeleteAfterNewline | ted.c:430-465 | Backspace right after Enter restores text and cursor |
| EditModel.DeleteAfterInsertChar | ted.c:420-465 | Backspace right after typing a byte on an existing row restores text and cursor |
| EditModel.DeleteAfterInsertCharAtEnd | ted.c:420-465 | typing on the line past the end and then Backspace leaves one empty row appended and the cursor where it was |
| EditModel.InsertAtEnd | ted.c:421-427 | typing on the line past the end appends a row holding that byte and puts the cursor after it |
| EditModel.DeleteLoneByte | ted.c:455-458 | Backspace after the only byte of the last row leaves that row empty |
| EditModel.Move | ted.c:866-903 | after a move the cursor is on a row or the line past the end, and within the row; Left moves one column left, or from column 0 to the end of the previous row, and stays at (0,0); Right moves one column right, or from a row's end to column 0 of the next row, and stays on the line past the end; Up and Down change the row by one within bounds and clamp the column to the new row's length; other keys leave a valid cursor alone |
| EditModel.Step | ted.c:869-896 | the switch before the snap: Left one column left, or to the end of the previous row from column 0; Right one column right, or to the start of the next row from a row's end; Up and Down keep the column; the row stays within `[0, numRows]` and the column non-negative |
| EditModel.RightThenLeft | ted.c:866-903 | Right then Left returns to the same position on any row |
| EditModel.LeftThenRight | ted.c:866-903 | Left then Right returns to the same position anywhere but (0,0) |
| EditModel.MoveTimes | ted.c:968-971 | any non-zero number of moves leaves the cursor valid |
| EditModel.MoveUpTimes | ted.c:955-973 | `n` Up moves land `n` rows higher, or on row 0 |
| EditModel.MoveDownTimes | ted.c:955-973 | `n` Down moves land `n` rows lower, or on the line past the last row |
| RowRender.NextCol | ted.c:290-294 | a byte advances the render column by one; a tab advances it to the next multiple of 8, by 1 to 8 columns |
| RowRender.RenderCol | ted.c:287-298 | the render column of logical column `curx` lies between `curx` and `curx + 7 * tabs` |
| RowRender.RenderPrefix | ted.c:328-342 | the render form of the first `n` bytes has length `RenderCol(n)` and holds no tab |
| RowRender.Expand | ted.c:330-341 | a byte other than tab is copied; a tab becomes 1 to 8 spaces ending at a multiple of 8, so the render column moves as `NextCol` says |
| RowRender.Render | ted.c:317-346 | the render form of a row holds no tab, is at least as long as the row, and is `RenderCol` of the row end long |
| RowRender.RenderPrefixGrows | ted.c:328-342 | each render prefix extends the shorter ones |
| RowRender.RenderColStrict | ted.c:287-298 | render columns grow strictly with the logical column |
| RowRender.RenderLayout | ted.c:317-346 | the render form holds no tab; `rsize` is the render column of the row end, between `size` and `size + 7 * tabs`; a non-tab byte is copied to its render column; a tab becomes spaces up to a multiple of 8 |
| RowRender.LogicalCol | ted.c:300-315 | the first logical column whose end passes `rx`, or the size |
| RowRender.CoveringColumn | ted.c:300-315 | a render column inside the row falls within the expansion of the logical column it maps to |
| RowRender.ColumnRoundTrip | ted.c:287-315 | `rx_to_curx(curx_to_rx(c)) == c` for every `0 <= c <= size` |
| RowRender.LogicalColPastEnd | ted.c:300-315 | `rx_to_curx` returns `size` for any `rx >= rsize` |
| RowRender.CurxToRx | ted.c:287-298 | the accumulator loop computes `RenderCol` |
| RowRender.RxToCurx | ted.c:300-315 | the loop with its early return computes `LogicalCol` |
| RowRender.UpdateRow | ted.c:317-346 | the buffer of `size + 7 * tabs` bytes is filled with exactly `Render(chars)` |
| RowRender.FillRender | ted.c:328-342 | the fill loop writes exactly `Render(chars)` into the front of the buffer, inside the allocation |
| RowRender.RenderByte | ted.c:330-341 | one fill step appends byte `j`'s expansion at its render column |
| RowRender.CountTabs | ted.c:318-323 | the first loop counts the tabs |
| RowRender.PadTab | ted.c:330-337 | the tab branch writes spaces up to the next multiple of 8 |
| RowRender.RenderBoundStep | ted.c:326 | every index the fill loop writes lies inside the allocation |
| RowRender.TabsGrow | ted.c:318-323 | the tab count grows with the prefix, by at most one per byte |
| Search.CString | ted.c:586 | `strstr` sees the render form up to its first NUL |
| Search.FindFrom | ted.c:586 | the first occurrence of the query at or after a position, and none before it |
| Search.StrStr | ted.c:586 | the offset of the first occurrence of the query; no earlier offset holds it |
| Search.KeyEffect | ted.c:561-572 | corrected reading: Right/Down search forward, Left/Up backward keeping the last match, any other key restarts from the top; without a last match the direction is forward |
| Search.KeyEffectAsWritten | ted.c:561-572 | as written: Right/Down search forward keeping the last match; Left searches backward keeping it; ArrowUp, like any other key, restarts from the top; without a last match the direction is forward |
| Search.ArrowUpRestartsAsWritten | ted.c:563 | as written, ArrowUp after a match at row 2 throws the match away |
| Search.KeyEffectDiffersOnlyOnUp | ted.c:561-572 | the as-written and corrected readings agree on every key but ArrowUp |
| Search.Wrap | ted.c:577-582 | a row index is kept; -1 wraps to the last row and `numRows` to row 0, so one step from a valid state is always a valid row |
| Search.Visit | ted.c:574-583 | every row tried in the scan is a valid row index |
| Search.VisitClosedForm | ted.c:574-583 | the `k`-th row tried is `k` rows on from the last match in the search direction, modulo the number of rows |
| Search.VisitReachesEveryRow | ted.c:574-583 | every row is tried within `numRows` steps |
| Search.ScanFrom | ted.c:575-593 | a match is always a valid row |
| Search.FirstTriedFrom | ted.c:575-593 | the row is tried at some step from `k` on and no earlier step from `k` on tries a row holding the query |
| Search.ScanFromSound | ted.c:575-593 | a reported match is the first row tried from step `k` on whose render holds the query, at the offset `strstr` gives; no match means no tried row holds it |
| Search.ScanFromStep | ted.c:576-593 | one step of the scan: stop at a matching row, otherwise go on |
| Search.Scan | ted.c:574-594 | a match is always a valid row |
| Search.ScanRows | ted.c:574-594 | the loop returns exactly `Scan`: a match is the first row in wrap-around order whose render holds the query, at the `strstr` offset; no match exactly when no row holds it |
| Search.ScanNoneIffAbsent | ted.c:574-594 | the scan finds nothing exactly when no row's render contains the query |
| Search.SearchWrapsAround | ted.c:574-594 | forward search for "abc" over "abc", "xyz", "abc" finds row 0, then row 2, then wraps to row 0 |
| Search.AbcInAbc | ted.c:586 | `strstr("abc", "abc")` is at offset 0 |
| Search.XyzLacksAbc | ted.c:586 | `strstr("xyz", "abc")` finds nothing |
| Prompt.Step | ted.c:829-857 | Enter accepts only a non-empty line and is ignored on an empty one; ESC and only ESC cancels; DEL, Ctrl-H and Backspace drop the last byte; a printable byte below 128 is appended; any other byte, and every other named key (arrows, Home, End, Page keys), leaves the line alone |
| Prompt.Run | ted.c:817-863 | a session reads at least one key when it ends, and all of them while still editing |
| Prompt.RunKeepsPrintable | ted.c:850-857 | a session only ever holds bytes that are printable and below 128, and accepts only a non-empty line |
| Prompt.TypeThenEnter | ted.c:841-857 | typing printable text and then Enter accepts exactly that text after `|text| + 1` keys |
| Prompt.EnterOnEmpty | ted.c:841-849 | Enter on an empty line is ignored and the session goes on |
| Prompt.DroppedStep | ted.c:829-832 | dropping one byte and then `n - 1` bytes drops `n` bytes |
| Prompt.EraseKeys | ted.c:829-832 | `n` erase keys (DEL, Ctrl-H or Backspace, in any mix) drop the last `n` bytes, or all of them when there are fewer |
| Prompt.EscCancels | ted.c:833-840 | ESC cancels at once, whatever the line holds |
| Prompt.Typed | ted.c:850-857 | one key per typed byte |
| TextFile.TrimLineEnd | ted.c:504-506 | a prefix of the line that does not end in `\n` or `\r`; every byte removed is `\n` or `\r` |
| TextFile.StripLineEnd | seggs.c:284-286 | the strip loop yields the length of `TrimLineEnd(line)`, never below 0 |
| TextFile.OpenedRows | seggs.c:283-289 | the rows built by `editor_open`, one per line, in file order, each trimmed |
| TextFile.OpenedRowsSnoc | ted.c:501-508 | opening one more line appends its trimmed form |
| TextFile.LineLength | ted.c:503 | the length of a `getline` line lies within the data |
| TextFile.LineLengthFindsLF | ted.c:503 | a line runs to the first `\n`, or to the end |
| TextFile.GetLines | ted.c:501 | the lines are empty exactly for empty data; no line is empty; every line but the last ends in `\n` |
| TextFile.GetLinesConcat | ted.c:501 | the lines laid end to end give back the file |
| TextFile.SumLengths | ted.c:470-473 | the first loop of `editor_rows_to_string` computes the length of the serialization |
| TextFile.Serialized | ted.c:469-488 | the serialization is empty exactly for no rows, and otherwise ends in `\n` |
| TextFile.RowsToString | ted.c:469-488 | the buffer is every row followed by `\n`, and `buflen` is its length |
| TextFile.CopyInto | ted.c:481-484 | the copy appends the bytes at `p` and keeps those before |
| TextFile.SerializedLength | ted.c:469-488 | the reported length is the length of the serialization |
| TextFile.SerializedAppend | ted.c:480-485 | one more row adds that row and `\n` |
| TextFile.TotalLengthAppend | ted.c:471-473 | one more row adds its size plus one |
| TextFile.TotalLengthConcat | ted.c:471-473 | the total length adds up over concatenation |
| TextFile.SerializedStep | ted.c:480-485 | copying row `j` and its `\n` extends the serialization of the first `j` rows and stays inside the buffer |
| TextFile.OpenSaveRoundTrip | ted.c:469-514 | opening a file without `\r` that ends in `\n` and serializing its rows gives back the file |
| TextFile.OpenSaveChangesCrLf | ted.c:504-506 | "a\r\n" is written back as "a\n" |
| TextFile.OpenSaveAddsNewline | ted.c:469-488 | "a" is written back as "a\n" |
| TextFile.OpenedRowsHaveNoLF | ted.c:503-509 | the rows `editor_open` loads hold no `\n` byte |
| TextFile.GetLinesLFOnlyAtEnd | ted.c:503 | each `getline` line holds `\n` only as its last byte |
| TextFile.TrimmedHasNoLF | ted.c:504-506 | stripping such a line leaves no `\n` |
| Output.AppendBuffer.constructor | ted.c:622 | `APPEND_BUFFER_INIT` is an empty buffer |
| Output.AppendBuffer.Append | ted.c:624-631 | after a successful allocation the contents are the old contents followed by `s`; after a failed one the buffer is unchanged |
| Output.ScrollAxis | ted.c:646-660 | with a non-empty window the position ends up inside the window; an offset already showing the position is kept; otherwise the window moves just far enough |
| Output.ScrollAxisIdempotent | seggs.c:319-327 | scrolling a second time changes nothing more |
| Output.SliceLength | ted.c:704-712 | the length drawn is at most `screenCols` and, when positive, stays inside the render form; it is `screenCols` when the row reaches past the window, `rsize - colOffset` when it ends inside, and 0 when the row ends before `colOffset` |
| Output.RowSlice | ted.c:704-714 | the slice has that clamped length |
| Output.RowSliceWindow | ted.c:704-714 | screen column `i` shows render column `colOffset + i`, and every render column in the window that exists is shown |
| SeggsEditor.WelcomeHasNoLF | seggs.c:336 | the welcome text is 31 bytes with no `\n` |
| SeggsEditor.CountLF | seggs.c:330-367 | the count of `\n` bytes is at most the length |
| SeggsEditor.CountLFConcat | seggs.c:330-367 | line breaks add up over concatenation |
| SeggsEditor.CountLFNone | seggs.c:330-367 | a string without `\n` has no line break |
| SeggsEditor.LineFits | seggs.c:332-358 | every screen line's text fits the screen width |
| SeggsEditor.ScreenLineHasNoLF | seggs.c:332-358 | when no row holds `\n`, no screen line's text does |
| SeggsEditor.PieceLineBreaks | seggs.c:361-365 | a screen line as emitted has one line break, none if it is the last |
| SeggsEditor.DrawnLineBreaks | seggs.c:331-366 | the first `n` lines carry `n` line breaks, or `n - 1` when the last is the screen's last |
| SeggsEditor.DrawnStep | seggs.c:331-366 | each line adds one line break, none for the screen's last |
| SeggsEditor.FrameShape | seggs.c:330-367 | the frame has exactly `screenRows - 1` line breaks and ends with EL (`ESC [ K`) |
| SeggsEditor.EndsWith | seggs.c:361 | the bytes appended last are the suffix |
| SeggsEditor.MoveStep | seggs.c:411-430 | Left/Right change only the column, Up/Down only the row; in-range positions stay in `[0, screenCols - 1]` by `[0, numRows]`; other keys change nothing |
| SeggsEditor.PageMoves | seggs.c:451-458 | a screenful of Up (Down) moves lands that many rows up (down), stopping at row 0 (at `numRows`) |
| SeggsEditor.Editor.constructor | seggs.c:473-485 | the cursor, row offset and rows start empty, and the screen has the window size |
| SeggsEditor.Editor.AppendRow | seggs.c:259-269 | one more row, `s` is the new last row, and earlier rows are unchanged |
| SeggsEditor.Editor.Open | seggs.c:273-293 | the rows grow by the trimmed lines in file order |
| SeggsEditor.Editor.Scroll | seggs.c:319-327 | the row offset becomes `ScrollAxis` of the cursor row |
| SeggsEditor.Editor.DrawRows | seggs.c:330-367 | the append buffer gains exactly the frame `Drawn` of `screenRows` lines |
| SeggsEditor.Editor.DrawLine | seggs.c:332-365 | one screen line: text, EL, and `\r\n` unless it is the last |
| SeggsEditor.Editor.DrawText | seggs.c:332-358 | a tilde, the welcome line on an empty file's third line, or a row truncated to the screen width |
| SeggsEditor.Editor.DrawWelcome | seggs.c:334-348 | the welcome text, cut to the width and centred |
| SeggsEditor.Editor.DrawPadding | seggs.c:340-346 | a tilde and then spaces, `padding` bytes in all |
| SeggsEditor.Editor.MoveCursor | seggs.c:411-430 | the cursor moves as `MoveStep` says |
| SeggsEditor.Editor.ProcessKeypress | seggs.c:433-468 | Ctrl-Q and only Ctrl-Q exits; Home goes to column 0 and End to `screenCols - 1`; Page keys move a screenful, clamped; arrows move one step; other keys do nothing |
| SeggsEditor.Editor.RepeatMove | seggs.c:454-457 | `times` single moves |
| TedEditor.QuitStep | ted.c:916-921 | Ctrl-Q counts down only with unsaved changes and presses left; otherwise it exits |
| TedEditor.PressesToQuit | ted.c:916-926 | with unsaved changes it takes `quitTimes + 1` presses in a row to exit, otherwise one |
| TedEditor.DirtyQuitTakesFour | ted.c:33 | with `EDITOR_QUIT_TIMES` 3 and unsaved changes the editor exits on the fourth Ctrl-Q in a row |
| TedEditor.CharsOf | ted.c:53-59 | the bytes of each row |
| TedEditor.CharsOfSplice | ted.c:353-354 | shifting the row array to insert a row inserts its bytes |
| TedEditor.CharsOfRemove | ted.c:381 | shifting the row array over a row removes its bytes |
| TedEditor.Editor.Text | ted.c:53-59 | the document is every row's bytes |
| TedEditor.Editor.Renders | ted.c:53-59 | every row's render form |
| TedEditor.Editor.constructor | ted.c:997-1017 | empty document, cursor at the origin, unmodified, two screen lines kept for the bars, search state idle, quit counter full |
| TedEditor.Editor.InsertRow | ted.c:348-368 | the text becomes `RowStore.InsertRow`; each render form stays derived; `modified` grows by one only when a row is inserted |
| TedEditor.Editor.DelRow | ted.c:375-384 | the text becomes `RowStore.DeleteRow`; `modified` grows by one only when a row is removed |
| TedEditor.Editor.Open | ted.c:490-514 | the trimmed lines are appended as rows in file order; the file then counts as unmodified |
| TedEditor.Editor.SetRow | ted.c:436-439 | row `y` gets the new bytes and a render form derived from them |
| TedEditor.Editor.RowInsertChar | ted.c:386-396 | row `y` becomes `RowStore.InsertChar`; `modified` is untouched |
| TedEditor.Editor.RowAppendString | ted.c:398-405 | `s` is appended to row `y`; `modified` grows by one |
| TedEditor.Editor.RowDelChar | ted.c:407-416 | row `y` becomes `RowStore.DeleteChar`; `modified` grows only when a byte goes |
| TedEditor.Editor.InsertChar | ted.c:420-428 | text and cursor become `InsertCharEdit`; `modified` grows by 2 on the line past the end, else by 1 |
| TedEditor.Editor.InsertNewline | ted.c:430-444 | text and cursor become `NewlineEdit`; `modified` grows by 1 |
| TedEditor.Editor.DelChar | ted.c:446-465 | text and cursor become `DeleteEdit`; `modified` grows by 0, 1 or 2 |
| TedEditor.Editor.DeleteLeft | ted.c:456-458 | the byte left of the cursor goes and the cursor moves left |
| TedEditor.Editor.JoinWithPrevious | ted.c:459-464 | the text becomes `RowStore.Join` and the cursor lands on the join |
| TedEditor.Editor.MoveCursor | ted.c:866-903 | the cursor becomes `Move` of the text and stays valid |
| TedEditor.Editor.StepCursor | ted.c:869-896 | the switch computes `Step` |
| TedEditor.Editor.Scroll | ted.c:639-661 | `rx` is the cursor's render column (0 past the end); both offsets follow `ScrollAxis` |
| TedEditor.Editor.FindCallback | ted.c:549-595 | Enter/ESC reset the statics without scanning; otherwise the statics follow `KeyEffect` (the corrected reading of ted.c:563, see Findings), and on a match of `Scan` the cursor goes to the match row and `LogicalCol` of the offset with the row offset at `numRows`; without a match the cursor stays |
| TedEditor.Editor.JumpTo | ted.c:587-593 | the match branch puts the cursor on the match |
| TedEditor.Editor.Find | ted.c:597-613 | an accepted prompt returns its line; ESC restores the cursor and both offsets |
| TedEditor.Editor.RefreshAndSearch | ted.c:825-861 | the refresh and then the callback keep the state valid and leave the search idle after Enter or ESC |
| TedEditor.Editor.PageKey | ted.c:955-973 | PageUp starts from the top screen line and PageDown from the bottom one (clamped to `numRows`); then a screenful of moves lands the expected rows up or down |
| TedEditor.Editor.RepeatMove | ted.c:968-971 | `times` single moves as `MoveTimes` |
| TedEditor.Editor.EditKey | ted.c:911-913 | Enter is `NewlineEdit`; Backspace and Ctrl-H are `DeleteEdit`; DEL is a Right move and then `DeleteEdit`; other bytes are `InsertCharEdit`; a changed text means a raised `modified` |
| TedEditor.Editor.NavKey | ted.c:932-980 | Home goes to column 0, End to the row end, Page keys as in `PageKey`, arrows as `Move` |
| TedEditor.Editor.ProcessKeypress | ted.c:906-992 | Ctrl-Q exits exactly when `QuitStep` says so and otherwise counts down, leaving the buffer alone; any other key resets the quit counter and does not exit |
| TedEditor.Editor.DispatchKey | ted.c:928-988 | Ctrl-S clears `modified` when the save succeeds; Ctrl-F leaves the text alone and, when cancelled, cursor and offsets too; Ctrl-L and ESC change nothing |
| TedEditor.Editor.MoveOrEdit | ted.c:932-988 | keys that do not edit leave text and `modified` unchanged; editing keys raise `modified` |
| TedEditor.Editor.Turn | ted.c:1032-1035 | one refresh-and-keypress turn keeps the state valid, and any change to the text marks it modified |

## Left out

- Raw mode, `die`/`exit`, the window size query and the cursor position report: operating-system calls. The screen size is a constructor parameter.
- Keys.Decode: the blocking `read` retry loop is not modelled. Input is a finite byte string, and no input at all gives None where the source would block.
- Signed bytes: `editor_read_key` reads into a plain `char`, which is signed on the usual x86 targets, so a byte of 128 or more comes back as a negative key. The model keeps bytes as 0..255, which is what an unsigned-`char` target sees.
  In the dispatch of `editor_process_keypress` such a byte goes to `editor_insert_char` either way, and the model inserts it.
- Prompt.Step: the model drops a byte of 128 or more from the prompt line. With a signed `char` the source's test `c < 128` holds for it and the C library's `iscntrl` is false, so the source appends it to the query.
- `editor_save` is not part of this model: file descriptors, `ftruncate` and `write`. Ctrl-S is modelled by the parameter `saveSucceeded`.
  - Its test `fd != 1` at ted.c:529 should read `fd != -1`.
  - Its failure message at ted.c:544 lacks the file-name argument.
  - Both are I/O, so they are not modelled.
- The Save-as prompt, status messages and their timeout, the status bar, the message bar, ted's welcome and author lines, and the final `write` of each frame: formatting and wall-clock glue.
  - Of `editor_refresh_screen`, only the scroll is modelled. It is the only part that changes editor state.
  - Of ted's `editor_draw_rows`, only the visible slice of a row is modelled.
- `malloc`/`realloc`/`free`: rows are Dafny sequences. In `ab_append` the allocation outcome is a parameter. The prompt buffer's doubling is not needed for sequences.
- SeggsEditor.Editor.DrawRows, DrawLine, DrawText, DrawWelcome and DrawPadding: every `ab_append` they make is modelled with a successful `realloc`. A failure part-way through a frame, which would leave that one piece out of the buffer, is not modelled for them; Output.AppendBuffer.Append states that case on its own.
- Integer widths: every `int` of the source is unbounded here, and the model does not follow any overflow.
- TextFile.OpenSaveRoundTrip: it is stated only for files without `\r` that end in `\n`. For other files the exact result is shown by OpenSaveChangesCrLf and OpenSaveAddsNewline.
- TedEditor.Editor.Turn and TedEditor.Editor.PageKey: both require `screenRows > 0`. `screenRows` is the window height minus the two bar lines, so terminals of fewer than 3 lines are excluded. On such a terminal PageDown sets `cury = rowOffset + screenRows - 1`, which is below `rowOffset` and is -1 or less at the top of the file; the next scroll then reads `ec.row[cury]` at a negative index.
- TedEditor.Editor.PageKey: it also requires `0 <= rowOffset <= numRows`. The scroll at the start of every turn establishes that (Turn).
- TedEditor.Editor.FindCallback: it follows the corrected `KeyEffect`. As written, ted.c:563 makes ArrowUp after a match reset the search to lastMatch -1 and direction 1 and scan from the top, where the model scans backward from the last match. KeyEffectDiffersOnlyOnUp shows the two agree on every other key (see Findings).
- TedEditor.Editor.Find: it requires the prompt keys to end the session by Enter or ESC. The source would go on reading keys.
- TedEditor.Editor.ProcessKeypress: for Ctrl-F, Ctrl-S and the other keys it states what DispatchKey states.
- kilo.c is not part of this model: it holds only raw-mode plumbing, a tilde-only frame and another copy of `ab_append`.

## Findings

| source | as written | input that shows it | evidently intended | confidence | as-written member | corrected member |
|---|---|---|---|---|---|---|
| ted.c:563 | `key == ARROW_LEFT \|\| key == ARROW_RIGHT` selects the backward search, and ARROW_RIGHT is already taken by the line above | search state lastMatch 2, direction 1, then ArrowUp: the last match is thrown away and the scan restarts from the top | `key == ARROW_LEFT \|\| key == ARROW_UP`, so that Up searches backward like Left, as the prompt's "Use ESC/Arrows/Enter" suggests | not executed | Search.KeyEffectAsWritten, Search.ArrowUpRestartsAsWritten | Search.KeyEffect |
