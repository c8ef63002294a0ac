// The editor state of ted.c (the global `ec` and the statics of
// `editor_find_callback` and `editor_process_keypress`) as a class whose
// methods update it in place, each proved against the value-level model in
// rowstore.dfy, edit.dfy, search.dfy and prompt.dfy.
module TedEditor {
  import opened Wrappers
  import opened Bytes
  import opened Keys
  import RowStore
  import opened RowRender
  import opened EditModel
  import opened Search
  import Prompt
  import TextFile
  import opened Output

  const QUIT_TIMES: int := 3

  /** `struct EditorRow`: the row's bytes and its render form. */
  datatype Row = Row(chars: seq<byte>, render: seq<byte>)

  /**
   * One Ctrl-Q: with unsaved changes and presses left, count down and stay
   * (`Some` of the new count); otherwise exit (`None`).
   */
  function QuitStep(quitTimes: int, modified: int): (r: Option<int>)
    ensures r.Some? <==> modified != 0 && quitTimes > 0
    ensures r.Some? ==> r.value == quitTimes - 1
  {
    if modified != 0 && quitTimes > 0 then Some(quitTimes - 1) else None
  }

  /** Consecutive Ctrl-Q presses it takes to exit, counting the one that exits. */
  function PressesToQuit(quitTimes: int, modified: int): (k: nat)
    ensures k == if modified != 0 && quitTimes > 0 then quitTimes + 1 else 1
    decreases if quitTimes > 0 then quitTimes else 0
  {
    match QuitStep(quitTimes, modified)
    case None => 1
    case Some(q) => 1 + PressesToQuit(q, modified)
  }

  /** With unsaved changes the editor exits on the fourth Ctrl-Q in a row, not the third. */
  lemma DirtyQuitTakesFour(modified: int)
    requires modified != 0
    ensures PressesToQuit(QUIT_TIMES, modified) == 4
    ensures QuitStep(QUIT_TIMES, modified) == Some(2)
    ensures QuitStep(2, modified) == Some(1) && QuitStep(1, modified) == Some(0)
    ensures QuitStep(0, modified) == None
  {
  }

  /** The bytes of each row. */
  function CharsOf(rs: seq<Row>): (t: RowStore.Text)
    ensures |t| == |rs|
    ensures forall i :: 0 <= i < |rs| ==> t[i] == rs[i].chars
  {
    seq(|rs|, i requires 0 <= i < |rs| => rs[i].chars)
  }

  /** Inserting a row at `at` inserts its bytes at `at`. */
  lemma CharsOfSplice(rs: seq<Row>, at: nat, r: Row)
    requires at <= |rs|
    ensures CharsOf(rs[..at] + [r] + rs[at..]) == CharsOf(rs)[..at] + [r.chars] + CharsOf(rs)[at..]
  {
  }

  /** Removing row `at` removes its bytes. */
  lemma CharsOfRemove(rs: seq<Row>, at: nat)
    requires at < |rs|
    ensures CharsOf(rs[..at] + rs[at + 1..]) == CharsOf(rs)[..at] + CharsOf(rs)[at + 1..]
  {
  }

  /** The keys `editor_process_keypress` passes to `editor_insert_char` (its `default` case). */
  predicate InsertsByte(c: Key)
  {
    c.Char? && c.b != CR && c.b != CtrlKey('q') && c.b != CtrlKey('s') && c.b != CtrlKey('f')
      && c.b != CtrlKey('h') && c.b != BACKSPACE && c.b != CtrlKey('l') && c.b != ESC
  }

  predicate IsArrow(c: Key)
  {
    c.ArrowLeft? || c.ArrowRight? || c.ArrowUp? || c.ArrowDown?
  }

  class Editor {
    var screenRows: int
    var screenCols: int
    var curx: int
    var cury: int
    var rx: int
    var rowOffset: int
    var colOffset: int
    var rows: seq<Row>
    var modified: int
    // the statics of editor_find_callback and editor_process_keypress
    var lastMatch: int
    var direction: int
    var quitTimes: int

    /** The document: every row's bytes. */
    function Text(): (t: RowStore.Text)
      reads this
      ensures |t| == |rows|
      ensures forall i :: 0 <= i < |rows| ==> t[i] == rows[i].chars
    {
      CharsOf(rows)
    }

    /** Every row's render form, what the search looks in. */
    function Renders(): (r: seq<seq<byte>>)
      reads this
      ensures |r| == |rows|
      ensures forall i :: 0 <= i < |rows| ==> r[i] == rows[i].render
    {
      var rs := rows;
      seq(|rs|, i requires 0 <= i < |rs| => rs[i].render)
    }

    function Buf(): Buffer
      reads this
    {
      Buffer(Text(), Cursor(curx, cury))
    }

    /** Each row's render form is derived from its bytes. */
    predicate RowsValid()
      reads this
    {
      forall i :: 0 <= i < |rows| ==> rows[i].render == Render(rows[i].chars)
    }

    predicate CursorValid()
      reads this
    {
      CursorIn(Text(), Cursor(curx, cury))
    }

    /** The state between two keypresses. */
    predicate Valid()
      reads this
    {
      && RowsValid() && CursorValid()
      && rowOffset >= 0 && colOffset >= 0 && modified >= 0
      && lastMatch == -1 && direction == 1
    }

    /** `init_editor` on a terminal of `windowRows` by `windowCols`; two lines go to the bars. */
    constructor (windowRows: int, windowCols: int)
      ensures Valid() && rows == [] && curx == 0 && cury == 0 && modified == 0
      ensures screenRows == windowRows - 2 && screenCols == windowCols
      ensures quitTimes == QUIT_TIMES
    {
      screenRows := windowRows - 2;
      screenCols := windowCols;
      curx, cury, rx := 0, 0, 0;
      rowOffset, colOffset := 0, 0;
      rows := [];
      modified := 0;
      lastMatch, direction := -1, 1;
      quitTimes := QUIT_TIMES;
    }

    /** `editor_insert_row`. */
    method InsertRow(at: int, s: seq<byte>)
      requires RowsValid()
      modifies this`rows, this`modified
      ensures RowsValid()
      ensures Text() == RowStore.InsertRow(old(Text()), at, s)
      ensures modified == old(modified) + if 0 <= at <= old(|rows|) then 1 else 0
    {
      if at < 0 || at > |rows| {
        return;
      }
      var render := UpdateRow(s);
      CharsOfSplice(rows, at, Row(s, render));
      rows := rows[..at] + [Row(s, render)] + rows[at..];
      modified := modified + 1;
    }

    /** `editor_del_row`. */
    method DelRow(at: int)
      requires RowsValid()
      modifies this`rows, this`modified
      ensures RowsValid()
      ensures Text() == RowStore.DeleteRow(old(Text()), at)
      ensures modified == old(modified) + if 0 <= at < old(|rows|) then 1 else 0
    {
      if at < 0 || at >= |rows| {
        return;
      }
      CharsOfRemove(rows, at);
      rows := rows[..at] + rows[at + 1..];
      modified := modified + 1;
    }

    /**
     * `editor_open` over the lines `getline` returns: each is stripped of
     * its line end and inserted after the last row; the file then counts
     * as unmodified.
     */
    method Open(lines: seq<seq<byte>>)
      requires RowsValid()
      modifies this`rows, this`modified
      ensures RowsValid()
      ensures Text() == old(Text()) + TextFile.OpenedRows(lines)
      ensures modified == 0
    {
      var i := 0;
      while i < |lines|
        invariant i <= |lines| && RowsValid()
        invariant Text() == old(Text()) + TextFile.OpenedRows(lines[..i])
      {
        var line := lines[i];
        var lineLen := TextFile.StripLineEnd(line);
        ghost var before := Text();
        InsertRow(|rows|, line[..lineLen]);
        RowStore.InsertRowAtEnd(before, line[..lineLen]);
        TextFile.OpenedRowsSnoc(lines, i);
        i := i + 1;
      }
      assert lines[..i] == lines;
      modified := 0;
    }

    /** Store new bytes for row `y` and derive its render form. */
    method SetRow(y: nat, chars: seq<byte>)
      requires RowsValid() && y < |rows|
      modifies this`rows
      ensures RowsValid()
      ensures Text() == old(Text())[y := chars]
    {
      var render := UpdateRow(chars);
      rows := rows[y := Row(chars, render)];
    }

    /** `editor_row_insert_char` on row `y` (it leaves `modified` alone). */
    method RowInsertChar(y: nat, at: int, c: byte)
      requires RowsValid() && y < |rows|
      modifies this`rows
      ensures RowsValid()
      ensures Text() == old(Text())[y := RowStore.InsertChar(old(Text())[y], at, c)]
    {
      var chars := rows[y].chars;
      var p := if at < 0 || at > |chars| then |chars| else at;
      SetRow(y, chars[..p] + [c] + chars[p..]);
    }

    /** `editor_row_append_string` on row `y`. */
    method RowAppendString(y: nat, s: seq<byte>)
      requires RowsValid() && y < |rows|
      modifies this`rows, this`modified
      ensures RowsValid()
      ensures Text() == old(Text())[y := old(Text())[y] + s]
      ensures modified == old(modified) + 1
    {
      SetRow(y, rows[y].chars + s);
      modified := modified + 1;
    }

    /** `editor_row_del_char` on row `y`. */
    method RowDelChar(y: nat, at: int)
      requires RowsValid() && y < |rows|
      modifies this`rows, this`modified
      ensures RowsValid()
      ensures Text() == old(Text())[y := RowStore.DeleteChar(old(Text())[y], at)]
      ensures modified == old(modified) + if 0 <= at < old(|rows[y].chars|) then 1 else 0
    {
      if at < 0 || at >= |rows[y].chars| {
        assert Text()[y := Text()[y]] == Text();
        return;
      }
      var chars := rows[y].chars;
      SetRow(y, chars[..at] + chars[at + 1..]);
      modified := modified + 1;
    }

    /** `editor_insert_char`. */
    method InsertChar(c: byte)
      requires RowsValid() && CursorValid()
      modifies this`rows, this`modified, this`curx
      ensures RowsValid() && CursorValid()
      ensures Buf() == InsertCharEdit(old(Buf()), c)
      ensures modified == old(modified) + if old(cury) == old(|rows|) then 2 else 1
    {
      if cury == |rows| {
        InsertRow(|rows|, []);
      }
      RowInsertChar(cury, curx, c);
      curx := curx + 1;
      modified := modified + 1;
    }

    /** `editor_insert_newline`. */
    method InsertNewline()
      requires RowsValid() && CursorValid()
      modifies this`rows, this`modified, this`curx, this`cury
      ensures RowsValid() && CursorValid()
      ensures Buf() == NewlineEdit(old(Buf()))
      ensures modified == old(modified) + 1
    {
      assert 0 <= cury <= |rows|;
      if curx == 0 {
        InsertRow(cury, []);
      } else {
        var chars := rows[cury].chars;
        assert curx <= |chars|;
        InsertRow(cury + 1, chars[curx..]);
        SetRow(cury, chars[..curx]);
        assert Text() == RowStore.Split(old(Text()), cury, curx);
      }
      cury := cury + 1;
      curx := 0;
    }

    /** `editor_del_char`. */
    method DelChar()
      requires RowsValid() && CursorValid()
      modifies this`rows, this`modified, this`curx, this`cury
      ensures RowsValid() && CursorValid()
      ensures Buf() == DeleteEdit(old(Buf()))
      ensures modified == old(modified) +
        if old(cury) == old(|rows|) || (old(curx) == 0 && old(cury) == 0) then 0
        else if old(curx) > 0 then 1 else 2
    {
      ghost var b := Buf();
      assert EditModel.Valid(b);
      if cury == |rows| {
        return;
      }
      if curx == 0 && cury == 0 {
        return;
      }
      if curx > 0 {
        DeleteLeft();
      } else {
        JoinWithPrevious();
      }
      assert Buf() == DeleteEdit(b);
      assert EditModel.Valid(Buf());
    }

    /** The branch of `editor_del_char` inside a row: the byte left of the cursor goes. */
    method DeleteLeft()
      requires RowsValid() && 0 <= cury < |rows| && 0 < curx <= |rows[cury].chars|
      modifies this`rows, this`modified, this`curx
      ensures RowsValid()
      ensures Buf() == Buffer(old(Text())[cury := RowStore.DeleteChar(old(Text())[cury], old(curx) - 1)], Cursor(old(curx) - 1, cury))
      ensures modified == old(modified) + 1
    {
      RowDelChar(cury, curx - 1);
      curx := curx - 1;
    }

    /** The column-0 branch of `editor_del_char`: append the row to the previous one and delete it. */
    method JoinWithPrevious()
      requires RowsValid() && 0 < cury < |rows| && curx == 0
      modifies this`rows, this`modified, this`curx, this`cury
      ensures RowsValid()
      ensures Text() == RowStore.Join(old(Text()), old(cury))
      ensures Cursor(curx, cury) == Cursor(|old(Text())[old(cury) - 1]|, old(cury) - 1)
      ensures modified == old(modified) + 2
    {
      curx := |rows[cury - 1].chars|;
      RowAppendString(cury - 1, rows[cury].chars);
      DelRow(cury);
      cury := cury - 1;
    }

    /** `editor_move_cursor`. */
    method MoveCursor(key: Key)
      requires 0 <= cury <= |rows| && curx >= 0
      modifies this`curx, this`cury
      ensures Cursor(curx, cury) == Move(Text(), old(Cursor(curx, cury)), key)
      ensures CursorValid()
    {
      StepCursor(key);
      var rowLen := if cury >= |rows| then 0 else |rows[cury].chars|;
      if curx > rowLen {
        curx := rowLen;
      }
    }

    /** The `switch` of `editor_move_cursor`. */
    method StepCursor(key: Key)
      requires 0 <= cury <= |rows| && curx >= 0
      modifies this`curx, this`cury
      ensures Cursor(curx, cury) == Step(Text(), old(Cursor(curx, cury)), key)
    {
      match key {
        case ArrowLeft =>
          if curx != 0 {
            curx := curx - 1;
          } else if cury > 0 {
            cury := cury - 1;
            curx := |rows[cury].chars|;
          }
        case ArrowRight =>
          if cury < |rows| && curx < |rows[cury].chars| {
            curx := curx + 1;
          } else if cury < |rows| && curx == |rows[cury].chars| {
            cury := cury + 1;
            curx := 0;
          }
        case ArrowUp =>
          if cury != 0 {
            cury := cury - 1;
          }
        case ArrowDown =>
          if cury < |rows| {
            cury := cury + 1;
          }
        case _ =>
      }
    }

    /**
     * `editor_scroll`: the render column of the cursor (0 past the last
     * row), then the row and column offsets, one axis at a time.
     */
    method Scroll()
      requires CursorValid()
      modifies this`rx, this`rowOffset, this`colOffset
      ensures rx == if cury < |rows| then RenderCol(rows[cury].chars, curx) else 0
      ensures rowOffset == ScrollAxis(old(rowOffset), cury, screenRows)
      ensures colOffset == ScrollAxis(old(colOffset), rx, screenCols)
    {
      rx := 0;
      if cury < |rows| {
        rx := CurxToRx(rows[cury].chars, curx);
      }
      if cury < rowOffset {
        rowOffset := cury;
      }
      if cury >= rowOffset + screenRows {
        rowOffset := cury - screenRows + 1;
      }
      if rx < colOffset {
        colOffset := rx;
      }
      if rx >= colOffset + screenCols {
        colOffset := rx - screenCols + 1;
      }
    }

    /**
     * `editor_find_callback`: Enter and ESC reset the search; any other key
     * sets direction and last match (KeyEffect) and scans at most every row
     * once in wrap-around order; on a match the cursor goes to the match and
     * the row offset is set past the end so that the next scroll puts the
     * match row at the top.
     */
    method FindCallback(query: seq<byte>, key: Key)
      requires RowsValid() && CursorValid() && StateFits(SearchState(lastMatch, direction), |rows|)
      modifies this`lastMatch, this`direction, this`curx, this`cury, this`rowOffset
      ensures CursorValid() && StateFits(SearchState(lastMatch, direction), |rows|)
      ensures key == Char(CR) || key == EscKey ==>
        lastMatch == -1 && direction == 1 && curx == old(curx) && cury == old(cury) && rowOffset == old(rowOffset)
      ensures !(key == Char(CR) || key == EscKey) ==>
        direction == KeyEffect(old(SearchState(lastMatch, direction)), key).direction
      ensures !(key == Char(CR) || key == EscKey) ==>
        var m := Scan(Renders(), query, KeyEffect(old(SearchState(lastMatch, direction)), key));
        m.Some? ==>
          && lastMatch == m.value.row && cury == m.value.row && rowOffset == |rows|
          && curx == LogicalCol(rows[m.value.row].chars, m.value.offset)
      ensures !(key == Char(CR) || key == EscKey) ==>
        var st := KeyEffect(old(SearchState(lastMatch, direction)), key);
        Scan(Renders(), query, st).None? ==>
          lastMatch == st.lastMatch && curx == old(curx) && cury == old(cury) && rowOffset == old(rowOffset)
    {
      if key == Char(CR) || key == EscKey {
        lastMatch := -1;
        direction := 1;
        return;
      }
      var st := KeyEffect(SearchState(lastMatch, direction), key);
      lastMatch, direction := st.lastMatch, st.direction;
      var found := ScanRows(Renders(), query, st);
      if found.Some? {
        JumpTo(found.value);
      }
    }

    /** The match branch of `editor_find_callback`: remember the row and put the cursor on the match. */
    method JumpTo(m: Match)
      requires RowsValid() && m.row < |rows|
      modifies this`lastMatch, this`curx, this`cury, this`rowOffset
      ensures CursorValid()
      ensures lastMatch == m.row && cury == m.row && rowOffset == |rows|
      ensures curx == LogicalCol(rows[m.row].chars, m.offset)
    {
      lastMatch := m.row;
      cury := m.row;
      curx := RxToCurx(rows[m.row].chars, m.offset);
      rowOffset := |rows|;
    }

    /**
     * `editor_find`: a prompt session over `keys` in which every key is
     * passed to FindCallback; before each key the screen is refreshed, which
     * scrolls. On ESC the cursor and both offsets are put back.
     */
    method Find(keys: seq<Key>) returns (query: Option<seq<byte>>)
      requires Valid() && !Prompt.Run([], keys).outcome.Editing?
      modifies this`curx, this`cury, this`rx, this`rowOffset, this`colOffset, this`lastMatch, this`direction
      ensures Valid()
      ensures Prompt.Run([], keys).outcome.Accepted? ==> query == Some(Prompt.Run([], keys).outcome.line)
      ensures Prompt.Run([], keys).outcome.Cancelled? ==>
        query == None && curx == old(curx) && cury == old(cury)
        && colOffset == old(colOffset) && rowOffset == old(rowOffset)
    {
      var savedCurx, savedCury, savedColOffset, savedRowOffset := curx, cury, colOffset, rowOffset;
      var buf: seq<byte> := [];
      var i := 0;
      while i < |keys|
        invariant 0 <= i <= |keys|
        invariant RowsValid() && CursorValid() && StateFits(SearchState(lastMatch, direction), |rows|)
        invariant rowOffset >= 0 && colOffset >= 0
        invariant Prompt.Run([], keys).outcome == Prompt.Run(buf, keys[i..]).outcome
        decreases |keys| - i
      {
        var c := keys[i];
        assert keys[i..][0] == c && keys[i..][1..] == keys[i + 1..];
        i := i + 1;
        var o := Prompt.Step(buf, c);
        if o.Editing? {
          buf := o.buf;
        }
        RefreshAndSearch(buf, c);
        if o.Cancelled? {
          curx, cury, colOffset, rowOffset := savedCurx, savedCury, savedColOffset, savedRowOffset;
          return None;
        } else if o.Accepted? {
          return Some(buf);
        }
      }
      assert false;
    }

    /** One prompt key of `editor_find`: the screen refresh before it (its scroll), then the callback. */
    method RefreshAndSearch(query: seq<byte>, key: Key)
      requires RowsValid() && CursorValid() && StateFits(SearchState(lastMatch, direction), |rows|)
      requires rowOffset >= 0 && colOffset >= 0
      modifies this`curx, this`cury, this`rx, this`rowOffset, this`colOffset, this`lastMatch, this`direction
      ensures RowsValid() && CursorValid() && StateFits(SearchState(lastMatch, direction), |rows|)
      ensures rowOffset >= 0 && colOffset >= 0
      ensures key == Char(CR) || key == EscKey ==> lastMatch == -1 && direction == 1
    {
      Scroll();
      FindCallback(query, key);
    }

    /** The Page keys: jump to the top (bottom) line of the screen, then a screenful of Up (Down) moves. */
    method PageKey(up: bool)
      requires CursorValid() && screenRows > 0 && 0 <= rowOffset <= |rows|
      modifies this`curx, this`cury
      ensures CursorValid()
      ensures up ==> Cursor(curx, cury) == MoveTimes(Text(), Cursor(old(curx), old(rowOffset)), ArrowUp, screenRows)
      ensures up ==> cury == if rowOffset >= screenRows then rowOffset - screenRows else 0
      ensures !up ==>
        var top := Min(rowOffset + screenRows - 1, |rows|);
        && Cursor(curx, cury) == MoveTimes(Text(), Cursor(old(curx), top), ArrowDown, screenRows)
        && cury == Min(top + screenRows, |rows|)
    {
      if up {
        cury := rowOffset;
      } else {
        cury := rowOffset + screenRows - 1;
        if cury > |rows| {
          cury := |rows|;
        }
      }
      ghost var start := Cursor(curx, cury);
      assert !up ==> start.y == Min(rowOffset + screenRows - 1, |rows|);
      var key := if up then ArrowUp else ArrowDown;
      if up {
        MoveUpTimes(Text(), start, screenRows);
      } else {
        MoveDownTimes(Text(), start, screenRows);
      }
      RepeatMove(key, screenRows);
      assert Cursor(curx, cury) == MoveTimes(Text(), start, key, screenRows);
    }

    /** `while (times--) editor_move_cursor(key)`: `times` single-step moves. */
    method RepeatMove(key: Key, times: nat)
      requires 0 <= cury <= |rows| && curx >= 0
      modifies this`curx, this`cury
      ensures Cursor(curx, cury) == MoveTimes(Text(), old(Cursor(curx, cury)), key, times)
    {
      ghost var text := Text();
      ghost var start := Cursor(curx, cury);
      var n: nat := times;
      while n > 0
        invariant n <= times
        invariant 0 <= cury <= |rows| && curx >= 0 && Text() == text
        invariant MoveTimes(text, Cursor(curx, cury), key, n) == MoveTimes(text, start, key, times)
      {
        MoveCursor(key);
        n := n - 1;
      }
    }

    /** The keys of `editor_process_keypress` that edit: Enter, Backspace, Ctrl-H, DEL and the inserted bytes. */
    method EditKey(c: Key)
      requires RowsValid() && CursorValid()
      requires c == Char(CR) || c == Char(BACKSPACE) || c == Char(CtrlKey('h')) || c == Del || InsertsByte(c)
      modifies this`rows, this`modified, this`curx, this`cury
      ensures RowsValid() && CursorValid()
      ensures modified >= old(modified)
      ensures Text() != old(Text()) ==> modified > old(modified)
      ensures c == Char(CR) ==> Buf() == NewlineEdit(old(Buf()))
      ensures c == Char(BACKSPACE) || c == Char(CtrlKey('h')) ==> Buf() == DeleteEdit(old(Buf()))
      ensures c == Del ==>
        Buf() == DeleteEdit(Buffer(old(Text()), Move(old(Text()), old(Cursor(curx, cury)), ArrowRight)))
      ensures InsertsByte(c) ==> Buf() == InsertCharEdit(old(Buf()), c.b)
    {
      if c == Char(CR) {
        InsertNewline();
      } else if c == Char(BACKSPACE) || c == Char(CtrlKey('h')) || c == Del {
        if c == Del {
          MoveCursor(ArrowRight);
        }
        DelChar();
      } else {
        InsertChar(c.b);
      }
    }

    /** The keys of `editor_process_keypress` that only move the cursor: Home, End, the Page keys and the arrows. */
    method NavKey(c: Key)
      requires CursorValid()
      requires c == Home || c == End || c == PageUp || c == PageDown || IsArrow(c)
      requires c == PageUp || c == PageDown ==> screenRows > 0 && 0 <= rowOffset <= |rows|
      modifies this`curx, this`cury
      ensures CursorValid()
      ensures IsArrow(c) ==> Cursor(curx, cury) == Move(Text(), old(Cursor(curx, cury)), c)
      ensures c == Home ==> Cursor(curx, cury) == Cursor(0, old(cury))
      ensures c == End ==> Cursor(curx, cury) == Cursor(RowLen(Text(), old(cury)), old(cury))
      ensures c == PageUp ==> cury == if rowOffset >= screenRows then rowOffset - screenRows else 0
      ensures c == PageDown ==> cury == Min(Min(rowOffset + screenRows - 1, |rows|) + screenRows, |rows|)
    {
      if c == Home {
        curx := 0;
      } else if c == End {
        if cury < |rows| {
          curx := |rows[cury].chars|;
        }
      } else if c == PageUp || c == PageDown {
        PageKey(c == PageUp);
      } else {
        MoveCursor(c);
      }
    }

    /**
     * `editor_process_keypress` for the key `c`. `promptKeys` are the keys
     * read by the search prompt when `c` is Ctrl-F, and `saveSucceeded`
     * whether `editor_save` wrote the file when `c` is Ctrl-S. Returns
     * whether the editor exits. Ctrl-Q is handled here; the effect of every
     * other key is stated on DispatchKey.
     */
    method ProcessKeypress(c: Key, promptKeys: seq<Key>, saveSucceeded: bool) returns (exit: bool)
      requires Valid()
      requires c == Char(CtrlKey('f')) ==> !Prompt.Run([], promptKeys).outcome.Editing?
      requires c == PageUp || c == PageDown ==> screenRows > 0 && rowOffset <= |rows|
      modifies this`rows, this`modified, this`curx, this`cury, this`rx, this`rowOffset, this`colOffset
      modifies this`lastMatch, this`direction, this`quitTimes
      ensures !exit ==> Valid()
      ensures Text() != old(Text()) ==> modified > 0
      ensures c == Char(CtrlKey('q')) ==>
        && (exit <==> QuitStep(old(quitTimes), old(modified)).None?)
        && (!exit ==> quitTimes == old(quitTimes) - 1 && Buf() == old(Buf()))
      ensures c != Char(CtrlKey('q')) ==> !exit && quitTimes == QUIT_TIMES
    {
      if c == Char(CtrlKey('q')) {
        if modified != 0 && quitTimes > 0 {
          quitTimes := quitTimes - 1;
          return false;
        }
        return true;
      }
      DispatchKey(c, promptKeys, saveSucceeded);
      quitTimes := QUIT_TIMES;
      exit := false;
    }

    /**
     * The cases of `editor_process_keypress` other than Ctrl-Q: Ctrl-S
     * saves, Ctrl-F searches, Ctrl-L and ESC do nothing, the moving keys go
     * to NavKey and the editing keys to EditKey.
     */
    method DispatchKey(c: Key, promptKeys: seq<Key>, saveSucceeded: bool)
      requires Valid() && c != Char(CtrlKey('q'))
      requires c == Char(CtrlKey('f')) ==> !Prompt.Run([], promptKeys).outcome.Editing?
      requires c == PageUp || c == PageDown ==> screenRows > 0 && rowOffset <= |rows|
      modifies this`rows, this`modified, this`curx, this`cury, this`rx, this`rowOffset, this`colOffset
      modifies this`lastMatch, this`direction
      ensures Valid()
      ensures Text() != old(Text()) ==> modified > 0
      ensures c == Char(CtrlKey('s')) ==> Buf() == old(Buf()) && modified == if saveSucceeded then 0 else old(modified)
      ensures c == Char(CtrlKey('f')) ==> Text() == old(Text())
      ensures c == Char(CtrlKey('f')) && Prompt.Run([], promptKeys).outcome.Cancelled? ==>
        Buf() == old(Buf()) && rowOffset == old(rowOffset) && colOffset == old(colOffset)
      ensures c == Char(CtrlKey('l')) || c == EscKey ==> Buf() == old(Buf())
    {
      if c == Char(CtrlKey('s')) {
        if saveSucceeded {
          modified := 0;
        }
      } else if c == Char(CtrlKey('f')) {
        var _ := Find(promptKeys);
      } else if c == Char(CtrlKey('l')) || c == EscKey {
      } else {
        MoveOrEdit(c);
      }
    }

    /** The cursor-movement and editing cases of `editor_process_keypress`. */
    method MoveOrEdit(c: Key)
      requires Valid()
      requires c != Char(CtrlKey('q')) && c != Char(CtrlKey('s')) && c != Char(CtrlKey('f'))
      requires c != Char(CtrlKey('l')) && c != EscKey
      requires c == PageUp || c == PageDown ==> screenRows > 0 && rowOffset <= |rows|
      modifies this`rows, this`modified, this`curx, this`cury
      ensures Valid()
      ensures Text() != old(Text()) ==> modified > 0
      ensures !(c == Char(CR) || c == Char(BACKSPACE) || c == Char(CtrlKey('h')) || c == Del || InsertsByte(c)) ==>
        Text() == old(Text()) && modified == old(modified)
    {
      if c == Home || c == End || c == PageUp || c == PageDown || IsArrow(c) {
        NavKey(c);
      } else {
        EditKey(c);
      }
    }

    /**
     * One turn of the main loop: `editor_refresh_screen` (of which only the
     * scroll changes the state) and then `editor_process_keypress`. The
     * scroll establishes what the Page keys need.
     */
    method Turn(c: Key, promptKeys: seq<Key>, saveSucceeded: bool) returns (exit: bool)
      requires Valid() && screenRows > 0
      requires c == Char(CtrlKey('f')) ==> !Prompt.Run([], promptKeys).outcome.Editing?
      modifies this`rows, this`modified, this`curx, this`cury, this`rx, this`rowOffset, this`colOffset
      modifies this`lastMatch, this`direction, this`quitTimes
      ensures !exit ==> Valid()
      ensures Text() != old(Text()) ==> modified > 0
    {
      Scroll();
      exit := ProcessKeypress(c, promptKeys, saveSucceeded);
    }
  }
}
