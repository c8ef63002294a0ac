// seggs.c, the simpler variant of the engine: rows are appended only (at
// load time), the cursor moves freely within the screen width, and the
// frame is drawn from the raw row bytes without a render form.
module SeggsEditor {
  import opened Bytes
  import opened Keys
  import opened TextFile
  import opened Output
  import opened EditModel

  const TILDE: byte := 126

  /** The welcome text, `"Seggs editor -- version %s"` with `EDITOR_VERSION` "4.20.69". */
  const WELCOME: seq<byte> := Ascii("Seggs editor -- version 4.20.69")

  /** EL, Erase in Line (section 8.3.41 of ECMA-48): `ESC [ K`. */
  const EL: seq<byte> := [ESC, 91, 75]

  const CRLF: seq<byte> := [CR, LF]

  lemma WelcomeHasNoLF()
    ensures NoLF(WELCOME) && |WELCOME| == 31
  {
    var s := "Seggs editor -- version 4.20.69";
    assert forall j :: 0 <= j < |s| ==> s[j] != '\n';
  }

  /**
   * The welcome line: the text cut to the screen width, centred by padding
   * whose first column is a tilde.
   */
  function WelcomeLine(screenCols: nat): (r: seq<byte>)
  {
    var wl := Min(|WELCOME|, screenCols);
    var padding := (screenCols - wl) / 2;
    (if padding > 0 then [TILDE] + Spaces(padding - 1) else []) + WELCOME[..wl]
  }

  /** What `editor_draw_rows` puts on screen line `y`, before the erase and the line break. */
  function ScreenLine(rows: seq<seq<byte>>, rowOffset: nat, screenRows: nat, screenCols: nat, y: nat): seq<byte>
  {
    var fileRow := y + rowOffset;
    if fileRow >= |rows| then
      if |rows| == 0 && y == screenRows / 3 then WelcomeLine(screenCols) else [TILDE]
    else
      rows[fileRow][..Min(|rows[fileRow]|, screenCols)]
  }

  /** Screen line `y` as emitted: its text, EL, and `\r\n` unless it is the last line. */
  function Piece(rows: seq<seq<byte>>, rowOffset: nat, screenRows: nat, screenCols: nat, y: nat): seq<byte>
  {
    ScreenLine(rows, rowOffset, screenRows, screenCols, y) + EL + (if y + 1 < screenRows then CRLF else [])
  }

  /** The first `n` screen lines as emitted. */
  function Drawn(rows: seq<seq<byte>>, rowOffset: nat, screenRows: nat, screenCols: nat, n: nat): seq<byte>
  {
    if n == 0 then [] else Drawn(rows, rowOffset, screenRows, screenCols, n - 1) + Piece(rows, rowOffset, screenRows, screenCols, n - 1)
  }

  function CountLF(s: seq<byte>): (n: nat)
    ensures n <= |s|
  {
    if s == [] then 0 else CountLF(s[..|s| - 1]) + (if s[|s| - 1] == LF then 1 else 0)
  }

  lemma {:induction false} CountLFConcat(a: seq<byte>, b: seq<byte>)
    ensures CountLF(a + b) == CountLF(a) + CountLF(b)
    decreases |b|
  {
    if b != [] {
      assert (a + b)[..|a + b| - 1] == a + b[..|b| - 1];
      CountLFConcat(a, b[..|b| - 1]);
    } else {
      assert a + b == a;
    }
  }

  lemma {:induction false} CountLFNone(s: seq<byte>)
    requires NoLF(s)
    ensures CountLF(s) == 0
    decreases |s|
  {
    if s != [] {
      CountLFNone(s[..|s| - 1]);
    }
  }

  /** Every screen line fits the screen width. */
  lemma LineFits(rows: seq<seq<byte>>, rowOffset: nat, screenRows: nat, screenCols: nat, y: nat)
    requires screenCols >= 1
    ensures |ScreenLine(rows, rowOffset, screenRows, screenCols, y)| <= screenCols
  {
    var wl := Min(|WELCOME|, screenCols);
    var padding := (screenCols - wl) / 2;
    assert |WelcomeLine(screenCols)| == padding + wl;
  }

  lemma ScreenLineHasNoLF(rows: seq<seq<byte>>, rowOffset: nat, screenRows: nat, screenCols: nat, y: nat)
    requires forall i :: 0 <= i < |rows| ==> NoLF(rows[i])
    ensures NoLF(ScreenLine(rows, rowOffset, screenRows, screenCols, y))
  {
    WelcomeHasNoLF();
    var w := WelcomeLine(screenCols);
    var wl := Min(|WELCOME|, screenCols);
    var padding := (screenCols - wl) / 2;
    var pad := if padding > 0 then [TILDE] + Spaces(padding - 1) else [];
    assert w == pad + WELCOME[..wl];
    assert forall j :: 0 <= j < |pad| ==> pad[j] != LF;
    assert NoLF(w) by {
      forall j | 0 <= j < |w| ensures w[j] != LF {
        if j >= |pad| {
          assert w[j] == WELCOME[j - |pad|];
        }
      }
    }
  }

  /** Screen line `y` as emitted carries one line break, none if it is the screen's last line. */
  lemma PieceLineBreaks(rows: seq<seq<byte>>, rowOffset: nat, screenRows: nat, screenCols: nat, y: nat)
    requires forall i :: 0 <= i < |rows| ==> NoLF(rows[i])
    ensures CountLF(Piece(rows, rowOffset, screenRows, screenCols, y)) == if y + 1 < screenRows then 1 else 0
  {
    var line := ScreenLine(rows, rowOffset, screenRows, screenCols, y);
    ScreenLineHasNoLF(rows, rowOffset, screenRows, screenCols, y);
    CountLFNone(line);
    CountLFNone(EL);
    var tail := if y + 1 < screenRows then CRLF else [];
    CountLFConcat(line, EL);
    CountLFConcat(line + EL, tail);
    assert CountLF(CRLF) == 1 by {
      assert CRLF[..1] == [CR] && [CR][..0] == [];
    }
  }

  /**
   * When no row holds a `\n`, the first `n` lines carry exactly `n - 1`
   * line breaks (`n` when the last one is not the screen's last line).
   */
  lemma {:induction false} DrawnLineBreaks(rows: seq<seq<byte>>, rowOffset: nat, screenRows: nat, screenCols: nat, n: nat)
    requires forall i :: 0 <= i < |rows| ==> NoLF(rows[i])
    requires n <= screenRows
    ensures n < screenRows ==> CountLF(Drawn(rows, rowOffset, screenRows, screenCols, n)) == n
    ensures 0 < n == screenRows ==> CountLF(Drawn(rows, rowOffset, screenRows, screenCols, n)) == n - 1
  {
    if n > 0 {
      DrawnLineBreaks(rows, rowOffset, screenRows, screenCols, n - 1);
      DrawnStep(rows, rowOffset, screenRows, screenCols, n);
      assert n - 1 < screenRows;
    } else {
      assert Drawn(rows, rowOffset, screenRows, screenCols, n) == [];
    }
  }

  /** Line `n - 1` adds one line break to the first `n - 1` lines, none if it is the screen's last. */
  lemma DrawnStep(rows: seq<seq<byte>>, rowOffset: nat, screenRows: nat, screenCols: nat, n: nat)
    requires forall i :: 0 <= i < |rows| ==> NoLF(rows[i])
    requires 0 < n
    ensures CountLF(Drawn(rows, rowOffset, screenRows, screenCols, n))
      == CountLF(Drawn(rows, rowOffset, screenRows, screenCols, n - 1)) + (if n < screenRows then 1 else 0)
  {
    var y: nat := n - 1;
    var d := Drawn(rows, rowOffset, screenRows, screenCols, y);
    var p := Piece(rows, rowOffset, screenRows, screenCols, y);
    assert Drawn(rows, rowOffset, screenRows, screenCols, n) == d + p;
    CountLFConcat(d, p);
    PieceLineBreaks(rows, rowOffset, screenRows, screenCols, y);
  }

  /**
   * The whole frame of `screenRows` lines holds `screenRows - 1` line
   * breaks and ends with EL: `\r\n` goes between lines, never after the last.
   */
  lemma FrameShape(rows: seq<seq<byte>>, rowOffset: nat, screenRows: nat, screenCols: nat)
    requires forall i :: 0 <= i < |rows| ==> NoLF(rows[i])
    requires screenRows > 0
    ensures var f := Drawn(rows, rowOffset, screenRows, screenCols, screenRows);
      CountLF(f) == screenRows - 1 && |f| >= 3 && f[|f| - 3..] == EL
  {
    DrawnLineBreaks(rows, rowOffset, screenRows, screenCols, screenRows);
    var d := Drawn(rows, rowOffset, screenRows, screenCols, screenRows - 1);
    var line := ScreenLine(rows, rowOffset, screenRows, screenCols, screenRows - 1);
    assert Piece(rows, rowOffset, screenRows, screenCols, screenRows - 1) == line + EL + [];
    assert Drawn(rows, rowOffset, screenRows, screenCols, screenRows) == (d + line) + EL;
    EndsWith(d + line, EL);
  }

  lemma EndsWith(a: seq<byte>, b: seq<byte>)
    ensures (a + b)[|a + b| - |b|..] == b
  {
  }

  /** `editor_move_cursor` of seggs.c: no wrapping and no row-length clamp. */
  function MoveStep(c: Cursor, numRows: nat, screenCols: int, key: Key): (r: Cursor)
    ensures key.ArrowLeft? || key.ArrowRight? ==> r.y == c.y
    ensures key.ArrowUp? || key.ArrowDown? ==> r.x == c.x
    ensures !(key.ArrowLeft? || key.ArrowRight? || key.ArrowUp? || key.ArrowDown?) ==> r == c
    ensures 0 <= c.x < screenCols ==> 0 <= r.x < screenCols
    ensures 0 <= c.y <= numRows ==> 0 <= r.y <= numRows
  {
    match key
    case ArrowLeft => if c.x != 0 then Cursor(c.x - 1, c.y) else c
    case ArrowRight => if c.x != screenCols - 1 then Cursor(c.x + 1, c.y) else c
    case ArrowUp => if c.y != 0 then Cursor(c.x, c.y - 1) else c
    case ArrowDown => if c.y < numRows then Cursor(c.x, c.y + 1) else c
    case _ => c
  }

  function MoveSteps(c: Cursor, numRows: nat, screenCols: int, key: Key, n: nat): Cursor
    decreases n
  {
    if n == 0 then c else MoveSteps(MoveStep(c, numRows, screenCols, key), numRows, screenCols, key, n - 1)
  }

  /** A Page key's `n` moves land `n` rows up or down, stopping at row 0 or at the line past the last row. */
  lemma {:induction false} PageMoves(c: Cursor, numRows: nat, screenCols: int, n: nat)
    requires 0 <= c.y <= numRows
    ensures MoveSteps(c, numRows, screenCols, ArrowUp, n) == Cursor(c.x, if c.y >= n then c.y - n else 0)
    ensures MoveSteps(c, numRows, screenCols, ArrowDown, n) == Cursor(c.x, if c.y + n <= numRows then c.y + n else numRows)
    decreases n
  {
    if n > 0 {
      PageMoves(MoveStep(c, numRows, screenCols, ArrowUp), numRows, screenCols, n - 1);
      PageMoves(MoveStep(c, numRows, screenCols, ArrowDown), numRows, screenCols, n - 1);
    }
  }

  /** The state of seggs.c's global `ec` that the engine uses. */
  class Editor {
    var screenRows: int
    var screenCols: int
    var curx: int
    var cury: int
    var rowOffset: int
    var rows: seq<seq<byte>>

    predicate Valid()
      reads this
    {
      && screenRows >= 0 && screenCols >= 1
      && 0 <= curx < screenCols && 0 <= cury <= |rows| && rowOffset >= 0
    }

    /** `init_editor` on a terminal of `windowRows` by `windowCols` (the terminal reports at least one column). */
    constructor (windowRows: int, windowCols: int)
      requires windowRows >= 0 && windowCols >= 1
      ensures Valid() && rows == [] && curx == 0 && cury == 0 && rowOffset == 0
      ensures screenRows == windowRows && screenCols == windowCols
    {
      screenRows, screenCols := windowRows, windowCols;
      curx, cury, rowOffset := 0, 0, 0;
      rows := [];
    }

    /** `editor_append_row`: `s` becomes the new last row. */
    method AppendRow(s: seq<byte>)
      modifies this`rows
      ensures |rows| == old(|rows|) + 1
      ensures rows[|rows| - 1] == s
      ensures rows[..|rows| - 1] == old(rows)
    {
      rows := rows + [s];
    }

    /** `editor_open` over the lines `getline` returns: each is stripped of its line end and appended. */
    method Open(lines: seq<seq<byte>>)
      modifies this`rows
      ensures rows == old(rows) + OpenedRows(lines)
    {
      var i := 0;
      while i < |lines|
        invariant i <= |lines|
        invariant rows == old(rows) + OpenedRows(lines[..i])
      {
        var line := lines[i];
        var lineLen := StripLineEnd(line);
        AppendRow(line[..lineLen]);
        OpenedRowsSnoc(lines, i);
        i := i + 1;
      }
      assert lines[..i] == lines;
    }

    /** `editor_scroll` of seggs.c: the row offset only. */
    method Scroll()
      modifies this`rowOffset
      ensures rowOffset == ScrollAxis(old(rowOffset), cury, screenRows)
    {
      if cury < rowOffset {
        rowOffset := cury;
      }
      if cury >= rowOffset + screenRows {
        rowOffset := cury - screenRows + 1;
      }
    }

    /** `editor_draw_rows` of seggs.c, every allocation succeeding. */
    method DrawRows(ab: AppendBuffer)
      requires Valid() && ab.Valid()
      modifies ab
      ensures ab.Valid()
      ensures ab.Contents() == old(ab.Contents()) + Drawn(rows, rowOffset, screenRows, screenCols, screenRows)
    {
      ghost var start := ab.Contents();
      var y := 0;
      while y < screenRows
        invariant 0 <= y <= screenRows
        invariant ab.Valid()
        invariant ab.Contents() == start + Drawn(rows, rowOffset, screenRows, screenCols, y)
      {
        DrawLine(ab, y);
        assert Drawn(rows, rowOffset, screenRows, screenCols, y + 1)
            == Drawn(rows, rowOffset, screenRows, screenCols, y) + Piece(rows, rowOffset, screenRows, screenCols, y);
        y := y + 1;
      }
    }

    /** One iteration of the loop of `editor_draw_rows`: screen line `y`. */
    method DrawLine(ab: AppendBuffer, y: nat)
      requires Valid() && ab.Valid()
      modifies ab
      ensures ab.Valid()
      ensures ab.Contents() == old(ab.Contents()) + Piece(rows, rowOffset, screenRows, screenCols, y)
    {
      DrawText(ab, y);
      ab.Append(EL, true);
      if y < screenRows - 1 {
        ab.Append(CRLF, true);
      }
    }

    /** The text of screen line `y`: a tilde, the welcome line or the visible part of a file row. */
    method DrawText(ab: AppendBuffer, y: nat)
      requires Valid() && ab.Valid()
      modifies ab
      ensures ab.Valid()
      ensures ab.Contents() == old(ab.Contents()) + ScreenLine(rows, rowOffset, screenRows, screenCols, y)
    {
      var fileRow := y + rowOffset;
      if fileRow >= |rows| {
        if |rows| == 0 && y == screenRows / 3 {
          DrawWelcome(ab);
        } else {
          ab.Append([TILDE], true);
        }
      } else {
        var len := |rows[fileRow]|;
        if len > screenCols {
          len := screenCols;
        }
        ab.Append(rows[fileRow][..len], true);
      }
    }

    /** The welcome branch of `editor_draw_rows`: the padding, a byte at a time, then the text. */
    method DrawWelcome(ab: AppendBuffer)
      requires screenCols >= 1 && ab.Valid()
      modifies ab
      ensures ab.Valid()
      ensures ab.Contents() == old(ab.Contents()) + WelcomeLine(screenCols)
    {
      var welcomeLen := |WELCOME|;
      if welcomeLen > screenCols {
        welcomeLen := screenCols;
      }
      var padding := (screenCols - welcomeLen) / 2;
      DrawPadding(ab, padding);
      ab.Append(WELCOME[..welcomeLen], true);
    }

    /** The centring padding of the welcome line: a tilde, then spaces, `padding` bytes in all. */
    method DrawPadding(ab: AppendBuffer, padding: nat)
      requires ab.Valid()
      modifies ab
      ensures ab.Valid()
      ensures ab.Contents() == old(ab.Contents()) + (if padding > 0 then [TILDE] + Spaces(padding - 1) else [])
    {
      if padding == 0 {
        return;
      }
      ghost var start := ab.Contents();
      ab.Append([TILDE], true);
      var left := padding - 1;
      while left > 0
        invariant 0 <= left < padding && ab.Valid()
        invariant ab.Contents() == start + [TILDE] + Spaces(padding - 1 - left)
      {
        ab.Append([SPACE], true);
        left := left - 1;
        assert Spaces(padding - 1 - left) == Spaces(padding - 1 - left - 1) + [SPACE];
      }
    }

    /** `editor_move_cursor` of seggs.c. */
    method MoveCursor(key: Key)
      modifies this`curx, this`cury
      ensures Cursor(curx, cury) == MoveStep(old(Cursor(curx, cury)), |rows|, screenCols, key)
    {
      match key {
        case ArrowLeft =>
          if curx != 0 {
            curx := curx - 1;
          }
        case ArrowRight =>
          if curx != screenCols - 1 {
            curx := curx + 1;
          }
        case ArrowUp =>
          if cury != 0 {
            cury := cury - 1;
          }
        case ArrowDown =>
          if cury < |rows| {
            cury := cury + 1;
          }
        case _ =>
      }
    }

    /**
     * `editor_process_keypress` of seggs.c: Ctrl-Q exits, Home and End go to
     * the first and last screen column, a Page key makes a screenful of Up
     * or Down moves, the arrows move; every other key is ignored.
     */
    method ProcessKeypress(c: Key) returns (exit: bool)
      requires Valid()
      modifies this`curx, this`cury
      ensures Valid()
      ensures exit <==> c == Char(CtrlKey('q'))
      ensures c == Home ==> curx == 0 && cury == old(cury)
      ensures c == End ==> curx == screenCols - 1 && cury == old(cury)
      ensures c == PageUp ==> curx == old(curx) && cury == if old(cury) >= screenRows then old(cury) - screenRows else 0
      ensures c == PageDown ==> curx == old(curx) && cury == if old(cury) + screenRows <= |rows| then old(cury) + screenRows else |rows|
      ensures c.ArrowLeft? || c.ArrowRight? || c.ArrowUp? || c.ArrowDown? ==>
        Cursor(curx, cury) == MoveStep(old(Cursor(curx, cury)), |rows|, screenCols, c)
      ensures !exit && !(c == Home || c == End || c == PageUp || c == PageDown || c.ArrowLeft? || c.ArrowRight? || c.ArrowUp? || c.ArrowDown?) ==>
        curx == old(curx) && cury == old(cury)
    {
      if c == Char(CtrlKey('q')) {
        return true;
      }
      if c == Home {
        curx := 0;
      } else if c == End {
        curx := screenCols - 1;
      } else if c == PageUp || c == PageDown {
        var key := if c == PageUp then ArrowUp else ArrowDown;
        PageMoves(Cursor(curx, cury), |rows|, screenCols, screenRows);
        RepeatMove(key, screenRows);
      } else if c.ArrowLeft? || c.ArrowRight? || c.ArrowUp? || c.ArrowDown? {
        MoveCursor(c);
      }
      exit := false;
    }

    /** `while (times--) editor_move_cursor(key)`. */
    method RepeatMove(key: Key, times: nat)
      modifies this`curx, this`cury
      ensures Cursor(curx, cury) == MoveSteps(old(Cursor(curx, cury)), |rows|, screenCols, key, times)
    {
      ghost var start := Cursor(curx, cury);
      var n: nat := times;
      while n > 0
        invariant n <= times
        invariant MoveSteps(Cursor(curx, cury), |rows|, screenCols, key, n) == MoveSteps(start, |rows|, screenCols, key, times)
      {
        MoveCursor(key);
        n := n - 1;
      }
    }
  }
}
