// The edit engine and cursor movement of ted.c as values: a buffer is the
// text and the cursor, and each function is what one of
// `editor_insert_char`, `editor_insert_newline`, `editor_del_char` and
// `editor_move_cursor` does to it. The editor class in ted.dfy is proved
// against these functions.
module EditModel {
  import opened Bytes
  import opened Keys
  import opened RowStore

  /** `ec.curx` (a byte index into the row) and `ec.cury` (a row index). */
  datatype Cursor = Cursor(x: int, y: int)

  datatype Buffer = Buffer(text: Text, cur: Cursor)

  /** Length of row `y`, or 0 on the line past the last row. */
  function RowLen(text: Text, y: int): nat
  {
    if 0 <= y < |text| then |text[y]| else 0
  }

  /** The cursor is on a row or the line after the last one, and within that row's bytes. */
  predicate CursorIn(text: Text, c: Cursor)
  {
    0 <= c.y <= |text| && 0 <= c.x <= RowLen(text, c.y)
  }

  predicate Valid(b: Buffer)
  {
    CursorIn(b.text, b.cur)
  }

  /** `editor_insert_char`: on the line past the end a new empty row is made first. */
  function InsertCharEdit(b: Buffer, c: byte): (r: Buffer)
    requires Valid(b)
    ensures Valid(r)
    ensures r.cur == Cursor(b.cur.x + 1, b.cur.y)
    ensures b.cur.y < |b.text| ==> r.text == b.text[b.cur.y := InsertChar(b.text[b.cur.y], b.cur.x, c)]
    ensures b.cur.y == |b.text| ==> r.text == b.text + [[c]]
  {
    var t := if b.cur.y == |b.text| then InsertRow(b.text, |b.text|, []) else b.text;
    assert b.cur.y == |b.text| ==> t == b.text + [[]] && InsertChar([], b.cur.x, c) == [c];
    Buffer(t[b.cur.y := InsertChar(t[b.cur.y], b.cur.x, c)], Cursor(b.cur.x + 1, b.cur.y))
  }

  /**
   * `editor_insert_newline`: at column 0 an empty row is inserted above the
   * cursor's row; elsewhere the row is split at the cursor. Either way the
   * cursor goes to column 0 of the next row.
   */
  function NewlineEdit(b: Buffer): (r: Buffer)
    requires Valid(b)
    ensures Valid(r)
    ensures |r.text| == |b.text| + 1
    ensures r.cur == Cursor(0, b.cur.y + 1)
    ensures b.cur.y < |b.text| ==>
      r.text[b.cur.y] + r.text[b.cur.y + 1] == b.text[b.cur.y] && |r.text[b.cur.y]| == b.cur.x
    ensures forall i :: 0 <= i < b.cur.y ==> r.text[i] == b.text[i]
    ensures forall i :: b.cur.y + 1 < i < |r.text| ==> r.text[i] == b.text[i - 1]
    ensures b.cur.y == |b.text| ==> r.text == b.text + [[]]
  {
    var t := if b.cur.x == 0 then InsertRow(b.text, b.cur.y, []) else Split(b.text, b.cur.y, b.cur.x);
    Buffer(t, Cursor(0, b.cur.y + 1))
  }

  /**
   * `editor_del_char`: nothing on the line past the end or at the very
   * start; inside a row the byte before the cursor goes; at column 0 the
   * row is appended to the previous one and the cursor lands on the join.
   */
  function DeleteEdit(b: Buffer): (r: Buffer)
    requires Valid(b)
    ensures Valid(r)
    ensures b.cur.y == |b.text| || b.cur == Cursor(0, 0) ==> r == b
    ensures b.cur.y < |b.text| && b.cur.x > 0 ==>
      r == Buffer(b.text[b.cur.y := DeleteChar(b.text[b.cur.y], b.cur.x - 1)], Cursor(b.cur.x - 1, b.cur.y))
    ensures 0 < b.cur.y < |b.text| && b.cur.x == 0 ==>
      r.text == Join(b.text, b.cur.y) && r.cur == Cursor(|b.text[b.cur.y - 1]|, b.cur.y - 1)
  {
    var x, y, t := b.cur.x, b.cur.y, b.text;
    if y == |t| || (x == 0 && y == 0) then b
    else if x > 0 then Buffer(t[y := DeleteChar(t[y], x - 1)], Cursor(x - 1, y))
    else Buffer(Join(t, y), Cursor(|t[y - 1]|, y - 1))
  }

  /** Backspace right after Enter undoes it, cursor included. */
  lemma DeleteAfterNewline(b: Buffer)
    requires Valid(b) && b.cur.y < |b.text|
    ensures DeleteEdit(NewlineEdit(b)) == b
  {
    var y := b.cur.y;
    if b.cur.x == 0 {
      SplitAtZero(b.text, y);
    }
    JoinSplit(b.text, y, b.cur.x);
  }

  /** Backspace right after typing a byte on an existing row undoes it. */
  lemma DeleteAfterInsertChar(b: Buffer, c: byte)
    requires Valid(b) && b.cur.y < |b.text|
    ensures DeleteEdit(InsertCharEdit(b, c)) == b
  {
    var x, y := b.cur.x, b.cur.y;
    var r := InsertCharEdit(b, c);
    assert r == Buffer(b.text[y := InsertChar(b.text[y], x, c)], Cursor(x + 1, y));
    DeleteCharInsertChar(b.text[y], x, c);
    assert r.text[y := DeleteChar(r.text[y], x)] == b.text;
  }

  /** Typing on the line past the end leaves an empty row behind once the byte is erased. */
  lemma DeleteAfterInsertCharAtEnd(b: Buffer, c: byte)
    requires Valid(b) && b.cur.y == |b.text|
    ensures DeleteEdit(InsertCharEdit(b, c)) == Buffer(b.text + [[]], b.cur)
  {
    var r := InsertCharEdit(b, c);
    InsertAtEnd(b, c);
    DeleteLoneByte(r, c);
    assert r.text[..|r.text| - 1] == b.text;
  }

  /** Typing on the line past the end appends a row holding just that byte. */
  lemma InsertAtEnd(b: Buffer, c: byte)
    requires Valid(b) && b.cur.y == |b.text|
    ensures InsertCharEdit(b, c).text == b.text + [[c]]
    ensures InsertCharEdit(b, c).cur == Cursor(1, b.cur.y)
  {
    assert RowLen(b.text, b.cur.y) == 0;
  }

  /** Backspace after the only byte of the last row leaves that row empty. */
  lemma DeleteLoneByte(r: Buffer, c: byte)
    requires r.text != [] && r.text[|r.text| - 1] == [c] && r.cur == Cursor(1, |r.text| - 1)
    ensures DeleteEdit(r) == Buffer(r.text[..|r.text| - 1] + [[]], Cursor(0, |r.text| - 1))
  {
    var y := |r.text| - 1;
    assert DeleteChar([c], 0) == [];
    assert r.text[y := []] == r.text[..y] + [[]];
  }

  /**
   * `editor_move_cursor`: Left and Right step through the bytes and wrap
   * across row ends, Up and Down change the row, and the column is then
   * clamped to the new row's length; other keys only clamp.
   */
  function Move(text: Text, c: Cursor, key: Key): (r: Cursor)
    requires 0 <= c.y <= |text| && c.x >= 0
    ensures CursorIn(text, r)
    ensures CursorIn(text, c) && !(key.ArrowLeft? || key.ArrowRight? || key.ArrowUp? || key.ArrowDown?) ==> r == c
    ensures key.ArrowUp? ==> r.y == if c.y > 0 then c.y - 1 else 0
    ensures key.ArrowDown? ==> r.y == if c.y < |text| then c.y + 1 else c.y
    ensures key.ArrowUp? || key.ArrowDown? ==> r.x == if c.x > RowLen(text, r.y) then RowLen(text, r.y) else c.x
    ensures CursorIn(text, c) && key.ArrowLeft? && c.x > 0 ==> r == Cursor(c.x - 1, c.y)
    ensures CursorIn(text, c) && key.ArrowLeft? && c.x == 0 && c.y > 0 ==> r == Cursor(|text[c.y - 1]|, c.y - 1)
    ensures CursorIn(text, c) && key.ArrowRight? && c.y < |text| && c.x < |text[c.y]| ==> r == Cursor(c.x + 1, c.y)
    ensures CursorIn(text, c) && key.ArrowRight? && c.y < |text| && c.x == |text[c.y]| ==> r == Cursor(0, c.y + 1)
    ensures CursorIn(text, c) && key.ArrowLeft? && c == Cursor(0, 0) ==> r == c
    ensures CursorIn(text, c) && key.ArrowRight? && c.y == |text| ==> r == c
  {
    Snap(text, Step(text, c, key))
  }

  /** The `switch` of `editor_move_cursor`: one step, wrapping at the row ends. */
  function Step(text: Text, c: Cursor, key: Key): (r: Cursor)
    requires 0 <= c.y <= |text| && c.x >= 0
    ensures 0 <= r.y <= |text| && r.x >= 0
    ensures key.ArrowLeft? && c.x != 0 ==> r == Cursor(c.x - 1, c.y)
    ensures key.ArrowLeft? && c.x == 0 && c.y > 0 ==> r == Cursor(|text[c.y - 1]|, c.y - 1)
    ensures key.ArrowRight? && c.y < |text| && c.x < |text[c.y]| ==> r == Cursor(c.x + 1, c.y)
    ensures key.ArrowRight? && c.y < |text| && c.x == |text[c.y]| ==> r == Cursor(0, c.y + 1)
    ensures (key.ArrowUp? || key.ArrowDown?) ==> r.x == c.x
  {
    match key
    case ArrowLeft =>
      if c.x != 0 then Cursor(c.x - 1, c.y)
      else if c.y > 0 then Cursor(|text[c.y - 1]|, c.y - 1)
      else c
    case ArrowRight =>
      if c.y < |text| && c.x < |text[c.y]| then Cursor(c.x + 1, c.y)
      else if c.y < |text| && c.x == |text[c.y]| then Cursor(0, c.y + 1)
      else c
    case ArrowUp => Cursor(c.x, if c.y != 0 then c.y - 1 else c.y)
    case ArrowDown => Cursor(c.x, if c.y < |text| then c.y + 1 else c.y)
    case _ => c
  }

  /** The end of `editor_move_cursor`: a column past the new row's end snaps to it. */
  function Snap(text: Text, c: Cursor): Cursor
  {
    Cursor(if c.x > RowLen(text, c.y) then RowLen(text, c.y) else c.x, c.y)
  }

  /** Right then Left returns to the same place, unless the cursor is already past the last row. */
  lemma RightThenLeft(text: Text, c: Cursor)
    requires CursorIn(text, c) && c.y < |text|
    ensures Move(text, Move(text, c, ArrowRight), ArrowLeft) == c
  {
  }

  /** Left then Right returns to the same place, unless the cursor is at the very start. */
  lemma LeftThenRight(text: Text, c: Cursor)
    requires CursorIn(text, c) && c != Cursor(0, 0)
    ensures Move(text, Move(text, c, ArrowLeft), ArrowRight) == c
  {
  }

  /** `n` single-step moves with the same key, as the Page keys make them. */
  function MoveTimes(text: Text, c: Cursor, key: Key, n: nat): (r: Cursor)
    requires 0 <= c.y <= |text| && c.x >= 0
    ensures n > 0 ==> CursorIn(text, r)
    decreases n
  {
    if n == 0 then c else MoveTimes(text, Move(text, c, key), key, n - 1)
  }

  /** `n` Up moves land `n` rows higher, or on row 0. */
  lemma {:induction false} MoveUpTimes(text: Text, c: Cursor, n: nat)
    requires 0 <= c.y <= |text| && c.x >= 0
    ensures MoveTimes(text, c, ArrowUp, n).y == if c.y >= n then c.y - n else 0
    decreases n
  {
    if n > 0 {
      MoveUpTimes(text, Move(text, c, ArrowUp), n - 1);
    }
  }

  /** `n` Down moves land `n` rows lower, or on the line past the last row. */
  lemma {:induction false} MoveDownTimes(text: Text, c: Cursor, n: nat)
    requires 0 <= c.y <= |text| && c.x >= 0
    ensures MoveTimes(text, c, ArrowDown, n).y == if c.y + n <= |text| then c.y + n else |text|
    decreases n
  {
    if n > 0 {
      MoveDownTimes(text, Move(text, c, ArrowDown), n - 1);
    }
  }
}
