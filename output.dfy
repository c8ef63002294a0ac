// The output side shared by ted.c and seggs.c: the append buffer that
// collects one frame of terminal output (`ab_append`), the viewport
// adjustment of `editor_scroll` along one axis, and the visible slice of a
// row in `editor_draw_rows`.
module Output {
  import opened Bytes

  /**
   * `struct AppendBuffer`: a heap block `b` of exactly `len` bytes, grown
   * by reallocation on every append.
   */
  class AppendBuffer {
    var b: array<byte>
    var len: nat

    predicate Valid()
      reads this
    {
      b.Length == len
    }

    function Contents(): seq<byte>
      reads this, b
    {
      b[..]
    }

    /** `APPEND_BUFFER_INIT`: an empty buffer. */
    constructor ()
      ensures Valid() && Contents() == []
    {
      b := new byte[0];
      len := 0;
    }

    /**
     * `ab_append`: reallocate to `len + |s|` bytes and copy `s` to the end.
     * `allocOk` is whether `realloc` succeeded; when it did not, the buffer
     * is left as it was.
     */
    method Append(s: seq<byte>, allocOk: bool)
      requires Valid()
      modifies this
      ensures Valid()
      ensures allocOk ==> Contents() == old(Contents()) + s && fresh(b)
      ensures !allocOk ==> b == old(b) && len == old(len)
    {
      if !allocOk {
        return;
      }
      var src, n := b, len;
      var nb := new byte[n + |s|];
      var i := 0;
      while i < n
        invariant i <= n
        invariant nb[..i] == src[..i]
      {
        nb[i] := src[i];
        i := i + 1;
      }
      i := 0;
      while i < |s|
        invariant i <= |s|
        invariant nb[..n] == src[..]
        invariant nb[n..n + i] == s[..i]
      {
        nb[n + i] := s[i];
        i := i + 1;
      }
      assert nb[..] == nb[..n] + nb[n..n + |s|];
      b := nb;
      len := n + |s|;
    }
  }

  /**
   * One axis of `editor_scroll`: pull the offset back to the cursor when the
   * cursor is above (left of) it, and forward so that the cursor is on the
   * last visible line (column) when it is past the window.
   */
  function ScrollAxis(offset: int, pos: int, size: int): (r: int)
    ensures size > 0 ==> r <= pos < r + size
    ensures offset >= 0 && pos >= 0 ==> r >= 0
    ensures offset <= pos < offset + size ==> r == offset
    ensures pos < offset ==> r == pos || (size <= 0 && r == pos - size + 1)
    ensures pos >= offset + size && size > 0 ==> r == pos - size + 1
  {
    var o := if pos < offset then pos else offset;
    if pos >= o + size then pos - size + 1 else o
  }

  /** The offset ScrollAxis settles on is a fixed point: scrolling twice changes nothing more. */
  lemma ScrollAxisIdempotent(offset: int, pos: int, size: int)
    requires size > 0
    ensures ScrollAxis(ScrollAxis(offset, pos, size), pos, size) == ScrollAxis(offset, pos, size)
  {
  }

  function Min(a: int, b: int): int
  {
    if a <= b then a else b
  }

  /** Number of render bytes `editor_draw_rows` shows: `rsize - colOffset`, clamped to `[0, screenCols]`. */
  function SliceLength(rsize: nat, colOffset: nat, screenCols: nat): (n: nat)
    ensures n <= screenCols
    ensures n > 0 ==> colOffset + n <= rsize
    ensures colOffset + screenCols <= rsize ==> n == screenCols
    ensures colOffset < rsize < colOffset + screenCols ==> n == rsize - colOffset
    ensures rsize <= colOffset ==> n == 0
  {
    if rsize <= colOffset then 0 else Min(rsize - colOffset, screenCols)
  }

  /** The part of a row's render form that `editor_draw_rows` writes to the screen. */
  function RowSlice(render: seq<byte>, colOffset: nat, screenCols: nat): (r: seq<byte>)
    ensures |r| == SliceLength(|render|, colOffset, screenCols) <= screenCols
  {
    var n := SliceLength(|render|, colOffset, screenCols);
    if n == 0 then [] else render[colOffset..colOffset + n]
  }

  /**
   * The visible window: screen column `i` shows render column
   * `colOffset + i`, and every render column from `colOffset` up to
   * `colOffset + screenCols` that exists is shown.
   */
  lemma RowSliceWindow(render: seq<byte>, colOffset: nat, screenCols: nat)
    ensures var r := RowSlice(render, colOffset, screenCols);
      && (forall i :: 0 <= i < |r| ==> r[i] == render[colOffset + i])
      && (forall rx :: colOffset <= rx < |render| && rx < colOffset + screenCols ==>
            rx - colOffset < |r| && r[rx - colOffset] == render[rx])
  {
  }
}
