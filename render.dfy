// Row render derivation and the two column maps of ted.c: a row's render
// form replaces each tab by spaces up to the next multiple of the tab stop;
// `editor_row_curx_to_rx` and `editor_row_rx_to_curx` translate between a
// logical column (an index into the row's bytes) and a render column.
module RowRender {
  import opened Bytes

  const TAB_STOP: nat := 8

  /** The render column that follows byte `c` when it starts at render column `rx`. */
  function NextCol(rx: nat, c: byte): (r: nat)
    ensures c != TAB ==> r == rx + 1
    ensures c == TAB ==> rx < r <= rx + TAB_STOP && r % TAB_STOP == 0
  {
    if c == TAB then rx + TAB_STOP - rx % TAB_STOP else rx + 1
  }

  /** Number of tab bytes among the first `n` bytes of `chars`. */
  function TabsIn(chars: seq<byte>, n: nat): (t: nat)
    requires n <= |chars|
    ensures t <= n
  {
    if n == 0 then 0 else TabsIn(chars, n - 1) + (if chars[n - 1] == TAB then 1 else 0)
  }

  /**
   * The render column of logical column `curx`: each byte advances it by
   * one, each tab to the next multiple of the tab stop.
   */
  function RenderCol(chars: seq<byte>, curx: nat): (rx: nat)
    requires curx <= |chars|
    ensures curx <= rx <= curx + (TAB_STOP - 1) * TabsIn(chars, curx)
  {
    if curx == 0 then 0 else NextCol(RenderCol(chars, curx - 1), chars[curx - 1])
  }

  /** What one byte becomes in the render form when it lands at render column `at`. */
  function Expand(at: nat, c: byte): (r: seq<byte>)
    ensures c != TAB ==> r == [c]
    ensures c == TAB ==> 1 <= |r| <= TAB_STOP && (at + |r|) % TAB_STOP == 0
    ensures c == TAB ==> forall i :: 0 <= i < |r| ==> r[i] == SPACE
    ensures at + |r| == NextCol(at, c)
  {
    if c == TAB then Spaces(TAB_STOP - at % TAB_STOP) else [c]
  }

  /** The render form of the first `n` bytes of `chars`. */
  function RenderPrefix(chars: seq<byte>, n: nat): (r: seq<byte>)
    requires n <= |chars|
    ensures |r| == RenderCol(chars, n)
    ensures forall i :: 0 <= i < |r| ==> r[i] != TAB
  {
    if n == 0 then []
    else
      var p := RenderPrefix(chars, n - 1);
      p + Expand(|p|, chars[n - 1])
  }

  /** The render form of a whole row. */
  function Render(chars: seq<byte>): (r: seq<byte>)
    ensures |r| == RenderCol(chars, |chars|)
    ensures |chars| <= |r|
    ensures forall i :: 0 <= i < |r| ==> r[i] != TAB
  {
    RenderPrefix(chars, |chars|)
  }

  lemma {:induction false} RenderPrefixGrows(chars: seq<byte>, n: nat, m: nat)
    requires n <= m <= |chars|
    ensures RenderPrefix(chars, n) <= RenderPrefix(chars, m)
    decreases m - n
  {
    if n < m {
      RenderPrefixGrows(chars, n, m - 1);
    }
  }

  /** Render columns grow strictly from one logical column to the next. */
  lemma {:induction false} RenderColStrict(chars: seq<byte>, i: nat, j: nat)
    requires i < j <= |chars|
    ensures RenderCol(chars, i) < RenderCol(chars, j)
    decreases j - i
  {
    if i + 1 < j {
      RenderColStrict(chars, i, j - 1);
    }
  }

  lemma RenderColMono(chars: seq<byte>, i: nat, j: nat)
    requires i <= j <= |chars|
    ensures RenderCol(chars, i) <= RenderCol(chars, j)
  {
    if i < j { RenderColStrict(chars, i, j); }
  }

  /**
   * The layout of the render form: it holds no tab; its length `rsize` is
   * the render column of the row's end and lies between `size` and
   * `size + 7 * tabs`; a non-tab byte `j` is copied to render column
   * `RenderCol(chars, j)`, and a tab fills its columns with spaces up to a
   * multiple of the tab stop.
   */
  lemma {:induction false} RenderLayout(chars: seq<byte>, j: nat)
    requires j < |chars|
    ensures var r := Render(chars);
      && (forall i :: 0 <= i < |r| ==> r[i] != TAB)
      && |r| == RenderCol(chars, |chars|)
      && |chars| <= |r| <= |chars| + (TAB_STOP - 1) * TabsIn(chars, |chars|)
      && RenderCol(chars, j + 1) <= |r|
      && (chars[j] != TAB ==>
            RenderCol(chars, j + 1) == RenderCol(chars, j) + 1 && r[RenderCol(chars, j)] == chars[j])
      && (chars[j] == TAB ==>
            RenderCol(chars, j + 1) % TAB_STOP == 0 &&
            forall i :: RenderCol(chars, j) <= i < RenderCol(chars, j + 1) ==> r[i] == SPACE)
  {
    RenderPrefixGrows(chars, j + 1, |chars|);
    var p := RenderPrefix(chars, j);
    var q := RenderPrefix(chars, j + 1);
    assert q == p + Expand(|p|, chars[j]);
    assert forall i :: 0 <= i < |q| ==> Render(chars)[i] == q[i];
  }

  /**
   * The logical column whose byte covers render column `rx`, looking from
   * logical column `k` on: the first `c` whose render column after it
   * passes `rx`, or the row's size when none does.
   */
  function LogicalColFrom(chars: seq<byte>, rx: int, k: nat): (c: nat)
    requires k <= |chars|
    ensures k <= c <= |chars|
    ensures c < |chars| ==> RenderCol(chars, c + 1) > rx
    ensures forall j :: k < j <= c ==> RenderCol(chars, j) <= rx
    decreases |chars| - k
  {
    if k == |chars| then k
    else if RenderCol(chars, k + 1) > rx then k
    else LogicalColFrom(chars, rx, k + 1)
  }

  /** Logical column of render column `rx` (see LogicalColFrom). */
  function LogicalCol(chars: seq<byte>, rx: int): (c: nat)
    ensures c <= |chars|
    ensures c < |chars| ==> RenderCol(chars, c + 1) > rx
    ensures forall j :: 0 < j <= c ==> RenderCol(chars, j) <= rx
  {
    LogicalColFrom(chars, rx, 0)
  }

  /** A render column inside the row falls within its logical column's expansion. */
  lemma CoveringColumn(chars: seq<byte>, rx: int)
    requires 0 <= rx < |Render(chars)|
    ensures var c := LogicalCol(chars, rx);
      c < |chars| && RenderCol(chars, c) <= rx < RenderCol(chars, c + 1)
  {
    assert RenderCol(chars, |chars|) == |Render(chars)|;
  }

  /**
   * Column round trip: the logical column of the render column of `c` is
   * `c`, for every `c` from 0 to the row's size.
   */
  lemma ColumnRoundTrip(chars: seq<byte>, c: nat)
    requires c <= |chars|
    ensures LogicalCol(chars, RenderCol(chars, c)) == c
  {
    var rx := RenderCol(chars, c);
    var d := LogicalCol(chars, rx);
    if d < c {
      RenderColMono(chars, d + 1, c);
    } else if d > c {
      RenderColStrict(chars, c, c + 1);
    }
  }

  /** Any render column at or past the render size maps to the row's size. */
  lemma LogicalColPastEnd(chars: seq<byte>, rx: int)
    requires rx >= |Render(chars)|
    ensures LogicalCol(chars, rx) == |chars|
  {
    var d := LogicalCol(chars, rx);
    if d < |chars| {
      RenderColMono(chars, d + 1, |chars|);
    }
  }

  /** `editor_row_curx_to_rx`: the accumulator loop over the first `curx` bytes. */
  method CurxToRx(chars: seq<byte>, curx: nat) returns (rx: nat)
    requires curx <= |chars|
    ensures rx == RenderCol(chars, curx)
  {
    rx := 0;
    var j := 0;
    while j < curx
      invariant j <= curx
      invariant rx == RenderCol(chars, j)
    {
      if chars[j] == TAB {
        rx := rx + (TAB_STOP - 1) - rx % TAB_STOP;
      }
      rx := rx + 1;
      j := j + 1;
    }
  }

  /** `editor_row_rx_to_curx`: walk the row until the render column passes `rx`. */
  method RxToCurx(chars: seq<byte>, rx: int) returns (curx: nat)
    ensures curx == LogicalCol(chars, rx)
  {
    var curRx: nat := 0;
    curx := 0;
    while curx < |chars|
      invariant curx <= |chars|
      invariant curRx == RenderCol(chars, curx)
      invariant LogicalCol(chars, rx) == LogicalColFrom(chars, rx, curx)
    {
      if chars[curx] == TAB {
        curRx := curRx + (TAB_STOP - 1) - curRx % TAB_STOP;
      }
      curRx := curRx + 1;
      if curRx > rx {
        return;
      }
      curx := curx + 1;
    }
  }

  /**
   * `editor_update_row`: count the tabs, allocate `size + tabs * 7` bytes
   * and fill the render form by an index loop.
   */
  method UpdateRow(chars: seq<byte>) returns (render: seq<byte>)
    ensures render == Render(chars)
  {
    var tabs := CountTabs(chars);
    var buf := new byte[|chars| + tabs * (TAB_STOP - 1)];
    var idx := FillRender(buf, chars);
    render := buf[..idx];
  }

  /** The fill loop of `editor_update_row`, over a buffer of at least `size + 7 * tabs` bytes. */
  method FillRender(buf: array<byte>, chars: seq<byte>) returns (idx: nat)
    requires |chars| + TabsIn(chars, |chars|) * (TAB_STOP - 1) <= buf.Length
    modifies buf
    ensures idx <= buf.Length && buf[..idx] == RenderPrefix(chars, |chars|)
  {
    idx := 0;
    var j := 0;
    while j < |chars|
      invariant j <= |chars|
      invariant idx == RenderCol(chars, j) <= buf.Length
      invariant buf[..idx] == RenderPrefix(chars, j)
    {
      RenderBoundStep(chars, j);
      idx := RenderByte(buf, chars, j, idx);
      j := j + 1;
    }
  }

  /** One iteration of the fill loop of `editor_update_row`: byte `j` of the row goes to the render form. */
  method RenderByte(buf: array<byte>, chars: seq<byte>, j: nat, start: nat) returns (idx: nat)
    requires j < |chars| && start == RenderCol(chars, j) && RenderCol(chars, j + 1) <= buf.Length
    requires buf[..start] == RenderPrefix(chars, j)
    modifies buf
    ensures idx == RenderCol(chars, j + 1)
    ensures buf[..idx] == RenderPrefix(chars, j + 1)
  {
    if chars[j] == TAB {
      idx := PadTab(buf, start);
    } else {
      buf[start] := chars[j];
      idx := start + 1;
      assert buf[..idx] == buf[..start] + [chars[j]];
    }
  }

  /** The first loop of `editor_update_row`: the number of tabs in the row. */
  method CountTabs(chars: seq<byte>) returns (tabs: nat)
    ensures tabs == TabsIn(chars, |chars|)
  {
    tabs := 0;
    var j := 0;
    while j < |chars|
      invariant j <= |chars|
      invariant tabs == TabsIn(chars, j)
    {
      if chars[j] == TAB {
        tabs := tabs + 1;
      }
      j := j + 1;
    }
  }

  /**
   * The tab branch of `editor_update_row`: one space, then spaces until the
   * index is a multiple of the tab stop.
   */
  method PadTab(buf: array<byte>, start: nat) returns (idx: nat)
    requires start + TAB_STOP - start % TAB_STOP <= buf.Length
    modifies buf
    ensures idx == start + TAB_STOP - start % TAB_STOP
    ensures buf[..idx] == old(buf[..start]) + Spaces(idx - start)
  {
    buf[start] := SPACE;
    idx := start + 1;
    while idx % TAB_STOP != 0
      invariant start < idx <= start + TAB_STOP - start % TAB_STOP
      invariant buf[..idx] == old(buf[..start]) + Spaces(idx - start)
      decreases start + TAB_STOP - start % TAB_STOP - idx
    {
      buf[idx] := SPACE;
      idx := idx + 1;
    }
  }

  /** The render column after byte `j` stays within the allocated `size + 7 * tabs`. */
  lemma RenderBoundStep(chars: seq<byte>, j: nat)
    requires j < |chars|
    ensures RenderCol(chars, j + 1) <= |chars| + (TAB_STOP - 1) * TabsIn(chars, |chars|)
  {
    TabsGrow(chars, j + 1, |chars|);
  }

  lemma {:induction false} TabsGrow(chars: seq<byte>, n: nat, m: nat)
    requires n <= m <= |chars|
    ensures TabsIn(chars, n) <= TabsIn(chars, m)
    ensures TabsIn(chars, m) - TabsIn(chars, n) <= m - n
    decreases m - n
  {
    if n < m { TabsGrow(chars, n, m - 1); }
  }
}
