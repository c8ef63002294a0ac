// The row store of ted.c as values: a document is the sequence of its rows'
// bytes. These functions state what `editor_insert_row`, `editor_del_row`,
// `editor_row_insert_char`, `editor_row_del_char` and the split and join of
// the edit engine do to the text; the editor class in ted.dfy is proved
// against them.
module RowStore {
  import opened Bytes

  type Text = seq<seq<byte>>

  /** `editor_insert_row`: a no-op unless `0 <= at <= numRows`; otherwise `s` becomes row `at`. */
  function InsertRow(doc: Text, at: int, s: seq<byte>): (r: Text)
    ensures at < 0 || at > |doc| ==> r == doc
    ensures 0 <= at <= |doc| ==>
      && |r| == |doc| + 1
      && r[at] == s
      && (forall i :: 0 <= i < at ==> r[i] == doc[i])
      && (forall i :: at < i < |r| ==> r[i] == doc[i - 1])
  {
    if at < 0 || at > |doc| then doc else doc[..at] + [s] + doc[at..]
  }

  /** `editor_del_row`: a no-op unless `0 <= at < numRows`; otherwise row `at` goes. */
  function DeleteRow(doc: Text, at: int): (r: Text)
    ensures at < 0 || at >= |doc| ==> r == doc
    ensures 0 <= at < |doc| ==>
      && |r| == |doc| - 1
      && (forall i :: 0 <= i < at ==> r[i] == doc[i])
      && (forall i :: at <= i < |r| ==> r[i] == doc[i + 1])
  {
    if at < 0 || at >= |doc| then doc else doc[..at] + doc[at + 1..]
  }

  /** Where `editor_row_insert_char` puts its byte: `at`, or the row's end when `at` is out of range. */
  function InsertPos(chars: seq<byte>, at: int): (p: nat)
    ensures p <= |chars|
    ensures 0 <= at <= |chars| ==> p == at
  {
    if at < 0 || at > |chars| then |chars| else at
  }

  /** `editor_row_insert_char`: the byte `c` is inserted at the clamped position. */
  function InsertChar(chars: seq<byte>, at: int, c: byte): (r: seq<byte>)
    ensures |r| == |chars| + 1
    ensures r[InsertPos(chars, at)] == c
    ensures forall i :: 0 <= i < InsertPos(chars, at) ==> r[i] == chars[i]
    ensures forall i :: InsertPos(chars, at) < i < |r| ==> r[i] == chars[i - 1]
  {
    var p := InsertPos(chars, at);
    chars[..p] + [c] + chars[p..]
  }

  /** `editor_row_del_char`: a no-op unless `0 <= at < size`; otherwise byte `at` goes. */
  function DeleteChar(chars: seq<byte>, at: int): (r: seq<byte>)
    ensures at < 0 || at >= |chars| ==> r == chars
    ensures 0 <= at < |chars| ==>
      && |r| == |chars| - 1
      && (forall i :: 0 <= i < at ==> r[i] == chars[i])
      && (forall i :: at <= i < |r| ==> r[i] == chars[i + 1])
  {
    if at < 0 || at >= |chars| then chars else chars[..at] + chars[at + 1..]
  }

  /** `editor_insert_newline` away from the end: row `y` is cut at column `x`. */
  function Split(doc: Text, y: nat, x: nat): (r: Text)
    requires y < |doc| && x <= |doc[y]|
    ensures |r| == |doc| + 1
    ensures r[y] + r[y + 1] == doc[y] && |r[y]| == x
    ensures forall i :: 0 <= i < y ==> r[i] == doc[i]
    ensures forall i :: y + 1 < i < |r| ==> r[i] == doc[i - 1]
  {
    doc[..y] + [doc[y][..x], doc[y][x..]] + doc[y + 1..]
  }

  /** Backspace at column 0 of row `y`: row `y` is appended to row `y - 1` and removed. */
  function Join(doc: Text, y: nat): (r: Text)
    requires 0 < y < |doc|
    ensures |r| == |doc| - 1
    ensures r[y - 1] == doc[y - 1] + doc[y]
    ensures forall i :: 0 <= i < y - 1 ==> r[i] == doc[i]
    ensures forall i :: y <= i < |r| ==> r[i] == doc[i + 1]
  {
    doc[..y - 1] + [doc[y - 1] + doc[y]] + doc[y + 1..]
  }

  /** Inserting after the last row appends. */
  lemma InsertRowAtEnd(doc: Text, s: seq<byte>)
    ensures InsertRow(doc, |doc|, s) == doc + [s]
  {
    assert doc[|doc|..] == [];
  }

  /** Deleting the row just inserted restores the document. */
  lemma DeleteRowInsertRow(doc: Text, at: int, s: seq<byte>)
    requires 0 <= at <= |doc|
    ensures DeleteRow(InsertRow(doc, at, s), at) == doc
  {
    var r := DeleteRow(InsertRow(doc, at, s), at);
    assert forall i :: 0 <= i < |doc| ==> r[i] == doc[i];
  }

  /** Re-inserting the row just deleted restores the document. */
  lemma InsertRowDeleteRow(doc: Text, at: int)
    requires 0 <= at < |doc|
    ensures InsertRow(DeleteRow(doc, at), at, doc[at]) == doc
  {
    var r := InsertRow(DeleteRow(doc, at), at, doc[at]);
    assert forall i :: 0 <= i < |doc| ==> r[i] == doc[i];
  }

  /** Deleting at the position the byte was inserted at restores the row. */
  lemma DeleteCharInsertChar(chars: seq<byte>, at: int, c: byte)
    ensures DeleteChar(InsertChar(chars, at, c), InsertPos(chars, at)) == chars
  {
    var r := DeleteChar(InsertChar(chars, at, c), InsertPos(chars, at));
    assert forall i :: 0 <= i < |chars| ==> r[i] == chars[i];
  }

  /** Re-inserting the byte just deleted restores the row. */
  lemma InsertCharDeleteChar(chars: seq<byte>, at: int)
    requires 0 <= at < |chars|
    ensures InsertChar(DeleteChar(chars, at), at, chars[at]) == chars
  {
    var r := InsertChar(DeleteChar(chars, at), at, chars[at]);
    assert forall i :: 0 <= i < |chars| ==> r[i] == chars[i];
  }

  /** Joining the two halves of a split restores the document. */
  lemma JoinSplit(doc: Text, y: nat, x: nat)
    requires y < |doc| && x <= |doc[y]|
    ensures Join(Split(doc, y, x), y + 1) == doc
  {
    var r := Join(Split(doc, y, x), y + 1);
    assert forall i :: 0 <= i < |doc| ==> r[i] == doc[i];
  }

  /** Splitting a joined row where the join happened restores the document. */
  lemma SplitJoin(doc: Text, y: nat)
    requires 0 < y < |doc|
    ensures Split(Join(doc, y), y - 1, |doc[y - 1]|) == doc
  {
    var j := Join(doc, y);
    assert j[y - 1][..|doc[y - 1]|] == doc[y - 1];
    assert j[y - 1][|doc[y - 1]|..] == doc[y];
    var r := Split(j, y - 1, |doc[y - 1]|);
    assert forall i :: 0 <= i < |doc| ==> r[i] == doc[i];
  }

  /** A newline at column 0 inserts an empty row above, which is the split at column 0. */
  lemma SplitAtZero(doc: Text, y: nat)
    requires y < |doc|
    ensures Split(doc, y, 0) == InsertRow(doc, y, [])
  {
    var a := Split(doc, y, 0);
    var b := InsertRow(doc, y, []);
    assert doc[y][0..] == doc[y];
    assert forall i :: 0 <= i < |a| ==> a[i] == b[i];
  }
}
