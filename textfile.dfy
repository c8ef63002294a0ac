// The pure part of file I/O in ted.c and seggs.c: splitting the file into
// lines as `getline` returns them, the loop in `editor_open` that strips
// trailing newline and carriage-return bytes, and `editor_rows_to_string`,
// which writes every row followed by a newline.
module TextFile {
  import opened Bytes

  predicate IsLineEnd(b: byte)
  {
    b == LF || b == CR
  }

  /** A line without its trailing `\n` and `\r` bytes, as `editor_open` stores it. */
  function TrimLineEnd(line: seq<byte>): (r: seq<byte>)
    ensures r <= line
    ensures r == [] || !IsLineEnd(r[|r| - 1])
    ensures forall i :: |r| <= i < |line| ==> IsLineEnd(line[i])
  {
    if |line| > 0 && IsLineEnd(line[|line| - 1]) then TrimLineEnd(line[..|line| - 1]) else line
  }

  /** The strip loop of `editor_open`: shorten `lineLen` while the last byte is `\n` or `\r`. */
  method StripLineEnd(line: seq<byte>) returns (lineLen: nat)
    ensures lineLen <= |line|
    ensures line[..lineLen] == TrimLineEnd(line)
  {
    lineLen := |line|;
    while lineLen > 0 && IsLineEnd(line[lineLen - 1])
      invariant lineLen <= |line|
      invariant TrimLineEnd(line[..lineLen]) == TrimLineEnd(line)
    {
      assert line[..lineLen][..lineLen - 1] == line[..lineLen - 1];
      lineLen := lineLen - 1;
    }
  }

  /** The rows `editor_open` builds from the lines of a file, in file order. */
  function OpenedRows(lines: seq<seq<byte>>): (rows: seq<seq<byte>>)
    ensures |rows| == |lines|
    ensures forall i :: 0 <= i < |lines| ==> rows[i] == TrimLineEnd(lines[i])
  {
    seq(|lines|, i requires 0 <= i < |lines| => TrimLineEnd(lines[i]))
  }

  /** Index of the first `\n` in `data`, or `|data|`. */
  function LineLength(data: seq<byte>): (n: nat)
    ensures n <= |data|
  {
    if data == [] || data[0] == LF then 0 else 1 + LineLength(data[1..])
  }

  /** `LineLength` stops at the first `\n`, or runs to the end when there is none. */
  lemma {:induction false} LineLengthFindsLF(data: seq<byte>)
    ensures forall i :: 0 <= i < LineLength(data) ==> data[i] != LF
    ensures LineLength(data) < |data| ==> data[LineLength(data)] == LF
    decreases |data|
  {
    if data != [] && data[0] != LF {
      var tail := data[1..];
      LineLengthFindsLF(tail);
      assert forall i :: 1 <= i < LineLength(data) ==> data[i] == tail[i - 1];
    }
  }

  /** The lines `getline` returns, each with its `\n` except perhaps the last. */
  function GetLines(data: seq<byte>): (lines: seq<seq<byte>>)
    ensures lines == [] <==> data == []
    ensures forall i :: 0 <= i < |lines| ==> lines[i] != []
    ensures forall i :: 0 <= i < |lines| - 1 ==> lines[i][|lines[i]| - 1] == LF
    decreases |data|
  {
    if data == [] then []
    else
      var n := LineLength(data);
      LineLengthFindsLF(data);
      if n == |data| then [data]
      else [data[..n + 1]] + GetLines(data[n + 1..])
  }

  /** `editor_rows_to_string`: each row followed by `\n`. */
  function Serialized(rows: seq<seq<byte>>): (r: seq<byte>)
    ensures r == [] <==> rows == []
    ensures rows != [] ==> r[|r| - 1] == LF
  {
    if rows == [] then [] else rows[0] + [LF] + Serialized(rows[1..])
  }

  /** Total length `editor_rows_to_string` reports in `buflen`. */
  function TotalLength(rows: seq<seq<byte>>): nat
  {
    if rows == [] then 0 else |rows[0]| + 1 + TotalLength(rows[1..])
  }

  lemma {:induction false} SerializedLength(rows: seq<seq<byte>>)
    ensures |Serialized(rows)| == TotalLength(rows)
  {
    if rows != [] { SerializedLength(rows[1..]); }
  }

  lemma {:induction false} SerializedAppend(rows: seq<seq<byte>>, row: seq<byte>)
    ensures Serialized(rows + [row]) == Serialized(rows) + row + [LF]
  {
    var t := rows + [row];
    if rows == [] {
      assert t == [row] && t[1..] == [];
    } else {
      assert t[0] == rows[0] && t[1..] == rows[1..] + [row];
      SerializedAppend(rows[1..], row);
      assert Serialized(t) == rows[0] + [LF] + (Serialized(rows[1..]) + row + [LF]);
    }
  }

  lemma {:induction false} TotalLengthAppend(rows: seq<seq<byte>>, row: seq<byte>)
    ensures TotalLength(rows + [row]) == TotalLength(rows) + |row| + 1
  {
    if rows == [] {
      assert [row][1..] == [];
    } else {
      assert (rows + [row])[1..] == rows[1..] + [row];
      TotalLengthAppend(rows[1..], row);
    }
  }

  /** Opening one more line appends its stripped form. */
  lemma OpenedRowsSnoc(lines: seq<seq<byte>>, i: nat)
    requires i < |lines|
    ensures OpenedRows(lines[..i + 1]) == OpenedRows(lines[..i]) + [TrimLineEnd(lines[i])]
  {
  }

  /** The first loop of `editor_rows_to_string`: the lengths of all rows plus one newline each. */
  method SumLengths(rows: seq<seq<byte>>) returns (totlen: nat)
    ensures totlen == TotalLength(rows) == |Serialized(rows)|
  {
    totlen := 0;
    var j := 0;
    while j < |rows|
      invariant j <= |rows|
      invariant totlen == TotalLength(rows[..j])
    {
      assert rows[..j + 1] == rows[..j] + [rows[j]];
      TotalLengthAppend(rows[..j], rows[j]);
      totlen := totlen + |rows[j]| + 1;
      j := j + 1;
    }
    assert rows[..|rows|] == rows;
    SerializedLength(rows);
  }

  /**
   * `editor_rows_to_string`: sum the lengths, then copy each row and a
   * newline into one buffer.
   */
  method RowsToString(rows: seq<seq<byte>>) returns (buf: seq<byte>, buflen: nat)
    ensures buf == Serialized(rows)
    ensures buflen == |buf|
  {
    var totlen := SumLengths(rows);
    buflen := totlen;
    var a := new byte[totlen];
    var p := 0;
    var j := 0;
    while j < |rows|
      invariant j <= |rows|
      invariant p == TotalLength(rows[..j]) <= totlen
      invariant a[..p] == Serialized(rows[..j])
    {
      SerializedStep(rows, j);
      CopyInto(a, p, rows[j] + [LF]);
      p := p + |rows[j]| + 1;
      j := j + 1;
    }
    assert rows[..j] == rows && a[..p] == a[..];
    buf := a[..];
  }

  /** Row `j` and its newline follow the first `j` rows, within the total length. */
  lemma SerializedStep(rows: seq<seq<byte>>, j: nat)
    requires j < |rows|
    ensures Serialized(rows[..j + 1]) == Serialized(rows[..j]) + (rows[j] + [LF])
    ensures TotalLength(rows[..j + 1]) == TotalLength(rows[..j]) + |rows[j]| + 1 <= TotalLength(rows)
  {
    assert rows[..j + 1] == rows[..j] + [rows[j]];
    TotalLengthAppend(rows[..j], rows[j]);
    SerializedAppend(rows[..j], rows[j]);
    assert rows == rows[..j + 1] + rows[j + 1..];
    TotalLengthConcat(rows[..j + 1], rows[j + 1..]);
  }

  /** `memcpy(a + p, src, |src|)`: the bytes before `p` stay as they were. */
  method CopyInto(a: array<byte>, p: nat, src: seq<byte>)
    requires p + |src| <= a.Length
    modifies a
    ensures a[..p + |src|] == old(a[..p]) + src
  {
    ghost var before := a[..p];
    var k := 0;
    while k < |src|
      invariant k <= |src|
      invariant a[..p + k] == before + src[..k]
    {
      a[p + k] := src[k];
      assert src[..k + 1] == src[..k] + [src[k]];
      k := k + 1;
    }
    assert src[..k] == src;
  }

  lemma {:induction false} TotalLengthConcat(a: seq<seq<byte>>, b: seq<seq<byte>>)
    ensures TotalLength(a + b) == TotalLength(a) + TotalLength(b)
  {
    if a == [] {
      assert a + b == b;
    } else {
      assert (a + b)[0] == a[0];
      assert (a + b)[1..] == a[1..] + b;
      TotalLengthConcat(a[1..], b);
    }
  }

  /** A file without `\r` bytes whose last line ends in `\n`. */
  predicate PlainText(data: seq<byte>)
  {
    (forall i :: 0 <= i < |data| ==> data[i] != CR) && (data == [] || data[|data| - 1] == LF)
  }

  /**
   * Saving right after opening writes the file back byte for byte, provided
   * the file holds no `\r` and ends with a newline (otherwise see
   * OpenSaveChangesCrLf and OpenSaveAddsNewline).
   */
  lemma {:induction false} OpenSaveRoundTrip(data: seq<byte>)
    requires PlainText(data)
    ensures Serialized(OpenedRows(GetLines(data))) == data
    decreases |data|
  {
    if data != [] {
      var n := LineLength(data);
      PlainTextRest(data, n);
      OpenSaveRoundTrip(data[n + 1..]);
      FirstLine(data, n);
    }
  }

  lemma PlainTextRest(data: seq<byte>, n: nat)
    requires PlainText(data) && data != [] && n == LineLength(data)
    ensures n < |data| && PlainText(data[n + 1..])
  {
    LineLengthFindsLF(data);
    var rest := data[n + 1..];
    assert forall i :: 0 <= i < |rest| ==> rest[i] == data[n + 1 + i];
  }

  /** One step of the round trip: the first line comes back with its newline. */
  lemma FirstLine(data: seq<byte>, n: nat)
    requires PlainText(data) && data != [] && n == LineLength(data) && n < |data|
    requires Serialized(OpenedRows(GetLines(data[n + 1..]))) == data[n + 1..]
    ensures Serialized(OpenedRows(GetLines(data))) == data
  {
    var rest := data[n + 1..];
    var line := data[..n + 1];
    TrimFirstLine(data, n);
    GetLinesCons(data, n);
    OpenedRowsCons(line, GetLines(rest));
    SerializedCons(data[..n], OpenedRows(GetLines(rest)));
    SplitAround(data, n);
  }

  lemma SplitAround(s: seq<byte>, n: nat)
    requires n < |s|
    ensures s == s[..n] + [s[n]] + s[n + 1..]
  {
  }

  lemma SerializedCons(row: seq<byte>, rows: seq<seq<byte>>)
    ensures Serialized([row] + rows) == row + [LF] + Serialized(rows)
  {
    assert ([row] + rows)[1..] == rows;
  }

  lemma TrimFirstLine(data: seq<byte>, n: nat)
    requires PlainText(data) && n == LineLength(data) && n < |data|
    ensures TrimLineEnd(data[..n + 1]) == data[..n]
  {
    LineLengthFindsLF(data);
    var line := data[..n + 1];
    assert line[..n] == data[..n];
    assert n > 0 ==> line[n - 1] == data[n - 1] != CR;
  }

  lemma OpenedRowsCons(line: seq<byte>, lines: seq<seq<byte>>)
    ensures OpenedRows([line] + lines) == [TrimLineEnd(line)] + OpenedRows(lines)
  {
  }

  /** A CR-LF line ending is not kept: "a\r\n" is written back as "a\n". */
  lemma OpenSaveChangesCrLf()
    ensures Serialized(OpenedRows(GetLines([Ord('a'), CR, LF]))) == [Ord('a'), LF]
  {
    var data := [Ord('a'), CR, LF];
    assert LineLength([LF]) == 0;
    assert LineLength([CR, LF]) == 1 by { assert [CR, LF][1..] == [LF]; }
    assert LineLength(data) == 2 by { assert data[1..] == [CR, LF]; }
    assert data[..3] == data && data[3..] == [];
    assert GetLines(data) == [data];
    assert TrimLineEnd(data) == [Ord('a')] by {
      assert data[..2] == [Ord('a'), CR];
      assert data[..2][..1] == [Ord('a')];
    }
  }

  /** A last line without a newline gains one: "a" is written back as "a\n". */
  lemma OpenSaveAddsNewline()
    ensures Serialized(OpenedRows(GetLines([Ord('a')]))) == [Ord('a'), LF]
  {
    assert GetLines([Ord('a')]) == [[Ord('a')]];
  }
  /** A line as `getline` returns it holds `\n` only as its last byte. */
  predicate LFOnlyAtEnd(line: seq<byte>)
  {
    forall j :: 0 <= j < |line| - 1 ==> line[j] != LF
  }

  predicate NoLF(s: seq<byte>)
  {
    forall j :: 0 <= j < |s| ==> s[j] != LF
  }

  lemma {:induction false} GetLinesLFOnlyAtEnd(data: seq<byte>)
    ensures forall i :: 0 <= i < |GetLines(data)| ==> LFOnlyAtEnd(GetLines(data)[i])
    decreases |data|
  {
    if data != [] {
      var n := LineLength(data);
      FirstLineLFOnlyAtEnd(data);
      if n < |data| {
        var rest := data[n + 1..];
        GetLinesLFOnlyAtEnd(rest);
        AllLFOnlyAtEndCons(data[..n + 1], GetLines(rest));
        GetLinesCons(data, n);
      }
    }
  }

  /** The lines laid end to end. */
  function Concat(lines: seq<seq<byte>>): seq<byte>
  {
    if lines == [] then [] else lines[0] + Concat(lines[1..])
  }

  /** `getline` loses nothing: the lines laid end to end are the file. */
  lemma {:induction false} GetLinesConcat(data: seq<byte>)
    ensures Concat(GetLines(data)) == data
    decreases |data|
  {
    if data != [] {
      var n := LineLength(data);
      if n < |data| {
        var rest := data[n + 1..];
        GetLinesConcat(rest);
        GetLinesCons(data, n);
        assert ([data[..n + 1]] + GetLines(rest))[1..] == GetLines(rest);
        assert data == data[..n + 1] + rest;
      }
    }
  }

  lemma GetLinesCons(data: seq<byte>, n: nat)
    requires n == LineLength(data) < |data|
    ensures GetLines(data) == [data[..n + 1]] + GetLines(data[n + 1..])
  {
  }

  lemma AllLFOnlyAtEndCons(line: seq<byte>, lines: seq<seq<byte>>)
    requires LFOnlyAtEnd(line)
    requires forall i :: 0 <= i < |lines| ==> LFOnlyAtEnd(lines[i])
    ensures forall i :: 0 <= i < |[line] + lines| ==> LFOnlyAtEnd(([line] + lines)[i])
  {
  }

  lemma FirstLineLFOnlyAtEnd(data: seq<byte>)
    requires data != []
    ensures LineLength(data) < |data| ==> LFOnlyAtEnd(data[..LineLength(data) + 1])
    ensures LineLength(data) == |data| ==> LFOnlyAtEnd(data)
  {
    LineLengthFindsLF(data);
  }

  /** Stripping the line end of such a line leaves no `\n` at all. */
  lemma TrimmedHasNoLF(line: seq<byte>)
    requires LFOnlyAtEnd(line)
    ensures NoLF(TrimLineEnd(line))
  {
  }

  /** The rows `editor_open` loads hold no `\n` byte. */
  lemma OpenedRowsHaveNoLF(data: seq<byte>)
    ensures forall i :: 0 <= i < |GetLines(data)| ==> NoLF(OpenedRows(GetLines(data))[i])
  {
    var lines := GetLines(data);
    GetLinesLFOnlyAtEnd(data);
    forall i | 0 <= i < |lines|
      ensures NoLF(OpenedRows(lines)[i])
    {
      TrimmedHasNoLF(lines[i]);
    }
  }
}
