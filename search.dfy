// The search of ted.c, `editor_find_callback`: the substring test it makes
// with `strstr` on a row's render form, how a key changes the remembered
// match and direction, and the wrap-around order in which rows are tried.
module Search {
  import opened Wrappers
  import opened Bytes
  import opened Keys

  /** The part of a byte buffer a C string function sees: up to the first NUL. */
  function CString(s: seq<byte>): (r: seq<byte>)
    ensures r <= s
    ensures forall i :: 0 <= i < |r| ==> r[i] != NUL
    ensures |r| < |s| ==> s[|r|] == NUL
  {
    if s == [] || s[0] == NUL then [] else [s[0]] + CString(s[1..])
  }

  predicate OccursAt(hay: seq<byte>, needle: seq<byte>, i: nat)
  {
    i + |needle| <= |hay| && hay[i..i + |needle|] == needle
  }

  /** The first occurrence of `needle` in `hay` at or after `from`. */
  function FindFrom(hay: seq<byte>, needle: seq<byte>, from: nat): (r: Option<nat>)
    ensures r.Some? ==> from <= r.value && OccursAt(hay, needle, r.value)
    ensures forall i: nat :: from <= i && (r.None? || i < r.value) ==> !OccursAt(hay, needle, i)
    decreases |hay| - from
  {
    if from + |needle| > |hay| then None
    else if hay[from..from + |needle|] == needle then Some(from)
    else FindFrom(hay, needle, from + 1)
  }

  /** `strstr(render, query)`: offset of the first occurrence before the first NUL. */
  function StrStr(render: seq<byte>, query: seq<byte>): (r: Option<nat>)
    ensures r.Some? ==> OccursAt(CString(render), query, r.value)
    ensures forall i: nat :: r.None? || i < r.value ==> !OccursAt(CString(render), query, i)
  {
    FindFrom(CString(render), query, 0)
  }

  /** The two statics of `editor_find_callback`. */
  datatype SearchState = SearchState(lastMatch: int, direction: int)

  const Idle := SearchState(-1, 1)

  /** The remembered state is one the scan can start from. */
  predicate StateFits(st: SearchState, numRows: nat)
  {
    -1 <= st.lastMatch < numRows && (st.direction == 1 || st.direction == -1)
      && (st.lastMatch == -1 ==> st.direction == 1)
  }

  /**
   * How a key other than Enter or ESC sets direction and last match (the
   * corrected reading of ted.c:561-572): Right and Down search forward,
   * Left and Up backward, any other key (a change to the query) restarts
   * from the top; with no last match the direction is forward.
   */
  function KeyEffect(st: SearchState, key: Key): (r: SearchState)
    ensures r.lastMatch == -1 ==> r.direction == 1
    ensures r.direction == 1 || r.direction == -1
    ensures r.lastMatch == -1 || r.lastMatch == st.lastMatch
    ensures key.ArrowUp? || key.ArrowLeft? ==> r.lastMatch == st.lastMatch
    ensures key.ArrowDown? || key.ArrowRight? ==> r == SearchState(st.lastMatch, 1)
    ensures !(key.ArrowUp? || key.ArrowLeft? || key.ArrowDown? || key.ArrowRight?) ==> r == Idle
  {
    var s :=
      if key == ArrowRight || key == ArrowDown then SearchState(st.lastMatch, 1)
      else if key == ArrowLeft || key == ArrowUp then SearchState(st.lastMatch, -1)
      else Idle;
    if s.lastMatch == -1 then SearchState(-1, 1) else s
  }

  /** The same, as ted.c:561-572 is written: its backward test names ARROW_RIGHT twice. */
  function KeyEffectAsWritten(st: SearchState, key: Key): (r: SearchState)
    ensures r.lastMatch == -1 ==> r.direction == 1
    ensures r.lastMatch == -1 || r.lastMatch == st.lastMatch
    ensures key.ArrowLeft? ==> r.lastMatch == st.lastMatch && (r.lastMatch != -1 ==> r.direction == -1)
    ensures key.ArrowDown? || key.ArrowRight? ==> r == SearchState(st.lastMatch, 1)
    ensures !(key.ArrowLeft? || key.ArrowDown? || key.ArrowRight?) ==> r == Idle
  {
    var s :=
      if key == ArrowRight || key == ArrowDown then SearchState(st.lastMatch, 1)
      else if key == ArrowLeft || key == ArrowRight then SearchState(st.lastMatch, -1)
      else Idle;
    if s.lastMatch == -1 then SearchState(-1, 1) else s
  }

  /** As written, ArrowUp throws the last match away instead of searching backward. */
  lemma ArrowUpRestartsAsWritten()
    ensures KeyEffectAsWritten(SearchState(2, 1), ArrowUp) == Idle
    ensures KeyEffect(SearchState(2, 1), ArrowUp) == SearchState(2, -1)
  {
  }

  /** The two readings differ only on ArrowUp. */
  lemma KeyEffectDiffersOnlyOnUp(st: SearchState, key: Key)
    requires key != ArrowUp
    ensures KeyEffect(st, key) == KeyEffectAsWritten(st, key)
  {
  }

  /** `current += direction`, wrapping -1 to the last row and `numRows` to row 0. */
  function Wrap(current: int, numRows: nat): (r: int)
    ensures 0 <= current < numRows ==> r == current
    ensures numRows > 0 && -1 <= current <= numRows ==> 0 <= r < numRows
    ensures current == -1 ==> r == numRows - 1
    ensures current == numRows ==> r == 0
  {
    if current == -1 then numRows - 1 else if current == numRows then 0 else current
  }

  /** The row tried at the `k`-th step of the scan. */
  function Visit(st: SearchState, numRows: nat, k: nat): (r: int)
    requires StateFits(st, numRows)
    ensures k > 0 && numRows > 0 ==> 0 <= r < numRows
  {
    if k == 0 then st.lastMatch else Wrap(Visit(st, numRows, k - 1) + st.direction, numRows)
  }

  /**
   * The scan order in closed form: the `k`-th row tried is `k` rows on from
   * the last match in the search direction, modulo the number of rows.
   */
  lemma {:induction false} VisitClosedForm(st: SearchState, numRows: nat, k: nat)
    requires StateFits(st, numRows) && 0 < k <= numRows
    ensures st.direction == 1 ==>
      Visit(st, numRows, k) == if st.lastMatch + k < numRows then st.lastMatch + k else st.lastMatch + k - numRows
    ensures st.direction == -1 ==>
      Visit(st, numRows, k) == if st.lastMatch - k >= 0 then st.lastMatch - k else st.lastMatch - k + numRows
  {
    if k > 1 {
      VisitClosedForm(st, numRows, k - 1);
    }
  }

  /** Every row is tried within the first `numRows` steps. */
  lemma VisitReachesEveryRow(st: SearchState, numRows: nat, row: nat)
    requires StateFits(st, numRows) && row < numRows
    ensures exists k :: 0 < k <= numRows && Visit(st, numRows, k) == row
  {
    var k: nat;
    if st.direction == 1 {
      k := if row > st.lastMatch then row - st.lastMatch else row - st.lastMatch + numRows;
    } else {
      k := if row < st.lastMatch then st.lastMatch - row else st.lastMatch - row + numRows;
    }
    VisitClosedForm(st, numRows, k);
  }

  datatype Match = Match(row: nat, offset: nat)

  /** The first match among the rows tried from step `k` on. */
  function ScanFrom(renders: seq<seq<byte>>, query: seq<byte>, st: SearchState, k: nat): (r: Option<Match>)
    requires StateFits(st, |renders|) && k > 0
    ensures r.Some? ==> r.value.row < |renders|
    decreases |renders| + 1 - k
  {
    if k > |renders| then None
    else
      var row := Visit(st, |renders|, k);
      match StrStr(renders[row], query)
      case Some(off) => Some(Match(row, off))
      case None => ScanFrom(renders, query, st, k + 1)
  }

  /**
   * `row` is tried at some step from `k` on, and no row tried at an earlier
   * step from `k` on holds the query.
   */
  predicate FirstTriedFrom(renders: seq<seq<byte>>, query: seq<byte>, st: SearchState, k: nat, row: nat)
    requires StateFits(st, |renders|) && k > 0
  {
    exists j :: k <= j <= |renders| && Visit(st, |renders|, j) == row
      && (forall j' :: k <= j' < j ==> StrStr(renders[Visit(st, |renders|, j')], query).None?)
  }

  /**
   * A match is the first row tried from step `k` on whose render holds the
   * query, at the reported offset; no match means no row tried from `k` on
   * holds it.
   */
  lemma {:induction false} ScanFromSound(renders: seq<seq<byte>>, query: seq<byte>, st: SearchState, k: nat)
    requires StateFits(st, |renders|) && k > 0
    ensures var r := ScanFrom(renders, query, st, k);
      && (r.Some? ==> FirstTriedFrom(renders, query, st, k, r.value.row))
      && (r.Some? ==> StrStr(renders[r.value.row], query) == Some(r.value.offset))
      && (r.None? ==> forall j :: k <= j <= |renders| ==> StrStr(renders[Visit(st, |renders|, j)], query).None?)
    decreases |renders| + 1 - k
  {
    if k <= |renders| {
      ScanFromSound(renders, query, st, k + 1);
      var row := Visit(st, |renders|, k);
      ScanFromStep(renders, query, st, k, row);
      var r := ScanFrom(renders, query, st, k);
      if r.Some? {
        if StrStr(renders[row], query).Some? {
          assert Visit(st, |renders|, k) == r.value.row;
        } else {
          var j :| k + 1 <= j <= |renders| && Visit(st, |renders|, j) == r.value.row
            && (forall j' :: k + 1 <= j' < j ==> StrStr(renders[Visit(st, |renders|, j')], query).None?);
          assert forall j' :: k <= j' < j ==> StrStr(renders[Visit(st, |renders|, j')], query).None?;
        }
      }
    }
  }

  /** One step of the scan: try the `k`-th row, and go on to the next step if it does not match. */
  lemma ScanFromStep(renders: seq<seq<byte>>, query: seq<byte>, st: SearchState, k: nat, row: int)
    requires StateFits(st, |renders|) && 0 < k <= |renders| && row == Visit(st, |renders|, k)
    ensures 0 <= row < |renders|
    ensures StrStr(renders[row], query).Some? ==>
      ScanFrom(renders, query, st, k) == Some(Match(row, StrStr(renders[row], query).value))
    ensures StrStr(renders[row], query).None? ==> ScanFrom(renders, query, st, k) == ScanFrom(renders, query, st, k + 1)
  {
  }

  /** The scan of `editor_find_callback`: at most `numRows` rows, in wrap-around order. */
  function Scan(renders: seq<seq<byte>>, query: seq<byte>, st: SearchState): (r: Option<Match>)
    requires StateFits(st, |renders|)
    ensures r.Some? ==> r.value.row < |renders|
  {
    ScanFrom(renders, query, st, 1)
  }

  /**
   * The loop of `editor_find_callback` over the rows' render forms: from the
   * last match, step by the direction with wrap-around, at most once per
   * row, and stop at the first row that contains the query.
   */
  method ScanRows(renders: seq<seq<byte>>, query: seq<byte>, st: SearchState) returns (found: Option<Match>)
    requires StateFits(st, |renders|)
    ensures found == Scan(renders, query, st)
    ensures found.Some? ==> FirstTriedFrom(renders, query, st, 1, found.value.row)
    ensures found.Some? ==> StrStr(renders[found.value.row], query) == Some(found.value.offset)
    ensures found.None? <==> forall row :: 0 <= row < |renders| ==> StrStr(renders[row], query).None?
  {
    ScanFromSound(renders, query, st, 1);
    ScanNoneIffAbsent(renders, query, st);
    var numRows := |renders|;
    var current := st.lastMatch;
    var i := 0;
    while i < numRows
      invariant 0 <= i <= numRows
      invariant current == Visit(st, numRows, i)
      invariant Scan(renders, query, st) == ScanFrom(renders, query, st, i + 1)
    {
      current := current + st.direction;
      if current == -1 {
        current := numRows - 1;
      } else if current == numRows {
        current := 0;
      }
      assert current == Visit(st, numRows, i + 1);
      ScanFromStep(renders, query, st, i + 1, current);
      var m := StrStr(renders[current], query);
      if m.Some? {
        return Some(Match(current, m.value));
      }
      i := i + 1;
    }
    return None;
  }

  /** The scan finds nothing exactly when no row's render contains the query. */
  lemma ScanNoneIffAbsent(renders: seq<seq<byte>>, query: seq<byte>, st: SearchState)
    requires StateFits(st, |renders|)
    ensures Scan(renders, query, st).None? <==>
      forall row :: 0 <= row < |renders| ==> StrStr(renders[row], query).None?
  {
    ScanFromSound(renders, query, st, 1);
    if Scan(renders, query, st).None? {
      forall row | 0 <= row < |renders|
        ensures StrStr(renders[row], query).None?
      {
        VisitReachesEveryRow(st, |renders|, row);
      }
    }
  }

  /**
   * Forward search for "abc" over the rows "abc", "xyz", "abc" finds row 0,
   * then row 2, then wraps round to row 0.
   */
  lemma SearchWrapsAround()
    ensures var a := Ascii("abc");
      var renders := [a, Ascii("xyz"), a];
      && Scan(renders, a, Idle) == Some(Match(0, 0))
      && Scan(renders, a, SearchState(0, 1)) == Some(Match(2, 0))
      && Scan(renders, a, SearchState(2, 1)) == Some(Match(0, 0))
  {
    var a := Ascii("abc");
    var x := Ascii("xyz");
    var renders := [a, x, a];
    AbcInAbc();
    XyzLacksAbc();
    assert Visit(SearchState(0, 1), 3, 1) == 1;
    assert Visit(SearchState(0, 1), 3, 2) == 2;
    assert Visit(SearchState(2, 1), 3, 1) == 0;
  }

  lemma AbcInAbc()
    ensures StrStr(Ascii("abc"), Ascii("abc")) == Some(0)
  {
    var a := Ascii("abc");
    assert a == [97, 98, 99];
    assert a[1..] == [98, 99] && a[1..][1..] == [99] && a[1..][1..][1..] == [];
    assert CString(a) == a;
    assert a[0..3] == a;
  }

  lemma XyzLacksAbc()
    ensures StrStr(Ascii("xyz"), Ascii("abc")).None?
  {
    var a := Ascii("abc");
    var x := Ascii("xyz");
    assert x == [120, 121, 122];
    assert x[1..] == [121, 122] && x[1..][1..] == [122] && x[1..][1..][1..] == [];
    assert CString(x) == x;
    assert x[0..3] != a by { assert x[0] != a[0]; }
    assert FindFrom(x, a, 1).None?;
  }
}
