// Terminal input decoding, `editor_read_key` in both ted.c and seggs.c (the
// two copies are identical). Input is a finite byte string; a `read` that
// does not return one byte is the end of that string.
module Keys {
  import opened Wrappers
  import opened Bytes

  /** A key event: a plain byte, or one of the named keys the decoder knows. */
  datatype Key =
    | Char(b: byte)
    | ArrowLeft | ArrowRight | ArrowUp | ArrowDown
    | Del | Home | End | PageUp | PageDown

  /** The key, and how many input bytes the decoder read to produce it. */
  datatype Decoded = Decoded(key: Key, used: nat)

  const EscKey: Key := Char(ESC)

  /** Final byte of `ESC [ x` (a CSI sequence without parameter, ECMA-48 section 5.4). */
  function CsiFinal(x: byte): Key
  {
    if x == Ord('A') then ArrowUp
    else if x == Ord('B') then ArrowDown
    else if x == Ord('C') then ArrowRight
    else if x == Ord('D') then ArrowLeft
    else if x == Ord('H') then Home
    else if x == Ord('F') then End
    else EscKey
  }

  /** Parameter digit of `ESC [ d ~` (the VT220 / xterm editing-key forms). */
  function TildeKey(d: byte): Key
  {
    if d == Ord('1') || d == Ord('7') then Home
    else if d == Ord('3') then Del
    else if d == Ord('4') || d == Ord('8') then End
    else if d == Ord('5') then PageUp
    else if d == Ord('6') then PageDown
    else EscKey
  }

  /** Final byte of `ESC O x` (an SS3 sequence). */
  function Ss3Final(x: byte): Key
  {
    if x == Ord('H') then Home
    else if x == Ord('F') then End
    else EscKey
  }

  /**
   * Decodes one key from the front of `input`. With no input at all the
   * source blocks forever; the model returns None. A non-ESC byte is
   * returned as itself; after ESC, up to two (for a digit, three) further
   * bytes are read, and a missing byte or an unknown sequence yields ESC.
   */
  function Decode(input: seq<byte>): (r: Option<Decoded>)
    ensures r.None? <==> input == []
    ensures r.Some? ==> 1 <= r.value.used <= |input| && r.value.used <= 4
    ensures r.Some? && input[0] != ESC ==> r.value == Decoded(Char(input[0]), 1)
    ensures r.Some? && r.value.key.Char? ==> r.value.key.b == input[0]
    ensures r.Some? && input[0] == ESC && |input| < 3 ==> r.value == Decoded(EscKey, |input|)
    ensures r.Some? && input[0] == ESC && |input| >= 3 && !(input[1] == Ord('[') && Ord('0') <= input[2] <= Ord('9')) ==>
      r.value.used == 3
    ensures r.Some? && input[0] == ESC && |input| >= 3 && input[1] == Ord('[') && Ord('0') <= input[2] <= Ord('9') ==>
      r.value.used == (if |input| == 3 then 3 else 4)
  {
    if input == [] then None
    else if input[0] != ESC then Some(Decoded(Char(input[0]), 1))
    else if |input| < 3 then Some(Decoded(EscKey, |input|))
    else if input[1] == Ord('[') then
      if Ord('0') <= input[2] <= Ord('9') then
        if |input| < 4 then Some(Decoded(EscKey, 3))
        else if input[3] == Ord('~') then Some(Decoded(TildeKey(input[2]), 4))
        else Some(Decoded(EscKey, 4))
      else Some(Decoded(CsiFinal(input[2]), 3))
    else if input[1] == Ord('O') then Some(Decoded(Ss3Final(input[2]), 3))
    else Some(Decoded(EscKey, 3))
  }

  /** The recognised escape sequences, written out as a table. */
  function Table(): seq<(seq<byte>, Key)>
  {
    [ ([ESC, Ord('['), Ord('A')], ArrowUp),
      ([ESC, Ord('['), Ord('B')], ArrowDown),
      ([ESC, Ord('['), Ord('C')], ArrowRight),
      ([ESC, Ord('['), Ord('D')], ArrowLeft),
      ([ESC, Ord('['), Ord('H')], Home),
      ([ESC, Ord('['), Ord('F')], End),
      ([ESC, Ord('O'), Ord('H')], Home),
      ([ESC, Ord('O'), Ord('F')], End),
      ([ESC, Ord('['), Ord('1'), Ord('~')], Home),
      ([ESC, Ord('['), Ord('3'), Ord('~')], Del),
      ([ESC, Ord('['), Ord('4'), Ord('~')], End),
      ([ESC, Ord('['), Ord('5'), Ord('~')], PageUp),
      ([ESC, Ord('['), Ord('6'), Ord('~')], PageDown),
      ([ESC, Ord('['), Ord('7'), Ord('~')], Home),
      ([ESC, Ord('['), Ord('8'), Ord('~')], End) ]
  }

  /**
   * The decoder agrees with the table: an ESC-led input that starts with a
   * table entry decodes to that entry's key after exactly its bytes, and
   * an ESC-led input that starts with no entry decodes to ESC.
   */
  lemma DecodeMatchesTable(input: seq<byte>)
    requires |input| > 0 && input[0] == ESC
    ensures forall i :: 0 <= i < |Table()| && Table()[i].0 <= input ==>
              Decode(input) == Some(Decoded(Table()[i].1, |Table()[i].0|))
    ensures Decode(input).value.key != EscKey ==>
              exists i :: 0 <= i < |Table()| && Table()[i].0 <= input
  {
    TableEntriesDecode(input);
    DecodedFromTable(input);
  }

  lemma TableEntriesDecode(input: seq<byte>)
    requires |input| > 0 && input[0] == ESC
    ensures forall i :: 0 <= i < |Table()| && Table()[i].0 <= input ==>
              Decode(input) == Some(Decoded(Table()[i].1, |Table()[i].0|))
  {
    var t := Table();
    forall i | 0 <= i < |t| && t[i].0 <= input
      ensures Decode(input) == Some(Decoded(t[i].1, |t[i].0|))
    {
      assert input[..|t[i].0|] == t[i].0;
      assert forall j :: 0 <= j < |t[i].0| ==> input[j] == t[i].0[j];
    }
  }

  lemma DecodedFromTable(input: seq<byte>)
    requires |input| > 0 && input[0] == ESC
    ensures Decode(input).value.key != EscKey ==>
              exists i :: 0 <= i < |Table()| && Table()[i].0 <= input
  {
    var t := Table();
    var d := Decode(input).value;
    if d.key != EscKey {
      var c := input[2];
      var k :=
        if d.used == 4 then
          (if c == Ord('1') then 8 else if c == Ord('3') then 9 else if c == Ord('4') then 10
           else if c == Ord('5') then 11 else if c == Ord('6') then 12 else if c == Ord('7') then 13 else 14)
        else if input[1] == Ord('O') then (if c == Ord('H') then 6 else 7)
        else if c == Ord('A') then 0 else if c == Ord('B') then 1 else if c == Ord('C') then 2
        else if c == Ord('D') then 3 else if c == Ord('H') then 4 else 5;
      assert t[k].0 == input[..|t[k].0|];
      assert t[k].0 <= input;
    }
  }

  /** The canonical byte sequence of a key (the first table entry for it). */
  function Encode(k: Key): (r: seq<byte>)
    ensures |r| >= 1 && (r[0] == ESC <==> !k.Char? || k == EscKey)
  {
    match k
    case Char(b) => [b]
    case ArrowUp => [ESC, Ord('['), Ord('A')]
    case ArrowDown => [ESC, Ord('['), Ord('B')]
    case ArrowRight => [ESC, Ord('['), Ord('C')]
    case ArrowLeft => [ESC, Ord('['), Ord('D')]
    case Home => [ESC, Ord('['), Ord('H')]
    case End => [ESC, Ord('['), Ord('F')]
    case Del => [ESC, Ord('['), Ord('3'), Ord('~')]
    case PageUp => [ESC, Ord('['), Ord('5'), Ord('~')]
    case PageDown => [ESC, Ord('['), Ord('6'), Ord('~')]
  }

  /**
   * Round trip: every key's encoding decodes back to it, consuming exactly
   * the encoding, whatever follows; a lone ESC does so only at the end of
   * the input.
   */
  lemma DecodeEncode(k: Key, rest: seq<byte>)
    requires k == EscKey ==> rest == []
    ensures Decode(Encode(k) + rest) == Some(Decoded(k, |Encode(k)|))
  {
    var e := Encode(k);
    assert (e + rest)[..|e|] == e;
    assert forall j :: 0 <= j < |e| ==> (e + rest)[j] == e[j];
  }
}
