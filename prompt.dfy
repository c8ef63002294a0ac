// The line editing of `editor_prompt` in ted.c, as a state machine over the
// keys the user types: Backspace, DEL and Ctrl-H drop the last byte, a
// printable byte below 128 is appended, Enter accepts a non-empty line and
// ESC cancels.
module Prompt {
  import opened Bytes
  import opened Keys

  datatype Outcome = Editing(buf: seq<byte>) | Accepted(line: seq<byte>) | Cancelled

  /** The outcome of a whole prompt session and how many keys it read. */
  datatype Session = Session(outcome: Outcome, used: nat)

  /** What `editor_prompt` appends: `!iscntrl(c) && c < 128`. */
  predicate Printable(b: byte)
  {
    !IsCntrl(b) && b < 128
  }

  predicate IsErase(c: Key)
  {
    c == Del || c == Char(CTRL_H) || c == Char(BACKSPACE)
  }

  predicate AllPrintable(buf: seq<byte>)
  {
    forall i :: 0 <= i < |buf| ==> Printable(buf[i])
  }

  /** One key of `editor_prompt`. */
  function Step(buf: seq<byte>, c: Key): (o: Outcome)
    ensures o.Accepted? ==> o.line == buf && buf != [] && c == Char(CR)
    ensures o.Cancelled? <==> c == EscKey
    ensures AllPrintable(buf) && o.Editing? ==> AllPrintable(o.buf)
    ensures IsErase(c) ==> o == Editing(Dropped(buf, 1))
    ensures c.Char? && Printable(c.b) ==> o == Editing(buf + [c.b])
    ensures c.Char? && !Printable(c.b) && c.b !in {CR, CTRL_H, BACKSPACE, ESC} ==> o == Editing(buf)
    ensures c == Char(CR) && buf == [] ==> o == Editing([])
    ensures !c.Char? && !IsErase(c) ==> o == Editing(buf)
  {
    if IsErase(c) then Editing(if buf == [] then [] else buf[..|buf| - 1])
    else if c == EscKey then Cancelled
    else if c == Char(CR) then (if buf != [] then Accepted(buf) else Editing(buf))
    else if c.Char? && Printable(c.b) then Editing(buf + [c.b])
    else Editing(buf)
  }

  /** Feed keys to the prompt until it accepts or cancels, or the keys run out. */
  function Run(buf: seq<byte>, keys: seq<Key>): (s: Session)
    ensures s.used <= |keys|
    ensures s.outcome.Editing? ==> s.used == |keys|
    ensures !s.outcome.Editing? ==> s.used >= 1
    decreases |keys|
  {
    if keys == [] then Session(Editing(buf), 0)
    else
      match Step(buf, keys[0])
      case Editing(b) =>
        var r := Run(b, keys[1..]);
        Session(r.outcome, r.used + 1)
      case o => Session(o, 1)
  }

  /** A session that starts from a printable line only ever holds printable bytes, and accepts only a non-empty line. */
  lemma {:induction false} RunKeepsPrintable(buf: seq<byte>, keys: seq<Key>)
    requires AllPrintable(buf)
    ensures var o := Run(buf, keys).outcome;
      && (o.Editing? ==> AllPrintable(o.buf))
      && (o.Accepted? ==> AllPrintable(o.line) && o.line != [])
    decreases |keys|
  {
    if keys != [] {
      var o := Step(buf, keys[0]);
      if o.Editing? {
        RunKeepsPrintable(o.buf, keys[1..]);
      }
    }
  }

  /** The keys that type `text`. */
  function Typed(text: seq<byte>): (keys: seq<Key>)
    ensures |keys| == |text|
  {
    seq(|text|, i requires 0 <= i < |text| => Char(text[i]))
  }

  /** Typing printable text and then Enter accepts exactly that text. */
  lemma {:induction false} TypeThenEnter(buf: seq<byte>, text: seq<byte>, rest: seq<Key>)
    requires AllPrintable(text) && buf + text != []
    ensures Run(buf, Typed(text) + [Char(CR)] + rest) == Session(Accepted(buf + text), |text| + 1)
    decreases |text|
  {
    var keys := Typed(text) + [Char(CR)] + rest;
    if text == [] {
      assert buf + text == buf;
      assert keys[0] == Char(CR);
    } else {
      assert keys[0] == Char(text[0]);
      assert Printable(text[0]);
      assert keys[1..] == Typed(text[1..]) + [Char(CR)] + rest;
      assert (buf + [text[0]]) + text[1..] == buf + text;
      TypeThenEnter(buf + [text[0]], text[1..], rest);
    }
  }

  /** Enter on an empty line does not accept it. */
  lemma EnterOnEmpty(keys: seq<Key>)
    requires keys != [] && keys[0] == Char(CR)
    ensures Run([], keys) == (var r := Run([], keys[1..]); Session(r.outcome, r.used + 1))
  {
  }

  /** The line without its last `n` bytes (empty when it has fewer). */
  function Dropped(buf: seq<byte>, n: nat): seq<byte>
  {
    if n <= |buf| then buf[..|buf| - n] else []
  }

  lemma DroppedStep(buf: seq<byte>, n: nat)
    requires n > 0
    ensures Dropped(Dropped(buf, 1), n - 1) == Dropped(buf, n)
  {
    if n <= |buf| {
      assert buf[..|buf| - 1][..|buf| - n] == buf[..|buf| - n];
    }
  }

  /** `n` erase keys (DEL, Ctrl-H or Backspace) drop the last `n` bytes (and no more than there are). */
  lemma {:induction false} EraseKeys(buf: seq<byte>, n: nat, rest: seq<Key>)
    requires n <= |rest| && forall i :: 0 <= i < n ==> IsErase(rest[i])
    ensures Run(buf, rest).outcome == Run(Dropped(buf, n), rest[n..]).outcome
  {
    if n > 0 {
      assert IsErase(rest[0]);
      assert Step(buf, rest[0]) == Editing(Dropped(buf, 1));
      EraseKeys(Dropped(buf, 1), n - 1, rest[1..]);
      assert rest[1..][n - 1..] == rest[n..];
      DroppedStep(buf, n);
    } else {
      assert rest[0..] == rest;
      assert buf[..|buf| - 0] == buf;
    }
  }

  /** ESC cancels at once, whatever the line holds. */
  lemma EscCancels(buf: seq<byte>, rest: seq<Key>)
    ensures Run(buf, [EscKey] + rest) == Session(Cancelled, 1)
  {
  }
}
