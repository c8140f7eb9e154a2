/** The one-line editor: a fixed buffer and a cursor, refining a zipper key by key. */
module Editor {
  import opened Bytes
  import opened Sanitize

  const SIZE := 1024

  /** Key codes, and the terminal's named keys. */
  datatype Key = Code(ch: int) | KeyEnter | KeyBackspace | KeyLeft | KeyRight | KeyHome | KeyEnd

  /** The text to the left and to the right of the cursor. */
  datatype Zipper = Zipper(left: Text, right: Text)

  datatype Outcome = Editing | Cancelled | Entered(text: Text)

  datatype State = State(z: Zipper, outcome: Outcome)

  function Whole(z: Zipper): Text { z.left + z.right }

  /** A character is typed if it is printable ASCII and there is room. */
  predicate Types(z: Zipper, ch: int) { 32 <= ch < 127 && |z.left| + |z.right| < SIZE - 1 }

  predicate IsEscape(k: Key) { k == Code(27) }

  predicate IsEnter(k: Key) { k == Code(10) || k.KeyEnter? }

  predicate IsBackspace(k: Key) { k == Code(127) || k == Code(8) || k.KeyBackspace? }

  function Press(z: Zipper, k: Key): State {
    if IsEscape(k) then State(z, Cancelled)
    else if IsEnter(k) then State(z, Entered(Whole(z)))
    else State(Edit(z, k), Editing)
  }

  function Edit(z: Zipper, k: Key): Zipper {
    var l, r := z.left, z.right;
    if IsBackspace(k) then (if l == [] then z else Zipper(l[..|l| - 1], r))
    else
      match k
      case KeyLeft => if l == [] then z else Zipper(l[..|l| - 1], [l[|l| - 1]] + r)
      case KeyRight => if r == [] then z else Zipper(l + [r[0]], r[1..])
      case KeyHome => Zipper([], l + r)
      case KeyEnd => Zipper(l + r, [])
      case Code(ch) => if Types(z, ch) then Zipper(l + [ch], r) else z
      case _ => z
  }

  /** Keys are read until one of them ends the dialog. */
  function Run(z: Zipper, keys: seq<Key>): State
    decreases |keys|
  {
    if keys == [] then State(z, Editing)
    else
      var s := Press(z, keys[0]);
      if s.outcome == Editing then Run(s.z, keys[1..]) else s
  }

  /** The dialog starts with the initial text, cut to the buffer, and the cursor at its end. */
  function Start(initial: Text): Zipper { Zipper(initial[..Min(|initial|, SIZE - 1)], []) }

  // ----- properties ----------------------------------------------------------------

  /** Whatever is typed, the text fits the buffer; and what Enter returns is what the cursor stands in. */
  lemma {:induction false} RunFits(z: Zipper, keys: seq<Key>)
    requires |Whole(z)| <= 1023
    ensures var s := Run(z, keys);
            |Whole(s.z)| <= 1023 && (s.outcome.Entered? ==> s.outcome.text == Whole(s.z))
    decreases |keys|
  {
    if keys != [] && Press(z, keys[0]).outcome == Editing {
      RunFits(Press(z, keys[0]).z, keys[1..]);
    }
  }

  /** Typing and then erasing restores text and cursor; so does moving there and back. */
  lemma InsertErase(z: Zipper, ch: int)
    ensures Types(z, ch) ==> Edit(Edit(z, Code(ch)), KeyBackspace) == z
    ensures z.right != [] ==> Edit(Edit(z, KeyRight), KeyLeft) == z
    ensures z.left != [] ==> Edit(Edit(z, KeyLeft), KeyRight) == z
  {
    if Types(z, ch) {
      assert (z.left + [ch])[..|z.left|] == z.left;
    }
    if z.right != [] {
      assert (z.left + [z.right[0]])[..|z.left|] == z.left;
      assert [z.right[0]] + z.right[1..] == z.right;
    }
    if z.left != [] {
      assert z.left[..|z.left| - 1] + [z.left[|z.left| - 1]] == z.left;
      assert ([z.left[|z.left| - 1]] + z.right)[1..] == z.right;
    }
  }

  /** Moving the cursor never changes the text. */
  lemma CursorKeepsText(z: Zipper, k: Key)
    requires k.KeyLeft? || k.KeyRight? || k.KeyHome? || k.KeyEnd?
    ensures Whole(Edit(z, k)) == Whole(z)
  {
    if k.KeyLeft? && z.left != [] {
      var n := |z.left| - 1;
      assert z.left[..n] + ([z.left[n]] + z.right) == z.left + z.right;
    } else if k.KeyRight? && z.right != [] {
      assert z.left + [z.right[0]] + z.right[1..] == z.left + z.right;
    }
  }

  /** A dialog starts with the cursor behind its initial text, of which 1023 bytes fit. */
  lemma StartText(initial: Text)
    ensures Whole(Start(initial)) <= initial && Start(initial).right == []
    ensures |Start(initial).left| == if |initial| < 1023 then |initial| else 1023
  {
  }

  /** What a key does, told as a text and a cursor position in it. */
  predicate Effect(text: Text, pos: nat, k: Key, text': Text, pos': nat)
    requires pos <= |text|
  {
    match k
    case KeyHome => text' == text && pos' == 0
    case KeyEnd => text' == text && pos' == |text|
    case KeyLeft => text' == text && pos' == if pos > 0 then pos - 1 else 0
    case KeyRight => text' == text && pos' == if pos < |text| then pos + 1 else |text|
    case KeyBackspace => Deleted(text, pos, text', pos')
    case KeyEnter => text' == text && pos' == pos
    case Code(ch) =>
      if ch == 8 || ch == 127 then Deleted(text, pos, text', pos')
      else if 32 <= ch <= 126 && |text| < 1023 then text' == text[..pos] + [ch] + text[pos..] && pos' == pos + 1
      else text' == text && pos' == pos
  }

  predicate Deleted(text: Text, pos: nat, text': Text, pos': nat)
    requires pos <= |text|
  {
    if pos > 0 then text' == text[..pos - 1] + text[pos..] && pos' == pos - 1 else text' == text && pos' == 0
  }

  lemma Halves(z: Zipper)
    ensures Whole(z)[..|z.left|] == z.left && Whole(z)[|z.left|..] == z.right
  {
  }

  /** Every key, on every text: what it does to the text and the cursor, and which keys end the dialog. */
  lemma KeyEffects(z: Zipper, k: Key)
    ensures var s := Press(z, k);
            && Effect(Whole(z), |z.left|, k, Whole(s.z), |s.z.left|)
            && (s.outcome == Cancelled <==> k == Code(27))
            && (s.outcome.Entered? <==> k == Code(10) || k == KeyEnter)
            && (s.outcome.Entered? ==> s.outcome.text == Whole(z))
  {
    Halves(z);
    var l, r := z.left, z.right;
    if IsBackspace(k) && l != [] {
      assert Whole(z)[..|l| - 1] == l[..|l| - 1];
    }
    if k.KeyLeft? || k.KeyRight? || k.KeyHome? || k.KeyEnd? {
      CursorKeepsText(z, k);
    }
  }

  predicate Printable(s: Text) { forall i | 0 <= i < |s| :: 32 <= s[i] < 127 }

  function Keys(s: Text): seq<Key> { seq(|s|, i requires 0 <= i < |s| => Code(s[i])) }

  /** Text typed at the cursor is inserted there, in order. */
  lemma {:induction false} TypedText(z: Zipper, s: Text, rest: seq<Key>)
    requires Printable(s) && |z.left| + |z.right| + |s| < SIZE
    ensures Run(z, Keys(s) + rest) == Run(Zipper(z.left + s, z.right), rest)
    decreases |s|
  {
    if s == [] {
      assert Keys(s) + rest == rest && z.left + s == z.left;
    } else {
      var keys := Keys(s) + rest;
      assert keys[0] == Code(s[0]) && keys[1..] == Keys(s[1..]) + rest;
      TypedText(Zipper(z.left + [s[0]], z.right), s[1..], rest);
      assert z.left + [s[0]] + s[1..] == z.left + s;
    }
  }

  /** Typing a text into an empty dialog and pressing Enter returns that text. */
  lemma TypeAndEnter(s: Text)
    requires Printable(s) && |s| < SIZE
    ensures Run(Start([]), Keys(s) + [KeyEnter]).outcome == Entered(s)
  {
    TypedText(Start([]), s, [KeyEnter]);
    assert Start([]).left + s == s;
    assert Run(Zipper(s, []), [KeyEnter]) == Press(Zipper(s, []), KeyEnter);
    assert s + [] == s;
  }

  // ----- the code ---------------------------------------------------------------------

  class LineEditor {
    const buf: array<Byte>
    var pos: nat
    ghost var text: Text

    ghost predicate Valid()
      reads this, buf
    {
      && buf.Length == SIZE && pos <= |text| < SIZE
      && buf[..|text|] == text && buf[|text|] == 0
    }

    ghost function Now(): Zipper
      reads this, buf
      requires Valid()
    {
      Zipper(text[..pos], text[pos..])
    }

    constructor (initial: Text)
      ensures Valid() && Now() == Start(initial) && fresh(buf)
    {
      var n := if |initial| < SIZE then |initial| else SIZE - 1;
      var b := new Byte[SIZE](_ => 0);
      forall i | 0 <= i < n {
        b[i] := initial[i];
      }
      buf, pos, text := b, n, initial[..n];
      new;
      assert buf[..n] == initial[..n];
    }

    method Length() returns (n: nat)
      requires Valid()
      ensures n == |text|
    {
      assert buf[..][|text|] == 0;
      assert forall i | 0 <= i < |text| :: buf[i] == text[i];
      n := StrLen(buf);
      assert forall i | 0 <= i < n :: buf[i] == buf[..n][i];
    }

    /** Backspace: close the gap, terminator included. */
    method Erase()
      requires Valid()
      modifies this, buf
      ensures Valid() && Now() == Edit(old(Now()), KeyBackspace)
    {
      var n := Length();
      if pos > 0 {
        ghost var t := text[..pos - 1] + text[pos..];
        assert forall i | pos <= i < n :: buf[i] == text[i];
        forall i | pos <= i <= n {
          buf[i - 1] := buf[i];
        }
        text := t;
        pos := pos - 1;
        assert buf[..n - 1] == t;
      }
    }

    /** A printable character: open a gap, terminator included, and fill it. */
    method Insert(ch: int)
      requires Valid()
      modifies this, buf
      ensures Valid()
      ensures Now() == if Types(old(Now()), ch) then Zipper(old(Now().left) + [ch], old(Now().right)) else old(Now())
    {
      var n := Length();
      if ch >= 32 && ch < 127 && n < SIZE - 1 {
        ghost var t := text[..pos] + [ch] + text[pos..];
        assert forall i | 0 <= i < n :: buf[i] == text[i];
        forall i | pos <= i <= n {
          buf[i + 1] := buf[i];
        }
        buf[pos] := ch;
        text := t;
        pos := pos + 1;
        assert buf[..n + 1] == t;
      }
    }

    method Result() returns (s: Text)
      requires Valid()
      ensures s == Whole(Now())
    {
      var n := Length();
      s := buf[..n];
    }

    method HandleKey(k: Key) returns (outcome: Outcome)
      requires Valid()
      modifies this, buf
      ensures Valid() && State(Now(), outcome) == Press(old(Now()), k)
    {
      outcome := Editing;
      if k == Code(27) {
        return Cancelled;
      }
      if k == Code(10) || k.KeyEnter? {
        var s := Result();
        return Entered(s);
      }
      if k == Code(127) || k == Code(8) || k.KeyBackspace? {
        Erase();
        return;
      }
      match k
      case KeyLeft =>
        if pos > 0 {
          pos := pos - 1;
        }
      case KeyRight =>
        assert pos < |text| ==> buf[pos] == text[pos];
        if buf[pos] != 0 {
          pos := pos + 1;
        }
      case KeyHome => pos := 0;
      case KeyEnd => pos := Length();
      case Code(ch) => Insert(ch);
    }

    /** The key loop, over the keys the terminal will deliver. */
    method EditLoop(keys: seq<Key>) returns (outcome: Outcome)
      requires Valid()
      modifies this, buf
      ensures Valid() && State(Now(), outcome) == Run(old(Now()), keys)
    {
      outcome := Editing;
      var i := 0;
      ghost var start := Now();
      assert keys[0..] == keys;
      while i < |keys| && outcome == Editing
        invariant i <= |keys| && Valid()
        invariant if outcome == Editing then Run(Now(), keys[i..]) == Run(start, keys)
                  else State(Now(), outcome) == Run(start, keys)
      {
        assert keys[i..][1..] == keys[i + 1..];
        outcome := HandleKey(keys[i]);
        i := i + 1;
      }
    }
  }
}
