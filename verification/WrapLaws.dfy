/** Wrapping in plain numbers: how a text is cut into words, and how long words are cut into lines. */
module WrapLaws {
  import opened Bytes
  import opened Utf8
  import opened Cells
  import opened Wrap
  import opened WrapProof

  // ----- columns -------------------------------------------------------------------

  /** A character costs what `wcwidth` says, one column if that is negative. */
  lemma WidthOfCharacter(wc: Wc, c: int, rest: Text)
    requires 0 < c <= 0x10FFFF
    ensures Width(wc, Encode(c) + rest) == (if wc(c) < 0 then 1 else wc(c)) + Width(wc, rest)
  {
    hide Cp, Len, ValidAt, Encode;
    EncodeDecode(c, rest);
    var e := Encode(c);
    assert (e + rest)[|e|..] == rest;
  }

  /** An invalid byte costs what U+FFFD does. */
  lemma WidthOfInvalid(wc: Wc, s: seq<Byte>)
    requires s != [] && s[0] >= 0x80 && Len(s) == 1
    ensures Width(wc, s) == (if wc(0xFFFD) < 0 then 1 else wc(0xFFFD)) + Width(wc, s[1..])
  {
    FirstPiece(s, s);
  }

  // ----- words ------------------------------------------------------------------------

  lemma GapAfter(u: Text, c: Char, rest: Text)
    requires IsWord(u) && (c == 32 || c == 9)
    ensures GapAt(u + [c] + rest) == |u|
  {
    var s := u + [c] + rest;
    var k := GapAt(s);
    assert forall i | 0 <= i < |u| :: s[i] == u[i];
    assert s[|u|] == c;
  }

  lemma TokensCons(u: Text, c: Char, rest: Text)
    requires IsWord(u) && (c == 32 || c == 9)
    ensures Tokens(u + [c] + rest) == [Word(u)] + Tokens(rest)
  {
    hide GapAt;
    GapAfter(u, c, rest);
    var s := u + [c] + rest;
    assert s[..|u|] == u && s[|u| + 1..] == rest;
  }

  lemma TokensOne(u: Text)
    requires IsWord(u)
    ensures Tokens(u) == [Word(u)] && Items(u) == [Word(u)]
  {
    assert GapAt(u) == |u|;
  }

  /** A newline ends a paragraph. */
  lemma ItemsNewline(a: Text, b: Text)
    requires 10 !in a
    ensures Items(a + [10] + b) == ParagraphItems(a) + Items(b)
  {
    hide ParagraphItems, Find;
    var s := a + [10] + b;
    assert s[..|a|] == a && s[|a|] == 10 && s[|a| + 1..] == b;
    FindAt(s, NL, |a|);
  }

  lemma ItemsLine(s: Text)
    requires 10 !in s && s != []
    ensures Items(s) == Tokens(s)
  {
  }

  /** Between two words a space, a tab and a single newline mean the same; an empty paragraph is a blank line. */
  lemma WordsSeparated(u: Text, c: Char, v: Text)
    requires IsWord(u) && IsWord(v) && (c == 9 || c == 10 || c == 32)
    ensures Items(u + [c] + v) == [Word(u), Word(v)]
    ensures Items(u + [10, 10] + v) == [Word(u), Blank, Word(v)]
  {
    hide Items, Tokens;
    TokensOne(u);
    TokensOne(v);
    ItemsNewline(u, v);
    assert ParagraphItems(u) == [Word(u)];
    if c != 10 {
      TokensCons(u, c, v);
      ItemsLine(u + [c] + v);
    }
    assert u + [10, 10] + v == u + [10] + ([] + [10] + v);
    ItemsNewline(u, [] + [10] + v);
    ItemsNewline([], v);
  }

  // ----- long words ---------------------------------------------------------------------

  /**
   * The first `k` bytes are the longest piece of the word that fits: whole characters, at most `width`
   * columns and 4095 bytes.
   */
  ghost predicate LongestPiece(wc: Wc, width: nat, word: Text, k: nat) {
    && 0 < k <= |word| && Boundary(word, k) && k <= 4095 && Width(wc, word[..k]) <= width
    && forall b: nat | k < b <= |word| && Boundary(word, b) :: b > 4095 || Width(wc, word[..b]) > width
  }

  /** Pieces taken greedily from the word until what is left fits a line. */
  ghost predicate GreedyPieces(wc: Wc, width: nat, word: Text, b: Broken)
    decreases |b.chunks|
  {
    if b.chunks == [] then b.rest == word && Width(wc, word) <= width
    else
      && Width(wc, word) > width
      && |b.chunks[0]| <= |word| && b.chunks[0] == word[..|b.chunks[0]|]
      && LongestPiece(wc, width, word, |b.chunks[0]|)
      && GreedyPieces(wc, width, word[|b.chunks[0]|..], Broken(b.chunks[1..], b.rest))
  }

  /** Each line taken from a long word is as long as it can be. */
  lemma {:induction false} BreakIsGreedy(wc: Wc, width: nat, word: Text)
    requires Narrow(wc, width, word)
    ensures GreedyPieces(wc, width, word, Break(wc, width, word))
    decreases |word|
  {
    hide Cp, Len, Segments, CopyLen, Narrow, Boundary, Width, LongestPiece;
    var k := CopyLen(wc, word, CHUNK_ROOM, width);
    if Width(wc, word) > width {
      WidthEmpty(wc);
      FirstFits(wc, width, word);
      CopyFits(wc, word, CHUNK_ROOM, width);
      NarrowRest(wc, width, word, k);
      BreakIsGreedy(wc, width, word[k..]);
      CopyIsLongest(wc, width, word);
      var b := Break(wc, width, word);
      assert b.chunks[1..] == Break(wc, width, word[k..]).chunks;
    }
  }

  lemma CopyIsLongest(wc: Wc, width: nat, word: Text)
    requires CopyLen(wc, word, CHUNK_ROOM, width) > 0
    ensures LongestPiece(wc, width, word, CopyLen(wc, word, CHUNK_ROOM, width))
  {
    hide CopyLen, Boundary, Width;
    var k := CopyLen(wc, word, CHUNK_ROOM, width);
    CopyFits(wc, word, CHUNK_ROOM, width);
    forall b: nat | k < b <= |word| && Boundary(word, b)
      ensures b > 4095 || Width(wc, word[..b]) > width
    {
      CopyLongest(wc, word, CHUNK_ROOM, width, b);
    }
  }

  /** A text of one visible word: its pieces, then what is left, line by line. */
  lemma OneWordLines(wc: Wc, width: nat, w: Text)
    requires IsWord(w) && Narrow(wc, width, w) && Width(wc, w) > 0
    ensures var b := Break(wc, width, w); Wrapped(wc, width, w) == b.chunks + [b.rest]
  {
    hide Width, Narrow, Items;
    TokensOne(w);
    BreakParts(wc, width, w);
    var b := Break(wc, width, w);
    assert [Word(w)][1..] == [];
    var st := Step(wc, width, START, Word(w));
    assert Fill(wc, width, START, [Word(w)]) == Fill(wc, width, st, []);
    assert [] + b.chunks == b.chunks;
  }

  lemma FitStep(wc: Wc, width: nat, st: State, v: Text)
    requires Width(wc, v) <= width
    ensures Step(wc, width, st, Word(v)) ==
            if st.cells > 0 && st.cells + 1 + Width(wc, v) <= width
            then State(st.lines, st.line + [32] + v, st.cells + 1 + Width(wc, v))
            else State(Flush(st).lines, v, Width(wc, v))
  {
    hide Width, CopyLen;
    assert Break(wc, width, v) == Broken([], v);
    assert Flush(st).lines + [] == Flush(st).lines;
  }

  lemma LongStep(wc: Wc, width: nat, st: State, w: Text)
    requires Width(wc, w) > width
    ensures var b := Break(wc, width, w);
            Step(wc, width, st, Word(w)) == State(Flush(st).lines + b.chunks, b.rest, Width(wc, b.rest))
  {
    hide Width, Break;
  }

  /** A long word starts a line of its own, and the next word follows on its last one if it fits. */
  lemma LongWordBetween(wc: Wc, width: nat, u: Text, w: Text, v: Text)
    requires IsWord(u) && IsWord(w) && IsWord(v) && Narrow(wc, width, w)
    requires 0 < Width(wc, u) <= width < Width(wc, w) && 0 < Width(wc, v) <= width
    ensures var b := Break(wc, width, w);
            Wrapped(wc, width, u + [32] + (w + [32] + v))
            == [u] + b.chunks
               + if Width(wc, b.rest) + 1 + Width(wc, v) <= width then [b.rest + [32] + v] else [b.rest, v]
  {
    hide Width, Narrow, Items, Tokens, Break, IsWord, Step;
    TokensOne(v);
    TokensCons(w, 32, v);
    TokensCons(u, 32, w + [32] + v);
    NoNewlines(u, w, v);
    ItemsLine(u + [32] + (w + [32] + v));
    var b := Break(wc, width, w);
    BreakParts(wc, width, w);
    FitStep(wc, width, START, u);
    LongStep(wc, width, State([], u, Width(wc, u)), w);
    FitStep(wc, width, State([u] + b.chunks, b.rest, Width(wc, b.rest)), v);
    FillThree(wc, width, Word(u), Word(w), Word(v));
    var done := [u] + b.chunks;
    assert [] + [u] == [u];
    assert done + [b.rest] + [v] == done + [b.rest, v];
  }

  lemma NoNewlines(u: Text, w: Text, v: Text)
    requires IsWord(u) && IsWord(w) && IsWord(v)
    ensures 10 !in u + [32] + (w + [32] + v)
  {
  }

  lemma FillThree(wc: Wc, width: nat, x: Item, y: Item, z: Item)
    ensures Fill(wc, width, START, [x] + ([y] + [z]))
         == Step(wc, width, Step(wc, width, Step(wc, width, START, x), y), z)
  {
    hide Step;
    FillCons(wc, width, START, x, [y] + [z]);
    var st := Step(wc, width, START, x);
    FillCons(wc, width, st, y, [z]);
    FillCons(wc, width, Step(wc, width, st, y), z, []);
    assert [z] + [] == [z];
  }

  lemma FillCons(wc: Wc, width: nat, st: State, x: Item, rest: seq<Item>)
    ensures Fill(wc, width, st, [x] + rest) == Fill(wc, width, Step(wc, width, st, x), rest)
  {
    hide Step;
    assert ([x] + rest)[1..] == rest;
  }

  // ----- letters --------------------------------------------------------------------------

  /** Bytes of one column each. */
  predicate Letters(wc: Wc, w: Text) {
    forall i | 0 <= i < |w| :: 32 < w[i] < 127 && wc(w[i]) == 1
  }

  lemma LetterPiece(wc: Wc, w: Text)
    requires w != [] && Letters(wc, w)
    ensures Len(w) == 1 && CellsOf(wc, Cp(w)) == 1 && Letters(wc, w[1..])
  {
    assert Bits(w, 1) == w[0];
  }

  lemma {:induction false} LettersMeasure(wc: Wc, w: Text, b: nat)
    requires Letters(wc, w) && b <= |w|
    ensures Width(wc, w) == |w| && Boundary(w, b) && Width(wc, w[..b]) == b
    decreases |w|
  {
    hide Cp, Len, Letters;
    if w != [] {
      LetterPiece(wc, w);
      if b > 0 {
        LettersMeasure(wc, w[1..], b - 1);
        PrefixWidth(wc, w, b);
        assert w[..b][1..] == w[1..][..b - 1];
      } else {
        LettersMeasure(wc, w[1..], 0);
      }
    }
  }

  lemma {:induction false} LettersNarrow(wc: Wc, width: nat, w: Text)
    requires Letters(wc, w) && width > 0
    ensures BreakEnds(wc, width, w)
    decreases |w|
  {
    hide CopyLen, Letters;
    if |w| > width {
      var k := CopyLen(wc, w, CHUNK_ROOM, width);
      LetterPiece(wc, w);
      FirstFits(wc, width, w);
      LettersTail(wc, w, k);
      LettersNarrow(wc, width, w[k..]);
    } else {
      LettersMeasure(wc, w, 0);
    }
  }

  lemma LettersTail(wc: Wc, w: Text, k: nat)
    requires Letters(wc, w) && k <= |w|
    ensures Letters(wc, w[k..])
  {
  }

  /** The lines of `m` bytes or less that `w` falls into. */
  function Cut(w: Text, m: nat): seq<Text>
    requires m > 0
    decreases |w|
  {
    if |w| <= m then [w] else [w[..m]] + Cut(w[m..], m)
  }

  lemma LettersPiece(wc: Wc, width: nat, w: Text, k: nat)
    requires Letters(wc, w) && 0 < width < |w| && width <= 4095 && LongestPiece(wc, width, w, k)
    ensures k == width
  {
    hide Width, Boundary, Letters;
    LettersMeasure(wc, w, k);
    LettersMeasure(wc, w, width);
  }

  lemma {:induction false} LettersBreak(wc: Wc, width: nat, w: Text, b: Broken)
    requires Letters(wc, w) && width > 0 && (width <= 4095 || |w| <= 4095)
    requires GreedyPieces(wc, width, w, b)
    ensures b.chunks + [b.rest] == Cut(w, width)
    decreases |w|
  {
    hide Width, Letters, LongestPiece;
    LettersMeasure(wc, w, 0);
    if |w| <= width {
      assert [] + [b.rest] == [b.rest];
    } else {
      var k := |b.chunks[0]|;
      LettersPiece(wc, width, w, k);
      LettersTail(wc, w, k);
      LettersBreak(wc, width, w[k..], Broken(b.chunks[1..], b.rest));
      assert b.chunks + [b.rest] == [w[..k]] + (b.chunks[1..] + [b.rest]);
    }
  }

  /** A word of one-column letters is cut every `width` letters. */
  lemma LettersWrap(wc: Wc, width: nat, w: Text)
    requires w != [] && Letters(wc, w) && width > 0 && (width <= 4095 || |w| <= 4095)
    ensures Wrapped(wc, width, w) == Cut(w, width)
  {
    hide Width, Letters, Wrapped, Break, GreedyPieces, Narrow;
    assert IsWord(w) by { LettersAreWord(wc, w); }
    LettersNarrow(wc, width, w);
    BreakEndsIffNarrow(wc, width, w);
    LettersMeasure(wc, w, 0);
    OneWordLines(wc, width, w);
    BreakIsGreedy(wc, width, w);
    LettersBreak(wc, width, w, Break(wc, width, w));
  }

  lemma LettersAreWord(wc: Wc, w: Text)
    requires w != [] && Letters(wc, w)
    ensures IsWord(w)
  {
  }

  /** So `n` letters take ceil(n / width) lines, all but the last of exactly `width` letters. */
  lemma {:induction false} CutCount(w: Text, m: nat)
    requires m > 0 && w != []
    ensures (|Cut(w, m)| - 1) * m < |w| <= |Cut(w, m)| * m
    ensures Flatten(Cut(w, m)) == w
    ensures forall i | 0 <= i < |Cut(w, m)| - 1 :: |Cut(w, m)[i]| == m
    decreases |w|
  {
    if |w| <= m {
      assert [w][1..] == [] && w + [] == w;
    } else {
      CutCount(w[m..], m);
      var rest := Cut(w[m..], m);
      assert Cut(w, m)[1..] == rest;
      assert w[..m] + w[m..] == w;
      assert (|rest| - 1) * m + m == |rest| * m;
      assert |rest| * m + m == (|rest| + 1) * m;
    }
  }
}
