/** The greedy line wrapper: words measured in columns, long words broken, blank lines for empty paragraphs. */
module Wrap {
  import opened Bytes
  import opened Utf8
  import opened Cells

  /** Room in the scratch buffer a chunk of a long word is copied through. */
  const CHUNK_ROOM := 4095

  // ----- the text as a list of items ---------------------------------------

  /** An empty paragraph, or a word. */
  datatype Item = Blank | Word(bytes: Text)

  /** Index of the first space or tab; the length if there is none. */
  function GapAt(s: Text): (k: nat)
    ensures k <= |s|
    ensures k < |s| ==> IsBlank(s[k])
    ensures forall i | 0 <= i < k :: !IsBlank(s[i])
  {
    if s == [] || IsBlank(s[0]) then 0
    else
      var k := GapAt(s[1..]);
      assert forall i | 1 <= i < k + 1 :: s[i] == s[1..][i - 1];
      k + 1
  }

  function WordItem(w: Text): seq<Item> { if w == [] then [] else [Word(w)] }

  /** The words of a paragraph: what lies between spaces and tabs, empty pieces skipped. */
  function Tokens(s: Text): seq<Item>
    decreases |s|
  {
    var k := GapAt(s);
    if k == |s| then WordItem(s) else WordItem(s[..k]) + Tokens(s[k + 1..])
  }

  /** An empty paragraph asks for a blank line; single newlines between others are no more than gaps. */
  function ParagraphItems(p: Text): seq<Item> { if p == [] then [Blank] else Tokens(p) }

  function Items(text: Text): seq<Item>
    decreases |text|
  {
    var k := Find(text, NL);
    if k < 0 then ParagraphItems(text) else ParagraphItems(text[..k]) + Items(text[k + 1..])
  }

  // ----- the filler ------------------------------------------------------------

  /** Finished lines, the line being filled, and its width. */
  datatype State = State(lines: seq<Text>, line: Text, cells: nat)

  const START := State([], [], 0)

  datatype Broken = Broken(chunks: seq<Text>, rest: Text)

  /** Cut a word into chunks of at most `width` columns until the rest fits. */
  function Break(wc: Wc, width: nat, word: Text): Broken
    decreases |word|
  {
    var k := CopyLen(wc, word, CHUNK_ROOM, width);
    if Width(wc, word) <= width || k == 0 then Broken([], word)
    else
      var b := Break(wc, width, word[k..]);
      Broken([word[..k]] + b.chunks, b.rest)
  }

  function Flush(st: State): State {
    if st.cells > 0 then State(st.lines + [st.line], [], 0) else st
  }

  predicate Appends(wc: Wc, width: nat, st: State, word: Text) {
    st.cells > 0 && st.cells + 1 + Width(wc, word) <= width
  }

  function Step(wc: Wc, width: nat, st: State, item: Item): State {
    match item
    case Blank =>
      var f := Flush(st);
      f.(lines := f.lines + [[]])
    case Word(w) =>
      if Appends(wc, width, st, w) then
        State(st.lines, st.line + [SP] + w, st.cells + 1 + Width(wc, w))
      else
        var b := Break(wc, width, w);
        State(Flush(st).lines + b.chunks, b.rest, Width(wc, b.rest))
  }

  function Fill(wc: Wc, width: nat, st: State, items: seq<Item>): State
    decreases |items|
  {
    if items == [] then st else Fill(wc, width, Step(wc, width, st, items[0]), items[1..])
  }

  /** All lines produced for a text. */
  function Wrapped(wc: Wc, width: nat, text: Text): seq<Text> {
    Flush(Fill(wc, width, START, Items(text))).lines
  }

  // ----- breaking terminates ------------------------------------------------------

  /** Every code point of the word fits a line of its own. */
  predicate NarrowPieces(wc: Wc, width: nat, ps: seq<seq<Byte>>) {
    ps == [] || ((ps[0] == [] || CellsOf(wc, Cp(ps[0])) <= width) && NarrowPieces(wc, width, ps[1..]))
  }

  predicate Narrow(wc: Wc, width: nat, word: seq<Byte>) { NarrowPieces(wc, width, Segments(word)) }

  /** The breaking loop comes to an end: each round either stops or takes something off the word. */
  predicate BreakEnds(wc: Wc, width: nat, word: seq<Byte>)
    decreases |word|
  {
    Width(wc, word) <= width
    || (var k := CopyLen(wc, word, CHUNK_ROOM, width); k > 0 && BreakEnds(wc, width, word[k..]))
  }

  lemma {:induction false} NarrowCut(wc: Wc, width: nat, a: seq<seq<Byte>>, b: seq<seq<Byte>>)
    ensures NarrowPieces(wc, width, a + b) <==> NarrowPieces(wc, width, a) && NarrowPieces(wc, width, b)
  {
    if a == [] {
      assert a + b == b;
    } else {
      assert (a + b)[1..] == a[1..] + b;
      NarrowCut(wc, width, a[1..], b);
    }
  }

  lemma {:induction false} ThinIsNarrow(wc: Wc, width: nat, ps: seq<seq<Byte>>)
    requires PieceWidths(wc, ps) <= width
    ensures NarrowPieces(wc, width, ps)
  {
    if ps != [] {
      ThinIsNarrow(wc, width, ps[1..]);
    }
  }

  lemma FirstFits(wc: Wc, width: nat, word: seq<Byte>)
    requires word != []
    ensures CopyLen(wc, word, CHUNK_ROOM, width) > 0 <==> CellsOf(wc, Cp(word)) <= width
    ensures Narrow(wc, width, word) ==> CellsOf(wc, Cp(word)) <= width
  {
    hide Cp, ValidAt;
    FirstPiece(word, word[..Len(word)]);
    assert Segments(word)[0] == word[..Len(word)];
  }

  /** Breaking a word ends exactly when none of its code points is wider than the line. */
  lemma {:induction false} BreakEndsIffNarrow(wc: Wc, width: nat, word: seq<Byte>)
    ensures BreakEnds(wc, width, word) <==> Narrow(wc, width, word)
    decreases |word|
  {
    hide Cp, Len, Segments, CopyLen;
    var k := CopyLen(wc, word, CHUNK_ROOM, width);
    if Width(wc, word) <= width {
      WidthOfPieces(wc, word);
      ThinIsNarrow(wc, width, Segments(word));
    } else {
      assert word != [];
      FirstFits(wc, width, word);
      if k > 0 {
        BreakEndsIffNarrow(wc, width, word[k..]);
        CopyFits(wc, word, CHUNK_ROOM, width);
        CutAtBoundary(word, k);
        WidthOfPieces(wc, word[..k]);
        ThinIsNarrow(wc, width, Segments(word[..k]));
        NarrowCut(wc, width, Segments(word[..k]), Segments(word[k..]));
      }
    }
  }
}
