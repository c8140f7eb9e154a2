/** render_wrap itself: nested loops that append to a growing array of lines. */
module WrapCode {
  import opened Bytes
  import opened Utf8
  import opened Cells
  import opened Sanitize
  import opened Wrap
  import opened WrapProof
  import opened WrapBuffer

  /** A line to draw. */
  datatype ArtLine = ArtLine(text: Text, attr: int)

  const FIRST_LINES := 32

  class LineList {
    var lines: array<ArtLine>
    var n: nat

    ghost predicate Valid()
      reads this
    {
      n <= lines.Length && (lines.Length == 0 || Doubled(FIRST_LINES, lines.Length))
    }

    ghost function Contents(): seq<ArtLine>
      reads this, lines
      requires Valid()
    {
      lines[..n]
    }

    constructor ()
      ensures Valid() && Contents() == [] && fresh(lines)
    {
      lines, n := new ArtLine[0], 0;
    }

    /** Append a copy of the line, doubling the array when it is full. */
    method PushLine(s: Text, attr: int)
      requires Valid()
      modifies this, lines
      ensures Valid() && Contents() == old(Contents()) + [ArtLine(s, attr)]
      ensures lines.Length == if old(n) < old(lines.Length) then old(lines.Length)
                              else if old(lines.Length) > 0 then old(lines.Length) * 2 else 32
      ensures fresh(lines) || lines == old(lines)
    {
      if n == lines.Length {
        var cap := if lines.Length > 0 then lines.Length * 2 else FIRST_LINES;
        var bigger := new ArtLine[cap](_ => ArtLine([], 0));
        forall i | 0 <= i < n {
          bigger[i] := lines[i];
        }
        assert bigger[..n] == lines[..n];
        lines := bigger;
      }
      ghost var was := lines[..n];
      lines[n] := ArtLine(s, attr);
      n := n + 1;
      assert lines[..n] == was + [ArtLine(s, attr)];
    }
  }

  function WithAttr(ls: seq<Text>, attr: int): seq<ArtLine> {
    seq(|ls|, i requires 0 <= i < |ls| => ArtLine(ls[i], attr))
  }

  lemma WithAttrSnoc(base: seq<ArtLine>, ls: seq<Text>, l: Text, attr: int)
    ensures base + WithAttr(ls + [l], attr) == base + WithAttr(ls, attr) + [ArtLine(l, attr)]
  {
    assert WithAttr(ls + [l], attr) == WithAttr(ls, attr) + [ArtLine(l, attr)];
  }

  /** `out` holds `base` followed by the lines `ls`. */
  ghost predicate Holds(out: LineList, base: seq<ArtLine>, ls: seq<Text>, attr: int)
    reads out, out.lines
  {
    out.Valid() && out.Contents() == base + WithAttr(ls, attr)
  }

  method Push(out: LineList, s: Text, attr: int, ghost base: seq<ArtLine>, ghost ls: seq<Text>)
    requires Holds(out, base, ls, attr)
    modifies out, out.lines
    ensures Holds(out, base, ls + [s], attr)
    ensures fresh(out.lines) || out.lines == old(out.lines)
  {
    WithAttrSnoc(base, ls, s, attr);
    out.PushLine(s, attr);
  }

  // ----- the line buffer -------------------------------------------------------------------

  /** The C string in the line buffer. */
  ghost predicate LineHolds(buf: array<Byte>, t: Text)
    reads buf
  {
    |t| < buf.Length && buf[..|t|] == t && buf[|t|] == 0
  }

  /** `strcpy` */
  method CopyText(buf: array<Byte>, s: Text)
    requires |s| < buf.Length
    modifies buf
    ensures LineHolds(buf, s)
  {
    forall i | 0 <= i < |s| {
      buf[i] := s[i];
    }
    buf[|s|] := 0;
    assert buf[..|s|] == s;
  }

  /** `strcat` */
  method AppendText(buf: array<Byte>, s: Text, ghost t: Text)
    requires LineHolds(buf, t) && |t| + |s| < buf.Length
    modifies buf
    ensures LineHolds(buf, t + s)
  {
    var text := LineText(buf, t);
    var n := |text|;
    forall i | 0 <= i < |s| {
      buf[n + i] := s[i];
    }
    buf[n + |s|] := 0;
    assert buf[..n] == t;
    assert buf[n..n + |s|] == s;
    assert buf[..n + |s|] == buf[..n] + buf[n..n + |s|];
  }

  method LineText(buf: array<Byte>, ghost t: Text) returns (s: Text)
    requires LineHolds(buf, t)
    ensures s == t
  {
    assert buf[..][|t|] == 0 && buf[..][..|t|] == buf[..|t|];
    CStrOf(buf[..], |t|);
    var n := StrLen(buf);
    s := buf[..n];
  }

  /** The finished lines are in the list and the current one is in a buffer of its size. */
  ghost predicate Filling(out: LineList, buf: array<Byte>, width: nat, base: seq<ArtLine>, st: State, attr: int)
    reads out, out.lines, buf
  {
    Holds(out, base, st.lines, attr) && buf.Length == LineRoom(width) + 1 && LineHolds(buf, st.line)
  }

  // ----- the loops ---------------------------------------------------------------------------

  lemma BreakStep(wc: Wc, width: nat, word: Text, k: nat)
    requires Width(wc, word) > width && k == CopyLen(wc, word, CHUNK_ROOM, width) && k > 0
    ensures Break(wc, width, word).chunks == [word[..k]] + Break(wc, width, word[k..]).chunks
    ensures Break(wc, width, word).rest == Break(wc, width, word[k..]).rest
    ensures |word[k..]| < |word|
  {
  }

  /** The loop that cuts a long word into chunks, through a scratch buffer. */
  method BreakLoop(wc: Wc, width: nat, attr: int, out: LineList, word0: Text,
                   ghost base: seq<ArtLine>, ghost ls: seq<Text>)
    returns (word: Text, ww: nat)
    requires Holds(out, base, ls, attr) && BreakEnds(wc, width, word0)
    modifies out, out.lines
    ensures Holds(out, base, ls + Break(wc, width, word0).chunks, attr)
    ensures word == Break(wc, width, word0).rest && ww == Width(wc, word)
    ensures fresh(out.lines) || out.lines == old(out.lines)
  {
    hide Width, CopyLen, Holds;
    word := word0;
    ww := Utf8Width(wc, word);
    ghost var pushed: seq<Text> := [];
    assert ls + [] == ls && [] + Break(wc, width, word).chunks == Break(wc, width, word).chunks;
    while ww > width
      invariant ww == Width(wc, word) && BreakEnds(wc, width, word)
      invariant Holds(out, base, ls + pushed, attr) && (fresh(out.lines) || out.lines == old(out.lines))
      invariant pushed + Break(wc, width, word).chunks == Break(wc, width, word0).chunks
      invariant Break(wc, width, word).rest == Break(wc, width, word0).rest
      decreases |word|
    {
      var tmp := new Byte[4096];
      var _ := Utf8CopyCells(wc, tmp, word, width);
      ghost var k := CopyLen(wc, word, CHUNK_ROOM, width);
      var used := StrLen(tmp);
      var chunk: Text := tmp[..used];
      BreakStep(wc, width, word, k);
      Push(out, chunk, attr, base, ls + pushed);
      Assoc(ls, pushed, [chunk]);
      Assoc(pushed, [chunk], Break(wc, width, word[k..]).chunks);
      pushed := pushed + [chunk];
      word := word[|chunk|..];
      ww := Utf8Width(wc, word);
    }
    assert Break(wc, width, word) == Broken([], word);
    assert pushed + [] == pushed;
  }

  /** Push the line if it has anything in it, and clear it. */
  method FlushLine(out: LineList, buf: array<Byte>, cells: nat, width: nat, attr: int,
                   ghost base: seq<ArtLine>, ghost st: State)
    requires Filling(out, buf, width, base, st, attr) && cells == st.cells
    modifies out, out.lines, buf
    ensures Filling(out, buf, width, base, Flush(st), attr)
    ensures fresh(out.lines) || out.lines == old(out.lines)
  {
    hide Holds;
    if cells > 0 {
      var line := LineText(buf, st.line);
      Push(out, line, attr, base, st.lines);
      buf[0] := 0;
    }
  }

  /** One word: appended to the line, or started on a new one after breaking. */
  method PlaceWord(wc: Wc, width: nat, attr: int, out: LineList, buf: array<Byte>, cells: nat, word: Text,
                   ghost base: seq<ArtLine>, ghost st: State)
    returns (cells': nat)
    requires Filling(out, buf, width, base, st, attr) && cells == st.cells
    requires BreakEnds(wc, width, word) && Room(wc, width, st, Word(word))
    modifies out, out.lines, buf
    ensures Filling(out, buf, width, base, Step(wc, width, st, Word(word)), attr)
    ensures cells' == Step(wc, width, st, Word(word)).cells
    ensures fresh(out.lines) || out.lines == old(out.lines)
  {
    hide Width, Break, Holds, BreakEnds, LineHolds;
    var ww := Utf8Width(wc, word);
    if cells > 0 && cells + 1 + ww <= width {
      AppendText(buf, [SP], st.line);
      AppendText(buf, word, st.line + [SP]);
      return cells + 1 + ww;
    }
    FlushLine(out, buf, cells, width, attr, base, st);
    var rest;
    rest, cells' := BreakLoop(wc, width, attr, out, word, base, Flush(st).lines);
    CopyText(buf, rest);
  }

  predicate EndingItems(wc: Wc, width: nat, items: seq<Item>) {
    forall x <- items :: x.Word? ==> BreakEnds(wc, width, x.bytes)
  }

  lemma TokensAt(s: Text, k: nat)
    requires k == GapAt(s)
    ensures k == |s| ==> Tokens(s) == WordItem(s[..k])
    ensures k < |s| ==> Tokens(s) == WordItem(s[..k]) + Tokens(s[k + 1..])
  {
    hide GapAt, WordItem;
    assert k == |s| ==> s[..k] == s;
  }

  lemma EndingConcat(wc: Wc, width: nat, a: seq<Item>, b: seq<Item>)
    requires EndingItems(wc, width, a + b)
    ensures EndingItems(wc, width, a) && EndingItems(wc, width, b)
  {
    hide BreakEnds;
    assert forall x <- a :: x in a + b;
    assert forall x <- b :: x in a + b;
  }

  /** The word loop of one paragraph: `save` is what `strsep` has left, if anything. */
  method WrapParagraph(wc: Wc, width: nat, attr: int, out: LineList, buf: array<Byte>, para: Text, cells0: nat,
                       ghost base: seq<ArtLine>, ghost st0: State)
    returns (cells: nat)
    requires Filling(out, buf, width, base, st0, attr) && cells0 == st0.cells
    requires EndingItems(wc, width, Tokens(para)) && Roomy(wc, width, st0, Tokens(para))
    modifies out, out.lines, buf
    ensures Filling(out, buf, width, base, Fill(wc, width, st0, Tokens(para)), attr)
    ensures cells == Fill(wc, width, st0, Tokens(para)).cells
    ensures fresh(out.lines) || out.lines == old(out.lines)
  {
    hide Tokens, Step, Fill, Filling, EndingItems, GapAt, BreakEnds, Roomy, Room;
    cells := cells0;
    var save, more := para, true;
    ghost var st := st0;
    while more
      invariant st.cells == cells && Filling(out, buf, width, base, st, attr)
      invariant fresh(out.lines) || out.lines == old(out.lines)
      invariant more ==> EndingItems(wc, width, Tokens(save)) && Roomy(wc, width, st, Tokens(save))
      invariant (if more then Fill(wc, width, st, Tokens(save)) else st) == Fill(wc, width, st0, Tokens(para))
      decreases more, |save|
    {
      var k := GapAt(save);
      TokensAt(save, k);
      var word := save[..k];
      ghost var rest := if k < |save| then Tokens(save[k + 1..]) else [];
      assert WordItem(word) + [] == WordItem(word);
      EndingConcat(wc, width, WordItem(word), rest);
      FillConcat(wc, width, st, WordItem(word), rest);
      RoomyConcat(wc, width, st, WordItem(word), rest);
      FillOne(wc, width, st, word);
      if word != [] {
        EndingWord(wc, width, word);
        RoomyWord(wc, width, st, word);
        cells := PlaceWord(wc, width, attr, out, buf, cells, word, base, st);
        st := Step(wc, width, st, Word(word));
      }
      FillNone(wc, width, st);
      if k < |save| {
        save := save[k + 1..];
      } else {
        more := false;
      }
    }
  }

  lemma RoomyWord(wc: Wc, width: nat, st: State, word: Text)
    requires word != [] && Roomy(wc, width, st, WordItem(word))
    ensures Room(wc, width, st, Word(word))
  {
    hide Room, Step;
  }

  lemma FillOne(wc: Wc, width: nat, st: State, word: Text)
    ensures Fill(wc, width, st, WordItem(word)) == if word == [] then st else Step(wc, width, st, Word(word))
  {
    hide Step;
    if word != [] {
      assert WordItem(word)[1..] == [];
    }
  }

  lemma FillNone(wc: Wc, width: nat, st: State)
    ensures Fill(wc, width, st, []) == st
  {
  }

  lemma EndingWord(wc: Wc, width: nat, word: Text)
    requires word != [] && EndingItems(wc, width, WordItem(word))
    ensures BreakEnds(wc, width, word)
  {
    hide BreakEnds;
    assert WordItem(word)[0] == Word(word);
  }

  lemma ItemsAt(text: Text, p: nat, k: int)
    requires p <= |text| && k == Find(text[p..], NL)
    ensures k < 0 ==> Items(text[p..]) == ParagraphItems(text[p..]) + []
    ensures k >= 0 ==> p + k + 1 <= |text|
    ensures k >= 0 ==> Items(text[p..]) == ParagraphItems(text[p..p + k]) + Items(text[p + k + 1..])
  {
    hide ParagraphItems;
    assert ParagraphItems(text[p..]) + [] == ParagraphItems(text[p..]);
    if k >= 0 {
      assert text[p..][..k] == text[p..p + k];
      assert text[p..][k + 1..] == text[p + k + 1..];
    }
  }

  /** One paragraph: a blank line if it is empty, its words otherwise. */
  method WrapOne(wc: Wc, width: nat, attr: int, out: LineList, buf: array<Byte>, para: Text, cells0: nat,
                 ghost base: seq<ArtLine>, ghost st: State)
    returns (cells: nat)
    requires Filling(out, buf, width, base, st, attr) && cells0 == st.cells
    requires EndingItems(wc, width, ParagraphItems(para)) && Roomy(wc, width, st, ParagraphItems(para))
    modifies out, out.lines, buf
    ensures Filling(out, buf, width, base, Fill(wc, width, st, ParagraphItems(para)), attr)
    ensures cells == Fill(wc, width, st, ParagraphItems(para)).cells
    ensures fresh(out.lines) || out.lines == old(out.lines)
  {
    if |para| == 0 {
      hide Holds, LineHolds;
      FlushLine(out, buf, cells0, width, attr, base, st);
      cells := 0;
      Push(out, [], attr, base, Flush(st).lines);
      FillBlank(wc, width, st);
    } else {
      cells := WrapParagraph(wc, width, attr, out, buf, para, cells0, base, st);
    }
  }

  lemma FillBlank(wc: Wc, width: nat, st: State)
    ensures Fill(wc, width, st, [Blank]) == Step(wc, width, st, Blank)
  {
    hide Step;
    assert [Blank][1..] == [];
  }

  /** The paragraph loop: the last line is left unfinished in the buffer. */
  method ParagraphLoop(wc: Wc, width: nat, attr: int, out: LineList, buf: array<Byte>, text: Text,
                       ghost base: seq<ArtLine>)
    returns (cells: nat)
    requires Filling(out, buf, width, base, START, attr)
    requires EndingItems(wc, width, Items(text)) && LineFits(wc, width, text)
    modifies out, out.lines, buf
    ensures Filling(out, buf, width, base, Fill(wc, width, START, Items(text)), attr)
    ensures cells == Fill(wc, width, START, Items(text)).cells
    ensures fresh(out.lines) || out.lines == old(out.lines)
  {
    hide Items, ParagraphItems, Fill, Filling, EndingItems, Find, Roomy;
    cells := 0;
    var p, more := 0, true;
    ghost var st := START;
    assert text[0..] == text;
    while more
      invariant p <= |text| && st.cells == cells && Filling(out, buf, width, base, st, attr)
      invariant fresh(out.lines) || out.lines == old(out.lines)
      invariant more ==> EndingItems(wc, width, Items(text[p..])) && Roomy(wc, width, st, Items(text[p..]))
      invariant if more then Fill(wc, width, st, Items(text[p..])) == Fill(wc, width, START, Items(text))
                else st == Fill(wc, width, START, Items(text))
      decreases more, |text| - p
    {
      var k := Find(text[p..], NL);
      ItemsAt(text, p, k);
      var para := if k >= 0 then text[p..p + k] else text[p..];
      ghost var rest := if k >= 0 then Items(text[p + k + 1..]) else [];
      EndingConcat(wc, width, ParagraphItems(para), rest);
      FillConcat(wc, width, st, ParagraphItems(para), rest);
      RoomyConcat(wc, width, st, ParagraphItems(para), rest);
      cells := WrapOne(wc, width, attr, out, buf, para, cells, base, st);
      st := Fill(wc, width, st, ParagraphItems(para));
      FillNone(wc, width, st);
      if k < 0 {
        more := false;
      } else {
        p := p + k + 1;
      }
    }
  }

  /** The words of a text that the breaking loop can finish, in a line of the given width (one at least). */
  predicate Wrappable(wc: Wc, width: int, text: Text) {
    EndingItems(wc, Max(width, 1), Items(text))
  }

  /** Append the wrapped text to the list of lines. */
  method RenderWrap(wc: Wc, text: Text, width: int, attr: int, out: LineList)
    requires out.Valid() && Wrappable(wc, width, text) && LineFits(wc, Max(width, 1), text)
    modifies out, out.lines
    ensures out.Valid() && (fresh(out.lines) || out.lines == old(out.lines))
    ensures out.Contents() == old(out.Contents()) + WithAttr(Wrapped(wc, Max(width, 1), text), attr)
  {
    hide Fill, Items, EndingItems, LineFits;
    var w := if width < 1 then 1 else width;
    ghost var base := out.Contents();
    assert base + WithAttr([], attr) == base;
    var buf := new Byte[w * 4 + 1];
    buf[0] := 0;
    var cells := ParagraphLoop(wc, w, attr, out, buf, text, base);
    FlushLine(out, buf, cells, w, attr, base, Fill(wc, w, START, Items(text)));
  }

  /** The call terminates exactly on texts none of whose words has a code point wider than the line ... */
  lemma WrappableIffNarrow(wc: Wc, width: int, text: Text)
    ensures Wrappable(wc, width, text) <==> NarrowItems(wc, Max(width, 1), Items(text))
  {
    hide BreakEnds, Narrow, Items;
    forall x <- Items(text) | x.Word?
      ensures BreakEnds(wc, Max(width, 1), x.bytes) <==> Narrow(wc, Max(width, 1), x.bytes)
    {
      BreakEndsIffNarrow(wc, Max(width, 1), x.bytes);
    }
  }

  /**
   * For a text of one character that is exactly when the character is no wider than the line: a line of one
   * column never takes a character of two, and the breaking loop goes round for ever.
   */
  lemma OneCharacterWrappable(wc: Wc, width: int, c: int)
    requires 0 < c <= 0x10FFFF && !IsWhite(c)
    ensures Wrappable(wc, width, Encode(c)) <==> CellsOf(wc, c) <= Max(width, 1)
    ensures wc(c) == 2 ==> !Wrappable(wc, 1, Encode(c))
  {
    hide Narrow, Items;
    var e := Encode(c);
    CharacterIsPiece(c);
    OneWord(e);
    assert [Word(e)][0] == Word(e);
    WrappableIffNarrow(wc, width, e);
    WrappableIffNarrow(wc, 1, e);
    CharacterNarrow(wc, Max(width, 1), c);
    CharacterNarrow(wc, 1, c);
  }

  lemma CharacterNarrow(wc: Wc, width: nat, c: int)
    requires 0 < c <= 0x10FFFF && !IsWhite(c)
    ensures Narrow(wc, width, Encode(c)) <==> CellsOf(wc, c) <= width
  {
    hide Segments, Cp;
    CharacterIsPiece(c);
    var ps: seq<seq<Byte>> := [Encode(c)];
    assert ps[1..] == [] && Narrow(wc, width, Encode(c)) == NarrowPieces(wc, width, ps);
  }

  /** An encoded character is a word of one piece. */
  lemma CharacterIsPiece(c: int)
    requires 0 < c <= 0x10FFFF && !IsWhite(c)
    ensures IsWord(Encode(c)) && Segments(Encode(c)) == [Encode(c)] && Cp(Encode(c)) == c
  {
    var e := Encode(c);
    EncodeDecode(c, []);
    assert e + [] == e;
    assert c >= 0x80 ==> forall b <- e :: b >= 0x80;
    assert e[|e|..] == [] && e[..|e|] == e;
  }

  /** `wcwidth` as the C library defines it: at most two columns. */
  ghost predicate AtMostTwo(wc: Wc) { forall c: int :: wc(c) <= 2 }

  lemma {:induction false} TwoIsNarrow(wc: Wc, width: nat, ps: seq<seq<Byte>>)
    requires AtMostTwo(wc) && width >= 2
    ensures NarrowPieces(wc, width, ps)
  {
    hide Cp;
    if ps != [] {
      TwoIsNarrow(wc, width, ps[1..]);
    }
  }

  /** ... so always from a width of two on. */
  lemma WideEnough(wc: Wc, width: int, text: Text)
    requires AtMostTwo(wc) && width >= 2
    ensures Wrappable(wc, width, text)
  {
    hide Items, Segments, NarrowPieces;
    WrappableIffNarrow(wc, width, text);
    forall x <- Items(text) | x.Word?
      ensures Narrow(wc, Max(width, 1), x.bytes)
    {
      TwoIsNarrow(wc, width, Segments(x.bytes));
    }
  }
}
