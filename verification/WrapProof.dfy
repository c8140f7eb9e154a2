/** What wrapping guarantees: lines fit, nothing is lost except on a known condition, blank lines match. */
module WrapProof {
  import opened Bytes
  import opened Utf8
  import opened Cells
  import opened Wrap

  // ----- items -------------------------------------------------------------------

  /** A nonempty word without white bytes. */
  predicate IsWord(w: Text) { w != [] && forall i | 0 <= i < |w| :: !IsWhite(w[i]) }

  predicate ProperItems(items: seq<Item>) {
    forall x <- items :: x.Word? ==> IsWord(x.bytes)
  }

  lemma WordItemProper(s: Text, k: nat)
    requires k <= |s| && NL !in s && forall i | 0 <= i < k :: !IsBlank(s[i])
    ensures ProperItems(WordItem(s[..k]))
  {
    forall i | 0 <= i < k
      ensures !IsWhite(s[..k][i])
    {
      assert s[..k][i] == s[i];
    }
  }

  lemma {:induction false} TokensProper(s: Text)
    requires NL !in s
    ensures ProperItems(Tokens(s))
    decreases |s|
  {
    hide GapAt;
    var k := GapAt(s);
    assert forall i | 0 <= i < |s| :: s[i] != NL;
    if k == |s| {
      assert ProperItems(WordItem(s));
    } else {
      WordItemProper(s, k);
      TokensProper(s[k + 1..]);
    }
  }

  lemma ParagraphProper(p: Text)
    requires NL !in p
    ensures ProperItems(ParagraphItems(p))
  {
    hide Tokens;
    TokensProper(p);
  }

  lemma {:induction false} ItemsProper(text: Text)
    ensures ProperItems(Items(text))
    decreases |text|
  {
    hide ParagraphItems, Find, IsWord;
    var k := Find(text, NL);
    if k < 0 {
      ParagraphProper(text);
    } else {
      ParagraphProper(text[..k]);
      ItemsProper(text[k + 1..]);
    }
  }

  // ----- breaking one word ---------------------------------------------------------

  lemma NarrowRest(wc: Wc, width: nat, word: Text, k: nat)
    requires Narrow(wc, width, word) && Boundary(word, k)
    ensures k <= |word| && Narrow(wc, width, word[k..])
  {
    hide Segments, Boundary, NarrowPieces;
    CutAtBoundary(word, k);
    NarrowCut(wc, width, Segments(word[..k]), Segments(word[k..]));
  }

  /** A piece of a broken word that makes a line of its own. */
  predicate GoodChunk(wc: Wc, width: nat, c: Text) { c != [] && Width(wc, c) <= width }

  lemma JoinChunks(word: Text, k: nat, b: Broken)
    requires k <= |word| && Flatten(b.chunks) + b.rest == word[k..]
    ensures Flatten([word[..k]] + b.chunks) + b.rest == word
  {
    assert ([word[..k]] + b.chunks)[1..] == b.chunks;
    Assoc(word[..k], Flatten(b.chunks), b.rest);
    assert word[..k] + word[k..] == word;
  }

  /** The chunks and the rest are the word; all fit; and a rest is left that is visible if the word was. */
  lemma {:induction false} BreakParts(wc: Wc, width: nat, word: Text)
    requires Narrow(wc, width, word)
    ensures var b := Break(wc, width, word);
            && Flatten(b.chunks) + b.rest == word
            && (forall c <- b.chunks :: GoodChunk(wc, width, c))
            && Width(wc, b.rest) <= width
            && (Width(wc, word) > 0 ==> Width(wc, b.rest) > 0)
            && (Width(wc, word) <= width ==> b.rest == word && b.chunks == [])
    decreases |word|
  {
    hide Cp, Len, Segments, CopyLen, Narrow, Boundary, Width;
    var k := CopyLen(wc, word, CHUNK_ROOM, width);
    if Width(wc, word) <= width {
      assert Flatten<Char>([]) + word == word;
    } else {
      WidthEmpty(wc);
      FirstFits(wc, width, word);
      CopyFits(wc, word, CHUNK_ROOM, width);
      NarrowRest(wc, width, word, k);
      WidthCut(wc, word, k);
      BreakParts(wc, width, word[k..]);
      JoinChunks(word, k, Break(wc, width, word[k..]));
    }
  }

  lemma WidthEmpty(wc: Wc)
    ensures Width(wc, []) == 0
  {
  }

  // ----- lines fit -------------------------------------------------------------------

  predicate NarrowItems(wc: Wc, width: nat, items: seq<Item>) {
    forall x <- items :: x.Word? ==> Narrow(wc, width, x.bytes)
  }

  /** Every finished line fits, and the recorded width of the current line is its width. */
  predicate Fits(wc: Wc, width: nat, st: State) {
    && (forall l <- st.lines :: Width(wc, l) <= width)
    && st.cells == Width(wc, st.line) <= width
  }

  lemma AppendWidth(wc: Wc, line: Text, w: Text)
    requires CellsOf(wc, SP) == 1
    ensures Width(wc, line + [SP] + w) == Width(wc, line) + 1 + Width(wc, w)
  {
    hide Segments;
    var t := [SP] + w;
    assert Width(wc, t) == 1 + Width(wc, w) by {
      assert Len(t) == 1 && t[1..] == w;
      assert Bits(t, 1) == SP;
    }
    hide Width;
    WidthConcat(wc, line, t);
    Assoc(line, [SP], w);
  }

  lemma StepFits(wc: Wc, width: nat, st: State, item: Item)
    requires CellsOf(wc, SP) == 1 && Fits(wc, width, st)
    requires item.Word? ==> Narrow(wc, width, item.bytes)
    ensures Fits(wc, width, Step(wc, width, st, item))
  {
    hide Width, Narrow, Break;
    WidthEmpty(wc);
    if item.Word? {
      if Appends(wc, width, st, item.bytes) {
        AppendWidth(wc, st.line, item.bytes);
      } else {
        BreakParts(wc, width, item.bytes);
      }
    }
  }

  lemma {:induction false} FillFits(wc: Wc, width: nat, st: State, items: seq<Item>)
    requires CellsOf(wc, SP) == 1 && Fits(wc, width, st) && NarrowItems(wc, width, items)
    ensures Fits(wc, width, Fill(wc, width, st, items))
    decreases |items|
  {
    hide Fits, Step, Narrow;
    if items != [] {
      StepFits(wc, width, st, items[0]);
      FillFits(wc, width, Step(wc, width, st, items[0]), items[1..]);
    }
  }

  /** No line is wider than asked for. */
  lemma LinesFit(wc: Wc, width: nat, text: Text)
    requires CellsOf(wc, SP) == 1 && NarrowItems(wc, width, Items(text))
    ensures forall l <- Wrapped(wc, width, text) :: Width(wc, l) <= width
  {
    hide Width, Fill, NarrowItems;
    WidthEmpty(wc);
    FillFits(wc, width, START, Items(text));
  }

  // ----- nothing is lost ----------------------------------------------------------------

  /** A text without its white bytes. */
  function Ink(s: Text): Text {
    if s == [] then [] else (if IsWhite(s[0]) then [] else [s[0]]) + Ink(s[1..])
  }

  lemma {:induction false} InkConcat(a: Text, b: Text)
    ensures Ink(a + b) == Ink(a) + Ink(b)
  {
    if a == [] {
      assert a + b == b;
    } else {
      assert (a + b)[1..] == a[1..] + b;
      InkConcat(a[1..], b);
      Assoc(if IsWhite(a[0]) then [] else [a[0]], Ink(a[1..]), Ink(b));
    }
  }

  lemma {:induction false} InkOfWord(w: Text)
    requires forall i | 0 <= i < |w| :: !IsWhite(w[i])
    ensures Ink(w) == w
  {
    if w != [] {
      InkOfWord(w[1..]);
      assert [w[0]] + w[1..] == w;
    }
  }

  lemma InkOfWhite(c: Char)
    requires IsWhite(c)
    ensures Ink([c]) == []
  {
    assert [c][1..] == [];
  }

  function InkLines(lines: seq<Text>): Text { Ink(Flatten(lines)) }

  function InkItems(items: seq<Item>): Text {
    if items == [] then [] else (if items[0].Word? then items[0].bytes else []) + InkItems(items[1..])
  }

  /** A word too thin to see is lost when it starts a line or meets a full one. */
  predicate Lost(wc: Wc, width: nat, st: State, item: Item) {
    item.Word? && Width(wc, item.bytes) == 0 && !(0 < st.cells < width)
  }

  /** The words that are not lost along the way. */
  function Survivors(wc: Wc, width: nat, st: State, items: seq<Item>): Text
    decreases |items|
  {
    if items == [] then []
    else
      (if items[0].Word? && !Lost(wc, width, st, items[0]) then items[0].bytes else [])
      + Survivors(wc, width, Step(wc, width, st, items[0]), items[1..])
  }

  predicate NothingLost(wc: Wc, width: nat, st: State, items: seq<Item>)
    decreases |items|
  {
    items == [] || (!Lost(wc, width, st, items[0]) && NothingLost(wc, width, Step(wc, width, st, items[0]), items[1..]))
  }

  /** Visible content of a state: finished lines and, if it will be pushed, the current one. */
  function Content(st: State): Text { InkLines(Flush(st).lines) }

  lemma InkLinesSnoc(lines: seq<Text>, l: Text)
    ensures InkLines(lines + [l]) == InkLines(lines) + Ink(l)
  {
    FlattenSnoc(lines, l);
    InkConcat(Flatten(lines), l);
  }

  lemma StepAppendInk(st: State, line: Text, w: Text, cells: nat)
    requires IsWord(w) && st.cells > 0 && cells > 0 && line == st.line + [SP] + w
    ensures Content(State(st.lines, line, cells)) == Content(st) + w
  {
    hide Ink, InkLines;
    InkLinesSnoc(st.lines, line);
    InkLinesSnoc(st.lines, st.line);
    InkConcat(st.line + [SP], w);
    InkConcat(st.line, [SP]);
    InkOfWhite(SP);
    InkOfWord(w);
    assert Ink(st.line) + [] == Ink(st.line);
    Assoc(InkLines(st.lines), Ink(st.line), w);
  }

  lemma StepNewLineInk(st: State, b: Broken, w: Text, cells: nat)
    requires IsWord(w) && Flatten(b.chunks) + b.rest == w
    requires cells == 0 ==> b.chunks == []
    ensures Content(State(Flush(st).lines + b.chunks, b.rest, cells))
         == Content(st) + if cells > 0 then w else []
  {
    hide Ink;
    var ls := Flush(st).lines;
    if cells > 0 {
      InkLinesSnoc(ls + b.chunks, b.rest);
      FlattenConcat(ls, b.chunks);
      InkConcat(Flatten(ls), Flatten(b.chunks));
      InkConcat(Flatten(b.chunks), b.rest);
      InkOfWord(w);
      Assoc(InkLines(ls), Ink(Flatten(b.chunks)), Ink(b.rest));
    } else {
      assert ls + [] == ls;
    }
  }

  lemma StepBlankInk(st: State)
    ensures Content(State(Flush(st).lines + [[]], Flush(st).line, 0)) == Content(st)
  {
    InkLinesSnoc(Flush(st).lines, []);
  }

  lemma StepInk(wc: Wc, width: nat, st: State, item: Item)
    requires width > 0 && st.cells <= width
    requires item.Word? ==> IsWord(item.bytes) && Narrow(wc, width, item.bytes)
    ensures Content(Step(wc, width, st, item))
         == Content(st) + if item.Word? && !Lost(wc, width, st, item) then item.bytes else []
  {
    hide Content, Width, Narrow, Break, IsWord;
    if item.Blank? {
      StepBlankInk(st);
    } else if Appends(wc, width, st, item.bytes) {
      StepAppendInk(st, st.line + [SP] + item.bytes, item.bytes, st.cells + 1 + Width(wc, item.bytes));
    } else {
      var b := Break(wc, width, item.bytes);
      BreakParts(wc, width, item.bytes);
      StepNewLineInk(st, b, item.bytes, Width(wc, b.rest));
    }
  }

  lemma {:induction false} FillInk(wc: Wc, width: nat, st: State, items: seq<Item>)
    requires width > 0 && CellsOf(wc, SP) == 1 && Fits(wc, width, st)
    requires NarrowItems(wc, width, items) && ProperItems(items)
    ensures Content(Fill(wc, width, st, items)) == Content(st) + Survivors(wc, width, st, items)
    decreases |items|
  {
    hide Content, Step, Narrow, IsWord, Lost;
    if items == [] {
      assert Content(st) + [] == Content(st);
    } else {
      var next := Step(wc, width, st, items[0]);
      StepInk(wc, width, st, items[0]);
      StepFits(wc, width, st, items[0]);
      FillInk(wc, width, next, items[1..]);
      var own := if items[0].Word? && !Lost(wc, width, st, items[0]) then items[0].bytes else [];
      Assoc(Content(st), own, Survivors(wc, width, next, items[1..]));
    }
  }

  /** All words survive exactly when none is lost: a lost word leaves a gap in the byte count. */
  lemma {:induction false} SurvivorsComplete(wc: Wc, width: nat, st: State, items: seq<Item>)
    requires ProperItems(items)
    ensures |Survivors(wc, width, st, items)| <= |InkItems(items)|
    ensures NothingLost(wc, width, st, items) ==> Survivors(wc, width, st, items) == InkItems(items)
    ensures !NothingLost(wc, width, st, items) ==> |Survivors(wc, width, st, items)| < |InkItems(items)|
    decreases |items|
  {
    hide Step, Width;
    if items != [] {
      SurvivorsComplete(wc, width, Step(wc, width, st, items[0]), items[1..]);
    }
  }

  lemma {:induction false} InkItemsConcat(a: seq<Item>, b: seq<Item>)
    ensures InkItems(a + b) == InkItems(a) + InkItems(b)
  {
    if a == [] {
      assert a + b == b;
    } else {
      assert (a + b)[1..] == a[1..] + b;
      InkItemsConcat(a[1..], b);
      Assoc(if a[0].Word? then a[0].bytes else [], InkItems(a[1..]), InkItems(b));
    }
  }

  lemma WordItemInk(w: Text)
    requires forall i | 0 <= i < |w| :: !IsWhite(w[i])
    ensures InkItems(WordItem(w)) == Ink(w)
  {
    InkOfWord(w);
    if w != [] {
      assert WordItem(w)[1..] == [] && w + [] == w;
    }
  }

  lemma {:induction false} TokensInk(s: Text)
    requires NL !in s
    ensures InkItems(Tokens(s)) == Ink(s)
    decreases |s|
  {
    hide Ink, InkItems, WordItem;
    var k := GapAt(s);
    assert forall i | 0 <= i < |s| :: s[i] != NL;
    if k == |s| {
      WordItemInk(s);
    } else {
      var a, c, b := s[..k], s[k], s[k + 1..];
      WordItemInk(a);
      TokensInk(b);
      InkItemsConcat(WordItem(a), Tokens(b));
      InkAround(a, c, b);
      assert s == a + [c] + b;
    }
  }

  /** A white byte between two texts leaves no ink. */
  lemma InkAround(a: Text, c: Char, b: Text)
    requires IsWhite(c)
    ensures Ink(a + [c] + b) == Ink(a) + Ink(b)
  {
    hide Ink;
    InkConcat(a + [c], b);
    InkConcat(a, [c]);
    InkOfWhite(c);
    assert Ink(a) + [] == Ink(a);
  }

  lemma ParagraphInk(p: Text)
    requires NL !in p
    ensures InkItems(ParagraphItems(p)) == Ink(p)
  {
    if p == [] {
      assert [Blank][1..] == [];
    } else {
      TokensInk(p);
    }
  }

  lemma {:induction false} ItemsInk(text: Text)
    ensures InkItems(Items(text)) == Ink(text)
    decreases |text|
  {
    hide Ink, InkItems, ParagraphItems;
    var k := Find(text, NL);
    if k < 0 {
      ParagraphInk(text);
    } else {
      var a, b := text[..k], text[k + 1..];
      ParagraphInk(a);
      ItemsInk(b);
      InkItemsConcat(ParagraphItems(a), Items(b));
      InkAround(a, NL, b);
      assert text == a + [NL] + b;
    }
  }

  /**
   * The non-white bytes of the lines are those of the text, in order, exactly when no zero-width word
   * arrives at an empty or a full line.
   */
  lemma WrapKeepsInk(wc: Wc, width: nat, text: Text)
    requires width > 0 && CellsOf(wc, SP) == 1 && NarrowItems(wc, width, Items(text))
    ensures InkLines(Wrapped(wc, width, text)) == Ink(text) <==> NothingLost(wc, width, START, Items(text))
  {
    hide InkLines, Ink, Fill, Survivors, NothingLost, NarrowItems, Items, InkItems, ProperItems;
    var items := Items(text);
    ItemsProper(text);
    StartState(wc, width);
    FillInk(wc, width, START, items);
    SurvivorsComplete(wc, width, START, items);
    ItemsInk(text);
    assert [] + Survivors(wc, width, START, items) == Survivors(wc, width, START, items);
  }

  lemma StartState(wc: Wc, width: nat)
    ensures Fits(wc, width, START) && Content(START) == []
  {
  }

  predicate VisibleItems(wc: Wc, items: seq<Item>) {
    forall x <- items :: x.Word? ==> Width(wc, x.bytes) > 0
  }

  lemma {:induction false} VisibleNotLost(wc: Wc, width: nat, st: State, items: seq<Item>)
    requires VisibleItems(wc, items)
    ensures NothingLost(wc, width, st, items)
    decreases |items|
  {
    hide Step, Width;
    if items != [] {
      VisibleNotLost(wc, width, Step(wc, width, st, items[0]), items[1..]);
    }
  }

  /** In particular when every word takes at least one column. */
  lemma VisibleTextKept(wc: Wc, width: nat, text: Text)
    requires width > 0 && CellsOf(wc, SP) == 1
    requires NarrowItems(wc, width, Items(text)) && VisibleItems(wc, Items(text))
    ensures InkLines(Wrapped(wc, width, text)) == Ink(text)
  {
    hide InkLines, Ink, Wrapped, NarrowItems, NothingLost, VisibleItems, Items;
    VisibleNotLost(wc, width, START, Items(text));
    WrapKeepsInk(wc, width, text);
  }

  /** For example, a text that is one word of no width produces no line at all. */
  lemma ThinTextVanishes(wc: Wc, width: nat, w: Text)
    requires width > 0 && IsWord(w) && Width(wc, w) == 0
    ensures Wrapped(wc, width, w) == [] && Ink(w) != []
  {
    hide Width;
    assert Items(w) == [Word(w)] by {
      assert GapAt(w) == |w|;
    }
    InkOfWord(w);
    assert [Word(w)][1..] == [];
    var st := Step(wc, width, START, Word(w));
    assert st == State([], w, 0);
    assert Fill(wc, width, START, [Word(w)]) == Fill(wc, width, st, []);
  }

  // ----- blank lines ----------------------------------------------------------------------

  function EmptyLines(lines: seq<Text>): nat {
    if lines == [] then 0 else (if lines[0] == [] then 1 else 0) + EmptyLines(lines[1..])
  }

  function Blanks(items: seq<Item>): nat {
    if items == [] then 0 else (if items[0].Blank? then 1 else 0) + Blanks(items[1..])
  }

  lemma {:induction false} EmptyLinesConcat(a: seq<Text>, b: seq<Text>)
    ensures EmptyLines(a + b) == EmptyLines(a) + EmptyLines(b)
  {
    if a == [] {
      assert a + b == b;
    } else {
      assert (a + b)[1..] == a[1..] + b;
      EmptyLinesConcat(a[1..], b);
    }
  }

  lemma {:induction false} NoEmptyLines(lines: seq<Text>)
    requires forall l <- lines :: l != []
    ensures EmptyLines(lines) == 0
  {
    if lines != [] {
      assert lines[0] in lines && forall l <- lines[1..] :: l in lines;
      NoEmptyLines(lines[1..]);
    }
  }

  lemma FlushEmptyLines(wc: Wc, width: nat, st: State)
    requires Fits(wc, width, st)
    ensures EmptyLines(Flush(st).lines) == EmptyLines(st.lines)
  {
    hide Width;
    if st.cells > 0 {
      WidthEmpty(wc);
      EmptyLinesConcat(st.lines, [st.line]);
      NoEmptyLines([st.line]);
    }
  }

  lemma StepEmptyLines(wc: Wc, width: nat, st: State, item: Item)
    requires Fits(wc, width, st)
    requires item.Word? ==> Narrow(wc, width, item.bytes)
    ensures EmptyLines(Step(wc, width, st, item).lines) == EmptyLines(st.lines) + if item.Blank? then 1 else 0
  {
    hide Width, Narrow, Break, Fits, EmptyLines;
    FlushEmptyLines(wc, width, st);
    if item.Blank? {
      EmptyLinesConcat(Flush(st).lines, [[]]);
      OneEmptyLine();
    } else if !Appends(wc, width, st, item.bytes) {
      var b := Break(wc, width, item.bytes);
      BreakParts(wc, width, item.bytes);
      EmptyLinesConcat(Flush(st).lines, b.chunks);
      NoEmptyLines(b.chunks);
    }
  }

  lemma OneEmptyLine()
    ensures EmptyLines([[]]) == 1
  {
    var empty: Text := [];
    assert [empty][1..] == [];
  }

  lemma {:induction false} FillEmptyLines(wc: Wc, width: nat, st: State, items: seq<Item>)
    requires CellsOf(wc, SP) == 1 && Fits(wc, width, st) && NarrowItems(wc, width, items)
    ensures EmptyLines(Flush(Fill(wc, width, st, items)).lines) == EmptyLines(st.lines) + Blanks(items)
    decreases |items|
  {
    hide Fits, Step, Narrow;
    if items == [] {
      FlushEmptyLines(wc, width, st);
    } else {
      StepFits(wc, width, st, items[0]);
      StepEmptyLines(wc, width, st, items[0]);
      FillEmptyLines(wc, width, Step(wc, width, st, items[0]), items[1..]);
    }
  }

  /** Number of empty paragraphs of a text. */
  function EmptyParagraphs(text: Text): nat
    decreases |text|
  {
    var k := Find(text, NL);
    if k < 0 then (if text == [] then 1 else 0)
    else (if k == 0 then 1 else 0) + EmptyParagraphs(text[k + 1..])
  }

  lemma {:induction false} BlanksConcat(a: seq<Item>, b: seq<Item>)
    ensures Blanks(a + b) == Blanks(a) + Blanks(b)
  {
    if a == [] {
      assert a + b == b;
    } else {
      assert (a + b)[1..] == a[1..] + b;
      BlanksConcat(a[1..], b);
    }
  }

  lemma {:induction false} TokensNoBlanks(s: Text)
    ensures Blanks(Tokens(s)) == 0
    decreases |s|
  {
    hide GapAt, Blanks;
    var k := GapAt(s);
    WordItemNoBlanks(s[..k]);
    assert k == |s| ==> s[..k] == s;
    if k < |s| {
      TokensNoBlanks(s[k + 1..]);
      BlanksConcat(WordItem(s[..k]), Tokens(s[k + 1..]));
    }
  }

  lemma WordItemNoBlanks(w: Text)
    ensures Blanks(WordItem(w)) == 0
  {
    if w != [] {
      assert WordItem(w)[1..] == [];
    }
  }

  lemma ParagraphBlanks(p: Text)
    ensures Blanks(ParagraphItems(p)) == if p == [] then 1 else 0
  {
    TokensNoBlanks(p);
    assert [Blank][1..] == [];
  }

  lemma {:induction false} ItemsBlanks(text: Text)
    ensures Blanks(Items(text)) == EmptyParagraphs(text)
    decreases |text|
  {
    hide Blanks, ParagraphItems;
    var k := Find(text, NL);
    if k < 0 {
      ParagraphBlanks(text);
    } else {
      ParagraphBlanks(text[..k]);
      ItemsBlanks(text[k + 1..]);
      BlanksConcat(ParagraphItems(text[..k]), Items(text[k + 1..]));
    }
  }

  /** One blank line per empty paragraph, and no other line is empty. */
  lemma BlankLines(wc: Wc, width: nat, text: Text)
    requires CellsOf(wc, SP) == 1 && NarrowItems(wc, width, Items(text))
    ensures EmptyLines(Wrapped(wc, width, text)) == EmptyParagraphs(text)
  {
    hide Fill, NarrowItems, Items, Fits;
    StartState(wc, width);
    FillEmptyLines(wc, width, START, Items(text));
    ItemsBlanks(text);
    NoEmptyLines([]);
  }
}
