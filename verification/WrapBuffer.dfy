/** The buffer in which a line is filled, four bytes per column and a terminator; and when that is enough. */
module WrapBuffer {
  import opened Bytes
  import opened Utf8
  import opened Cells
  import opened Wrap
  import opened WrapProof
  import opened WrapOptimal

  /** Bytes of text the line buffer holds. */
  function LineRoom(width: nat): nat { 4 * width }

  /** The test a step has to pass before it writes to the line. */
  predicate Room(wc: Wc, width: nat, st: State, item: Item) {
    item.Word? ==>
      if Appends(wc, width, st, item.bytes) then |st.line| + 1 + |item.bytes| <= LineRoom(width)
      else |Break(wc, width, item.bytes).rest| <= LineRoom(width)
  }

  predicate Roomy(wc: Wc, width: nat, st: State, items: seq<Item>)
    decreases |items|
  {
    items == [] || (Room(wc, width, st, items[0]) && Roomy(wc, width, Step(wc, width, st, items[0]), items[1..]))
  }

  /** Filling lines with this text never writes past the end of the line buffer. */
  predicate LineFits(wc: Wc, width: nat, text: Text) { Roomy(wc, width, START, Items(text)) }

  lemma {:induction false} FillConcat(wc: Wc, width: nat, st: State, a: seq<Item>, b: seq<Item>)
    ensures Fill(wc, width, st, a + b) == Fill(wc, width, Fill(wc, width, st, a), b)
    decreases |a|
  {
    hide Step;
    if a == [] {
      assert a + b == b;
    } else {
      assert (a + b)[1..] == a[1..] + b && (a + b)[0] == a[0];
      FillConcat(wc, width, Step(wc, width, st, a[0]), a[1..], b);
    }
  }

  lemma {:induction false} RoomyConcat(wc: Wc, width: nat, st: State, a: seq<Item>, b: seq<Item>)
    ensures Roomy(wc, width, st, a + b)
       <==> Roomy(wc, width, st, a) && Roomy(wc, width, Fill(wc, width, st, a), b)
    decreases |a|
  {
    hide Step, Room;
    if a == [] {
      assert a + b == b;
    } else {
      assert (a + b)[1..] == a[1..] + b && (a + b)[0] == a[0];
      RoomyConcat(wc, width, Step(wc, width, st, a[0]), a[1..], b);
    }
  }

  lemma RoomIsLength(wc: Wc, width: nat, st: State, item: Item)
    requires |st.line| <= LineRoom(width)
    ensures Room(wc, width, st, item) <==> |Step(wc, width, st, item).line| <= LineRoom(width)
  {
    hide Width, Break;
  }

  /** The line after the first `k` items. */
  function LineAfter(wc: Wc, width: nat, st: State, items: seq<Item>, k: nat): Text
    requires k <= |items|
  {
    Fill(wc, width, st, items[..k]).line
  }

  lemma LineAfterStep(wc: Wc, width: nat, st: State, items: seq<Item>, k: nat)
    requires 0 < k <= |items|
    ensures LineAfter(wc, width, st, items, k)
         == LineAfter(wc, width, Step(wc, width, st, items[0]), items[1..], k - 1)
  {
    hide Step;
    assert items[..k][1..] == items[1..][..k - 1];
  }

  /** No line along the way is longer than the buffer. */
  predicate LinesHeld(wc: Wc, width: nat, st: State, items: seq<Item>) {
    forall k | 0 <= k <= |items| :: |LineAfter(wc, width, st, items, k)| <= LineRoom(width)
  }

  /** The tests are exact: all are passed exactly when no line along the way is longer than the buffer. */
  lemma {:induction false} RoomyIff(wc: Wc, width: nat, st: State, items: seq<Item>)
    requires |st.line| <= LineRoom(width)
    ensures Roomy(wc, width, st, items) <==> LinesHeld(wc, width, st, items)
    decreases |items|
  {
    hide Step, Room, LineAfter;
    assert LineAfter(wc, width, st, items, 0) == st.line by { LineAtStart(wc, width, st, items); }
    if items != [] {
      var next := Step(wc, width, st, items[0]);
      RoomIsLength(wc, width, st, items[0]);
      LineAtStart(wc, width, next, items[1..]);
      forall k | 0 < k <= |items|
        ensures LineAfter(wc, width, st, items, k) == LineAfter(wc, width, next, items[1..], k - 1)
      {
        LineAfterStep(wc, width, st, items, k);
      }
      if |next.line| <= LineRoom(width) {
        RoomyIff(wc, width, next, items[1..]);
        forall k | 0 <= k <= |items[1..]|
          ensures LineAfter(wc, width, next, items[1..], k) == LineAfter(wc, width, st, items, k + 1)
        {
        }
      } else {
        assert |LineAfter(wc, width, st, items, 1)| > LineRoom(width);
      }
    }
  }

  lemma LineAtStart(wc: Wc, width: nat, st: State, items: seq<Item>)
    ensures LineAfter(wc, width, st, items, 0) == st.line
  {
  }

  /** So a text fits exactly when no line ever filled with it is longer than the buffer. */
  lemma LineFitsIff(wc: Wc, width: nat, text: Text)
    ensures LineFits(wc, width, text) <==> LinesHeld(wc, width, START, Items(text))
  {
    hide Roomy, LinesHeld, Items;
    RoomyIff(wc, width, START, Items(text));
  }

  // ----- read off the finished lines ------------------------------------------------------

  /** A line too long for the buffer, finished or about to be. */
  predicate Overlong(width: nat, st: State) { exists l <- Flush(st).lines :: |l| > LineRoom(width) }

  lemma OverlongStays(wc: Wc, width: nat, st: State, item: Item)
    requires Overlong(width, st)
    ensures Overlong(width, Step(wc, width, st, item))
  {
    hide Width, Break;
    var next := Step(wc, width, st, item);
    var l :| l in Flush(st).lines && |l| > LineRoom(width);
    if item.Word? && Appends(wc, width, st, item.bytes) {
      if l in st.lines {
        assert l in Flush(next).lines;
      } else {
        assert next.line in Flush(next).lines && |next.line| > |l|;
      }
    } else {
      assert l in Flush(next).lines;
    }
  }

  lemma {:induction false} OverlongToEnd(wc: Wc, width: nat, st: State, items: seq<Item>)
    requires Overlong(width, st)
    ensures Overlong(width, Fill(wc, width, st, items))
    decreases |items|
  {
    hide Overlong, Step;
    if items != [] {
      OverlongStays(wc, width, st, items[0]);
      OverlongToEnd(wc, width, Step(wc, width, st, items[0]), items[1..]);
    }
  }

  lemma StepLines(wc: Wc, width: nat, st: State, item: Item)
    requires !Overlong(width, st) && (item.Word? ==> 0 < Width(wc, item.bytes) <= width)
    requires |st.line| <= LineRoom(width)
    ensures Room(wc, width, st, item) <==> !Overlong(width, Step(wc, width, st, item))
    ensures Room(wc, width, st, item) ==> |Step(wc, width, st, item).line| <= LineRoom(width)
  {
    hide Width, CopyLen;
    var next := Step(wc, width, st, item);
    RoomIsLength(wc, width, st, item);
    if item.Word? {
      assert Break(wc, width, item.bytes) == Broken([], item.bytes);
      assert next.line in Flush(next).lines;
      assert forall l <- Flush(next).lines :: l == next.line || l in Flush(st).lines;
    } else {
      assert forall l <- Flush(next).lines :: l == [] || l in Flush(st).lines;
    }
  }

  lemma {:induction false} RoomyLines(wc: Wc, width: nat, st: State, items: seq<Item>)
    requires Ordinary(wc, width, items) && !Overlong(width, st) && |st.line| <= LineRoom(width)
    ensures Roomy(wc, width, st, items) <==> !Overlong(width, Fill(wc, width, st, items))
    decreases |items|
  {
    hide Overlong, Step, Room, Width;
    if items != [] {
      StepLines(wc, width, st, items[0]);
      if Room(wc, width, st, items[0]) {
        RoomyLines(wc, width, Step(wc, width, st, items[0]), items[1..]);
      } else {
        OverlongToEnd(wc, width, Step(wc, width, st, items[0]), items[1..]);
      }
    }
  }

  /** When every word takes between one column and a line: exactly when each wrapped line has room. */
  lemma LineFitsByLines(wc: Wc, width: nat, text: Text)
    requires Ordinary(wc, width, Items(text))
    ensures LineFits(wc, width, text) <==> forall l <- Wrapped(wc, width, text) :: |l| <= LineRoom(width)
  {
    hide Roomy, Fill, Items, Ordinary;
    RoomyLines(wc, width, START, Items(text));
  }

  // ----- word by word -------------------------------------------------------------------------

  lemma OneWord(w: Text)
    requires IsWord(w)
    ensures Items(w) == [Word(w)]
  {
    assert GapAt(w) == |w|;
  }

  /** A text of one word fits exactly when what breaking leaves of it does. */
  lemma OneWordFits(wc: Wc, width: nat, w: Text)
    requires IsWord(w)
    ensures LineFits(wc, width, w) <==> |Break(wc, width, w).rest| <= LineRoom(width)
    ensures Width(wc, w) <= width ==> (LineFits(wc, width, w) <==> |w| <= LineRoom(width))
  {
    hide Width, Items, CopyLen;
    OneWord(w);
    assert [Word(w)][1..] == [];
    var next := Step(wc, width, START, Word(w));
    assert Roomy(wc, width, next, []);
  }

  /** What a word puts on a line of its own takes at most four bytes per column. */
  predicate Dense(wc: Wc, width: nat, word: Text) {
    var rest := Break(wc, width, word).rest;
    |rest| <= 4 * Width(wc, rest)
  }

  predicate DenseItems(wc: Wc, width: nat, items: seq<Item>) {
    forall x <- items :: x.Word? ==> Dense(wc, width, x.bytes)
  }

  lemma DenseStep(wc: Wc, width: nat, st: State, item: Item)
    requires |st.line| <= 4 * st.cells
    requires item.Word? ==> Narrow(wc, width, item.bytes) && Dense(wc, width, item.bytes)
    requires st.cells <= width
    ensures var s := Step(wc, width, st, item); |s.line| <= 4 * s.cells
    ensures Room(wc, width, st, item)
  {
    hide Width, Narrow, Break;
    if item.Word? {
      BreakParts(wc, width, item.bytes);
    }
  }

  /** When that holds of every word, the line always holds at most four bytes per column, and so fits. */
  lemma {:induction false} DenseSuffices(wc: Wc, width: nat, st: State, items: seq<Item>)
    requires CellsOf(wc, SP) == 1 && Fits(wc, width, st) && |st.line| <= 4 * st.cells
    requires NarrowItems(wc, width, items) && DenseItems(wc, width, items)
    ensures var end := Fill(wc, width, st, items); |end.line| <= 4 * end.cells <= 4 * width
    ensures Roomy(wc, width, st, items)
    decreases |items|
  {
    hide Step, Narrow, Dense, Width, Room;
    if items != [] {
      StepFits(wc, width, st, items[0]);
      DenseStep(wc, width, st, items[0]);
      DenseSuffices(wc, width, Step(wc, width, st, items[0]), items[1..]);
    }
  }

  /** Every code point takes at least one column. */
  predicate SolidPieces(wc: Wc, ps: seq<seq<Byte>>) {
    ps == [] || (ps[0] != [] && CellsOf(wc, Cp(ps[0])) > 0 && SolidPieces(wc, ps[1..]))
  }

  predicate Solid(wc: Wc, s: seq<Byte>) { SolidPieces(wc, Segments(s)) }

  /** Then a text has at most four bytes per column. */
  lemma {:induction false} SolidBytes(wc: Wc, s: seq<Byte>)
    requires Solid(wc, s)
    ensures |s| <= 4 * Width(wc, s)
    decreases |s|
  {
    hide Cp, ValidAt;
    if s != [] {
      FirstPiece(s, s[..Len(s)]);
      assert Segments(s)[0] == s[..Len(s)] && Segments(s)[1..] == Segments(s[Len(s)..]);
      SolidBytes(wc, s[Len(s)..]);
    }
  }

  lemma {:induction false} SolidSuffix(wc: Wc, a: seq<seq<Byte>>, b: seq<seq<Byte>>)
    requires SolidPieces(wc, a + b)
    ensures SolidPieces(wc, b)
  {
    if a == [] {
      assert a + b == b;
    } else {
      assert (a + b)[1..] == a[1..] + b;
      SolidSuffix(wc, a[1..], b);
    }
  }

  lemma {:induction false} SolidRest(wc: Wc, width: nat, word: Text)
    requires Solid(wc, word) && Narrow(wc, width, word)
    ensures Solid(wc, Break(wc, width, word).rest)
    decreases |word|
  {
    hide Segments, SolidPieces, CopyLen, Narrow, Boundary;
    var k := CopyLen(wc, word, CHUNK_ROOM, width);
    if !(Width(wc, word) <= width || k == 0) {
      CopyFits(wc, word, CHUNK_ROOM, width);
      NarrowRest(wc, width, word, k);
      CutAtBoundary(word, k);
      SolidSuffix(wc, Segments(word[..k]), Segments(word[k..]));
      SolidRest(wc, width, word[k..]);
    }
  }

  predicate SolidItems(wc: Wc, items: seq<Item>) {
    forall x <- items :: x.Word? ==> Solid(wc, x.bytes)
  }

  /** In particular every text whose code points all take a column fits. */
  lemma LineBufferSuffices(wc: Wc, width: nat, text: Text)
    requires CellsOf(wc, SP) == 1 && NarrowItems(wc, width, Items(text)) && SolidItems(wc, Items(text))
    ensures LineFits(wc, width, text)
    ensures var end := Fill(wc, width, START, Items(text)); |end.line| <= 4 * end.cells <= 4 * width
  {
    hide Solid, Narrow, Items, Fill, Roomy, Break, Fits;
    forall x <- Items(text) | x.Word?
      ensures Dense(wc, width, x.bytes)
    {
      SolidRest(wc, width, x.bytes);
      SolidBytes(wc, Break(wc, width, x.bytes).rest);
    }
    StartState(wc, width);
    DenseSuffices(wc, width, START, Items(text));
  }

  // ----- and a text that does not fit ------------------------------------------------------------

  const LETTER: Char := 97
  const COMBINING_ACUTE := 0x301

  function Marks(n: nat): Text { if n == 0 then [] else Encode(COMBINING_ACUTE) + Marks(n - 1) }

  /** A letter with `n` combining accents. */
  function Accented(n: nat): Text { [LETTER] + Marks(n) }

  lemma {:induction false} MarksMeasure(wc: Wc, n: nat)
    requires CellsOf(wc, COMBINING_ACUTE) == 0
    ensures |Marks(n)| == 2 * n && Width(wc, Marks(n)) == 0
    ensures forall i | 0 <= i < |Marks(n)| :: !IsWhite(Marks(n)[i])
  {
    if n > 0 {
      hide Cp, Len;
      MarksMeasure(wc, n - 1);
      EncodeDecode(COMBINING_ACUTE, Marks(n - 1));
      assert Encode(COMBINING_ACUTE) == [0xCC, 0x81];
      assert Marks(n)[2..] == Marks(n - 1);
    }
  }

  /** It is one column wide whatever `n`, and fits a line exactly when it has fewer than two accents per column. */
  lemma AccentedFits(wc: Wc, width: nat, n: nat)
    requires width > 0 && CellsOf(wc, LETTER) == 1 && CellsOf(wc, COMBINING_ACUTE) == 0
    ensures Width(wc, Accented(n)) == 1
    ensures LineFits(wc, width, Accented(n)) <==> n < 2 * width
  {
    hide LineFits;
    MarksMeasure(wc, n);
    var t := Accented(n);
    assert Len(t) == 1 && t[1..] == Marks(n);
    assert Cp(t) == LETTER by { assert Bits(t, 1) == LETTER; }
    OneWordFits(wc, width, t);
  }
}
