/** Display columns: the width of a text and the copier that fits a text into a number of columns. */
module Cells {
  import opened Bytes
  import opened Utf8

  /** `wcwidth`: negative for what it cannot measure, otherwise a number of columns. */
  type Wc = int -> int

  /** Columns charged for a code point; one for what cannot be measured. */
  function CellsOf(wc: Wc, cp: nat): nat {
    if wc(cp) < 0 then 1 else wc(cp)
  }

  function Width(wc: Wc, s: seq<Byte>): nat {
    if s == [] then 0 else CellsOf(wc, Cp(s)) + Width(wc, s[Len(s)..])
  }

  function PieceWidths(wc: Wc, ps: seq<seq<Byte>>): nat {
    if ps == [] then 0 else (if ps[0] == [] then 0 else CellsOf(wc, Cp(ps[0]))) + PieceWidths(wc, ps[1..])
  }

  lemma {:induction false} PieceWidthsConcat(wc: Wc, a: seq<seq<Byte>>, b: seq<seq<Byte>>)
    ensures PieceWidths(wc, a + b) == PieceWidths(wc, a) + PieceWidths(wc, b)
  {
    if a == [] {
      assert a + b == b;
    } else {
      assert (a + b)[1..] == a[1..] + b;
      PieceWidthsConcat(wc, a[1..], b);
    }
  }

  /** The width is the sum over the decoder's pieces. */
  lemma {:induction false} WidthOfPieces(wc: Wc, s: seq<Byte>)
    ensures Width(wc, s) == PieceWidths(wc, Segments(s))
  {
    if s != [] {
      FirstPiece(s, s[..Len(s)]);
      WidthOfPieces(wc, s[Len(s)..]);
      assert Segments(s)[0] == s[..Len(s)] && Segments(s)[1..] == Segments(s[Len(s)..]);
    }
  }

  /** Widths add up across a decoder boundary. */
  lemma WidthCut(wc: Wc, s: seq<Byte>, b: nat)
    requires Boundary(s, b)
    ensures b <= |s| && Width(wc, s) == Width(wc, s[..b]) + Width(wc, s[b..])
  {
    hide Width, Segments, PieceWidths, Boundary;
    CutAtBoundary(s, b);
    WidthOfPieces(wc, s);
    WidthOfPieces(wc, s[..b]);
    WidthOfPieces(wc, s[b..]);
    PieceWidthsConcat(wc, Segments(s[..b]), Segments(s[b..]));
  }

  /** Widths add up when the second text does not start with a continuation byte. */
  lemma WidthConcat(wc: Wc, a: seq<Byte>, b: seq<Byte>)
    requires b == [] || !IsCont(b[0])
    ensures Width(wc, a + b) == Width(wc, a) + Width(wc, b)
  {
    hide Width, Segments, PieceWidths;
    SegmentsConcat(a, b);
    WidthOfPieces(wc, a);
    WidthOfPieces(wc, b);
    WidthOfPieces(wc, a + b);
    PieceWidthsConcat(wc, Segments(a), Segments(b));
  }

  method Utf8Width(wc: Wc, s: seq<Byte>) returns (width: nat)
    ensures width == Width(wc, s)
  {
    hide Cp, Len;
    width := 0;
    var p := 0;
    assert s[0..] == s;
    while p < |s|
      invariant p <= |s| && width + Width(wc, s[p..]) == Width(wc, s)
    {
      var n, cp := Utf8Decode(s[p..]);
      assert s[p..][n..] == s[p + n..];
      var w := wc(cp);
      width := width + if w > 0 then w else if w == 0 then 0 else 1;
      p := p + n;
    }
  }

  // ----- copying ---------------------------------------------------------------

  /** Bytes copied when `room` bytes and `cells` columns are left. */
  function CopyLen(wc: Wc, s: seq<Byte>, room: nat, cells: nat): (k: nat)
    ensures k <= |s|
  {
    if s == [] then 0
    else
      var n, w := Len(s), CellsOf(wc, Cp(s));
      if w > cells || n > room then 0 else n + CopyLen(wc, s[n..], room - n, cells - w)
  }

  /** The copy ends at a decoder boundary and fits both limits ... */
  lemma {:induction false} CopyFits(wc: Wc, s: seq<Byte>, room: nat, cells: nat)
    ensures var k := CopyLen(wc, s, room, cells);
            Boundary(s, k) && k <= room && Width(wc, s[..k]) <= cells
  {
    hide ValidAt, Cp, Len, CellsOf;
    if s != [] {
      var n, w := Len(s), CellsOf(wc, Cp(s));
      if w <= cells && n <= room {
        CopyFits(wc, s[n..], room - n, cells - w);
        CopyGrows(wc, s, n, CopyLen(wc, s[n..], room - n, cells - w));
      }
    }
  }

  lemma CopyGrows(wc: Wc, s: seq<Byte>, n: nat, k: nat)
    requires s != [] && n == Len(s) && k <= |s[n..]| && Boundary(s[n..], k)
    ensures Boundary(s, n + k) && n + k <= |s|
    ensures Width(wc, s[..n + k]) == CellsOf(wc, Cp(s)) + Width(wc, s[n..][..k])
  {
    hide Cp, ValidAt;
    SlicePrefix(s, n, k);
    PrefixWidth(wc, s, n + k);
  }

  lemma SlicePrefix(s: seq<Byte>, n: nat, k: nat)
    requires n + k <= |s|
    ensures s[..n + k][n..] == s[n..][..k]
  {
  }

  lemma PrefixWidth(wc: Wc, s: seq<Byte>, b: nat)
    requires s != [] && Len(s) <= b <= |s|
    ensures Width(wc, s[..b]) == CellsOf(wc, Cp(s)) + Width(wc, s[..b][Len(s)..])
  {
    FirstPiece(s, s[..b]);
  }

  /** ... and no longer prefix ending at a boundary does. */
  lemma {:induction false} CopyLongest(wc: Wc, s: seq<Byte>, room: nat, cells: nat, b: nat)
    requires Boundary(s, b) && CopyLen(wc, s, room, cells) < b <= |s|
    ensures b > room || Width(wc, s[..b]) > cells
  {
    hide ValidAt, Cp, CellsOf;
    var n, w := Len(s), CellsOf(wc, Cp(s));
    PrefixWidth(wc, s, b);
    assert s[..b][n..] == s[n..][..b - n];
    if w <= cells && n <= room {
      CopyLongest(wc, s[n..], room - n, cells - w, b - n);
    }
  }

  /** Columns taken by the copy. */
  function CopyCells(wc: Wc, s: seq<Byte>, room: nat, cells: nat): nat {
    Width(wc, s[..CopyLen(wc, s, room, cells)])
  }

  /** One code point of the copying loop. */
  lemma CopyStep(wc: Wc, rest: seq<Byte>, n: nat, w: nat, room: nat, cells: nat)
    requires rest != [] && n == Len(rest) && w == CellsOf(wc, Cp(rest))
    ensures w > cells || n > room ==> CopyLen(wc, rest, room, cells) == 0 && CopyCells(wc, rest, room, cells) == 0
    ensures w <= cells && n <= room ==>
      && CopyLen(wc, rest, room, cells) == n + CopyLen(wc, rest[n..], room - n, cells - w)
      && CopyCells(wc, rest, room, cells) == w + CopyCells(wc, rest[n..], room - n, cells - w)
  {
    hide Cp, ValidAt;
    if w <= cells && n <= room {
      var k := CopyLen(wc, rest[n..], room - n, cells - w);
      PrefixWidth(wc, rest, n + k);
      SlicePrefix(rest, n, k);
    }
  }

  /** Copy as much of `src` as fits; the columns copied are returned and the copy is terminated. */
  method Utf8CopyCells(wc: Wc, dst: array<Byte>, src: Text, maxCells: nat) returns (cells: nat)
    modifies dst
    ensures dst.Length == 0 ==> cells == 0
    ensures dst.Length > 0 ==>
      && 0 in dst[..]
      && cells == CopyCells(wc, src, dst.Length - 1, maxCells)
      && CStr(dst[..]) == src[..CopyLen(wc, src, dst.Length - 1, maxCells)]
  {
    hide CopyLen, CopyCells, Cp, Len;
    cells := 0;
    if dst.Length == 0 {
      return;
    }
    ghost var room := dst.Length - 1;
    var used := 0;
    assert src[0..] == src;
    while used < |src|
      invariant used <= |src| && used <= room && cells <= maxCells
      invariant forall i | 0 <= i < used :: dst[i] == src[i]
      invariant used + CopyLen(wc, src[used..], room - used, maxCells - cells) == CopyLen(wc, src, room, maxCells)
      invariant cells + CopyCells(wc, src[used..], room - used, maxCells - cells) == CopyCells(wc, src, room, maxCells)
    {
      ghost var rest := src[used..];
      var n, cp := Utf8Decode(src[used..]);
      var w := wc(cp);
      if w < 0 {
        w := 1;
      }
      CopyStep(wc, rest, n, w, room - used, maxCells - cells);
      if cells + w > maxCells || used + n + 1 > dst.Length {
        break;
      }
      forall i | 0 <= i < n {
        dst[used + i] := src[used + i];
      }
      assert rest[n..] == src[used + n..];
      used := used + n;
      cells := cells + w;
    }
    assert used == CopyLen(wc, src, room, maxCells) && cells == CopyCells(wc, src, room, maxCells) by {
      CopyNothing(wc, room - used, maxCells - cells);
      assert used == |src| ==> src[used..] == [];
    }
    dst[used] := 0;
    assert dst[..used] == src[..used];
    assert dst[..][used] == 0;
    CStrOf(dst[..], used);
    assert dst[..][..used] == dst[..used];
  }

  lemma CopyNothing(wc: Wc, room: nat, cells: nat)
    ensures CopyLen(wc, [], room, cells) == 0 && CopyCells(wc, [], room, cells) == 0
  {
  }
}
