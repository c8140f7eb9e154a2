/** The in-place filter that keeps control and invisible code points away from the terminal. */
module Sanitize {
  import opened Bytes
  import opened Utf8

  predicate IsForbidden(cp: nat) {
    || cp < 0x20 || cp == 0x7F
    || 0x80 <= cp <= 0x9F
    || cp == 0x061C
    || 0x200B <= cp <= 0x200F
    || 0x202A <= cp <= 0x202E
    || 0x2060 <= cp <= 0x2064
    || 0x2066 <= cp <= 0x2069
    || cp == 0xFEFF
  }

  /** What one decoded piece leaves in the output. */
  function Kept(p: Text, keepNewlines: bool): Text
    requires p != []
  {
    if p[0] < 0x80 then
      if p[0] == NL then [if keepNewlines then NL else SP]
      else if p[0] == CR then (if keepNewlines then [] else [SP])
      else if p[0] == TAB || (0x20 <= p[0] && p[0] != 0x7F) then p
      else []
    else if |p| == 1 || IsForbidden(Cp(p)) then []
    else p
  }

  /** The filter, piece by piece. */
  function Filter(s: Text, keepNewlines: bool): Text {
    if s == [] then [] else Kept(s[..Len(s)], keepNewlines) + Filter(s[Len(s)..], keepNewlines)
  }

  /** A piece that is valid and permitted. */
  predicate CleanPiece(p: seq<Byte>, keepNewlines: bool)
    requires p != []
  {
    if p[0] < 0x80 then
      p[0] == TAB || 0x20 <= p[0] < 0x7F || (keepNewlines && p[0] == NL)
    else
      ValidAt(p) && !IsForbidden(Cp(p))
  }

  /** Every piece the decoder finds is valid and permitted. */
  predicate Clean(s: seq<Byte>, keepNewlines: bool) {
    s == [] || (CleanPiece(s[..Len(s)], keepNewlines) && Clean(s[Len(s)..], keepNewlines))
  }

  lemma {:induction false} CleanSegments(s: seq<Byte>, keepNewlines: bool)
    ensures forall p <- Segments(s) :: p != []
    ensures Clean(s, keepNewlines) <==> forall p <- Segments(s) :: CleanPiece(p, keepNewlines)
  {
    if s != [] {
      CleanSegments(s[Len(s)..], keepNewlines);
    }
  }

  /** The piece the decoder cuts off is decoded the same way on its own. */
  lemma PieceAlone(s: seq<Byte>)
    requires s != []
    ensures Len(s[..Len(s)]) == Len(s) && Cp(s[..Len(s)]) == Cp(s)
    ensures ValidAt(s[..Len(s)]) <==> ValidAt(s)
  {
    FirstPiece(s, s[..Len(s)]);
    assert forall i :: 0 <= i < Len(s) ==> s[..Len(s)][i] == s[i];
  }

  lemma KeptIsClean(s: Text, keepNewlines: bool)
    requires s != []
    ensures var k := Kept(s[..Len(s)], keepNewlines);
            k == [] || (Len(k) == |k| && ValidAt(k) && Need(k[0]) == |k| && CleanPiece(k, keepNewlines))
    ensures |Kept(s[..Len(s)], keepNewlines)| <= Len(s)
  {
    PieceAlone(s);
  }

  /** The filter never lengthens a text. */
  lemma {:induction false} FilterShrinks(s: Text, keepNewlines: bool)
    ensures |Filter(s, keepNewlines)| <= |s|
  {
    if s != [] {
      FilterShrinks(s[Len(s)..], keepNewlines);
    }
  }

  lemma CleanCons(p: seq<Byte>, t: seq<Byte>, keepNewlines: bool)
    requires p != [] && ValidAt(p) && Need(p[0]) == |p|
    ensures Clean(p + t, keepNewlines) <==> CleanPiece(p, keepNewlines) && Clean(t, keepNewlines)
    ensures Segments(p + t) == [p] + Segments(t)
  {
    FirstOfPiece(p, t);
    assert (p + t)[..|p|] == p && (p + t)[|p|..] == t;
  }

  lemma CleanCut(a: Text, keepNewlines: bool) returns (p: Text, t: Text)
    requires a != [] && Clean(a, keepNewlines)
    ensures a == p + t && p != [] && ValidAt(p) && Need(p[0]) == |p|
    ensures CleanPiece(p, keepNewlines) && Clean(t, keepNewlines)
  {
    p, t := a[..Len(a)], a[Len(a)..];
    PieceAlone(a);
  }

  /** Clean texts can be put together. */
  lemma {:induction false} CleanConcat(a: Text, b: Text, keepNewlines: bool)
    requires Clean(a, keepNewlines) && Clean(b, keepNewlines)
    ensures Clean(a + b, keepNewlines)
    decreases |a|
  {
    hide Clean, ValidAt, CleanPiece, Segments, Need;
    if a == [] {
      assert a + b == b;
    } else {
      var p, t := CleanCut(a, keepNewlines);
      CleanConcat(t, b, keepNewlines);
      CleanCons(p, t + b, keepNewlines);
      Assoc(p, t, b);
    }
  }

  /** The output decodes with no invalid byte and no forbidden code point. */
  lemma {:induction false} FilterClean(s: Text, keepNewlines: bool)
    ensures Clean(Filter(s, keepNewlines), keepNewlines)
  {
    if s != [] {
      FilterClean(s[Len(s)..], keepNewlines);
      KeptIsClean(s, keepNewlines);
      var k, t := Kept(s[..Len(s)], keepNewlines), Filter(s[Len(s)..], keepNewlines);
      if k == [] {
        assert k + t == t;
      } else {
        CleanCons(k, t, keepNewlines);
      }
    }
  }

  /** What the decoder's pieces of `s` leave, in order, the empty leavings skipped. */
  function Survivors(s: Text, keepNewlines: bool): seq<Text> {
    if s == [] then []
    else
      var k := Kept(s[..Len(s)], keepNewlines);
      (if k == [] then [] else [k]) + Survivors(s[Len(s)..], keepNewlines)
  }

  /** The decoder cuts the output into exactly the pieces that were kept: none merge, none split. */
  lemma {:induction false} FilterResegments(s: Text, keepNewlines: bool)
    ensures Segments(Filter(s, keepNewlines)) == Survivors(s, keepNewlines)
  {
    if s != [] {
      FilterResegments(s[Len(s)..], keepNewlines);
      KeptIsClean(s, keepNewlines);
      var k, t := Kept(s[..Len(s)], keepNewlines), Filter(s[Len(s)..], keepNewlines);
      if k == [] {
        assert k + t == t;
      } else {
        CleanCons(k, t, keepNewlines);
      }
    }
  }

  lemma CleanKept(s: Text, keepNewlines: bool)
    requires s != [] && CleanPiece(s[..Len(s)], keepNewlines)
    ensures Kept(s[..Len(s)], keepNewlines) == s[..Len(s)]
  {
    PieceAlone(s);
  }

  lemma {:induction false} CleanUnchanged(s: Text, keepNewlines: bool)
    requires Clean(s, keepNewlines)
    ensures Filter(s, keepNewlines) == s
  {
    if s != [] {
      CleanKept(s, keepNewlines);
      CleanUnchanged(s[Len(s)..], keepNewlines);
    }
  }

  /** The filter leaves a text alone exactly when it is already clean. */
  lemma FilterFixed(s: Text, keepNewlines: bool)
    ensures Filter(s, keepNewlines) == s <==> Clean(s, keepNewlines)
  {
    if Clean(s, keepNewlines) {
      CleanUnchanged(s, keepNewlines);
    } else {
      FilterClean(s, keepNewlines);
    }
  }

  /** A second run changes nothing. */
  lemma FilterIdempotent(s: Text, keepNewlines: bool)
    ensures Filter(Filter(s, keepNewlines), keepNewlines) == Filter(s, keepNewlines)
  {
    FilterClean(s, keepNewlines);
    CleanUnchanged(Filter(s, keepNewlines), keepNewlines);
  }

  // ----- what is left of each character ----------------------------------------

  /** The forbidden code points, in numbers. */
  lemma ForbiddenNumbers(cp: nat)
    ensures IsForbidden(cp) <==>
      || cp <= 31 || 127 <= cp <= 159 || cp == 0x61C || 0x200B <= cp <= 0x200F || 0x202A <= cp <= 0x202E
      || 0x2060 <= cp <= 0x2064 || 0x2066 <= cp <= 0x2069 || cp == 0xFEFF
  {
  }

  /** The filter takes a text apart wherever no continuation byte follows. */
  lemma {:induction false} FilterConcat(a: Text, b: Text, keepNewlines: bool)
    requires b == [] || !(0x80 <= b[0] <= 0xBF)
    ensures Filter(a + b, keepNewlines) == Filter(a, keepNewlines) + Filter(b, keepNewlines)
    decreases |a|
  {
    hide Kept, Cp, ValidAt;
    if a == [] {
      assert a + b == b;
    } else {
      var n := Len(a);
      FirstOfConcat(a, b);
      assert (a + b)[..n] == a[..n] && (a + b)[n..] == a[n..] + b;
      FilterConcat(a[n..], b, keepNewlines);
      Assoc(Kept(a[..n], keepNewlines), Filter(a[n..], keepNewlines), Filter(b, keepNewlines));
    }
  }

  /** A newline: kept in an article, a space in a single line. */
  lemma FilterNewline(b: Text, keepNewlines: bool)
    ensures Filter([10] + b, keepNewlines) == [if keepNewlines then 10 else 32] + Filter(b, keepNewlines)
  {
    FilterAscii(10, b, keepNewlines);
  }

  /** A carriage return: dropped in an article, a space in a single line. */
  lemma FilterReturn(b: Text, keepNewlines: bool)
    ensures Filter([13] + b, keepNewlines) == (if keepNewlines then [] else [32]) + Filter(b, keepNewlines)
  {
    FilterAscii(13, b, keepNewlines);
  }

  lemma FilterAscii(c: Char, b: Text, keepNewlines: bool)
    requires c < 0x80
    ensures Filter([c] + b, keepNewlines) == Kept([c], keepNewlines) + Filter(b, keepNewlines)
  {
    hide Kept;
    assert ([c] + b)[..1] == [c] && ([c] + b)[1..] == b;
  }

  /** What the filter leaves of each character the encoder can write, whatever is around it. */
  lemma FilterCharacter(a: Text, c: int, b: Text, keepNewlines: bool)
    requires 0 < c <= 0x10FFFF
    ensures var left :=
              if c == 10 then [if keepNewlines then 10 else 32]
              else if c == 13 then (if keepNewlines then [] else [32])
              else if c == 9 || 32 <= c <= 126 then [c]
              else if
                || c <= 31 || 127 <= c <= 159 || c == 0x61C || 0x200B <= c <= 0x200F || 0x202A <= c <= 0x202E
                || 0x2060 <= c <= 0x2064 || 0x2066 <= c <= 0x2069 || c == 0xFEFF
              then []
              else Encode(c);
            Filter(a + (Encode(c) + b), keepNewlines) == Filter(a, keepNewlines) + (left + Filter(b, keepNewlines))
  {
    hide Filter, IsForbidden, Encode;
    EncodeStarts(c);
    FilterConcat(a, Encode(c) + b, keepNewlines);
    if c < 0x80 {
      FilterAscii(c, b, keepNewlines);
    } else {
      FilterEncoded(c, b, keepNewlines);
      ForbiddenNumbers(c);
    }
  }

  lemma EncodeStarts(c: int)
    requires 0 < c <= 0x10FFFF
    ensures !(0x80 <= Encode(c)[0] <= 0xBF)
    ensures c < 0x80 ==> Encode(c) == [c]
    ensures c >= 0x80 ==> Encode(c)[0] >= 0x80 && |Encode(c)| > 1
  {
  }

  lemma FilterEncoded(c: int, b: Text, keepNewlines: bool)
    requires 0x80 <= c <= 0x10FFFF
    ensures Filter(Encode(c) + b, keepNewlines)
         == (if IsForbidden(c) then [] else Encode(c)) + Filter(b, keepNewlines)
  {
    hide IsForbidden, Encode, Cp, ValidAt, Len;
    EncodeStarts(c);
    EncodeDecode(c, b);
    EncodeDecode(c, []);
    var e := Encode(c);
    assert e + [] == e;
    assert (e + b)[..|e|] == e && (e + b)[|e|..] == b;
  }

  /** An invalid byte is dropped on its own. */
  lemma FilterInvalid(s: Text, keepNewlines: bool)
    requires s != [] && s[0] >= 0x80 && Len(s) == 1
    ensures Filter(s, keepNewlines) == Filter(s[1..], keepNewlines)
  {
  }

  /** A decoded sequence, overlong or out of range though it may be, is dropped whole or kept whole by its number. */
  lemma FilterSequence(s: Text, keepNewlines: bool)
    requires s != [] && s[0] >= 0x80 && Len(s) > 1
    ensures Filter(s, keepNewlines)
         == (if IsForbidden(Cp(s)) then [] else s[..Len(s)]) + Filter(s[Len(s)..], keepNewlines)
  {
    PieceAlone(s);
  }

  /** Length of the C string in `s`. */
  method StrLen(s: array<Byte>) returns (n: nat)
    requires 0 in s[..]
    ensures n < s.Length && s[n] == 0 && 0 !in s[..n]
    ensures CStr(s[..]) == s[..n]
  {
    ghost var end :| 0 <= end < s.Length && s[end] == 0;
    n := 0;
    while s[n] != 0
      invariant n <= end && 0 !in s[..n]
      decreases end - n
    {
      assert s[..n + 1] == s[..n] + [s[n]];
      n := n + 1;
    }
    CStrOf(s[..], n);
    assert s[..][..n] == s[..n];
  }

  /** Move `k` bytes down, the regions possibly overlapping (`memmove`); what lies beyond up to `n` stays. */
  method MoveDown(s: array<Byte>, w: nat, r: nat, k: nat, ghost n: nat)
    requires w <= r && r + k <= n <= s.Length
    modifies s
    ensures s[..w + k] == old(s[..w] + s[r..r + k])
    ensures s[r + k..n] == old(s[r + k..n])
  {
    ghost var head, moved, tail := s[..w], s[r..r + k], s[r + k..n];
    assert forall i | 0 <= i < k :: moved[i] == s[r + i];
    assert forall i | 0 <= i < |tail| :: tail[i] == s[r + k + i];
    forall i | 0 <= i < k {
      s[w + i] := s[r + i];
    }
    assert s[..w] == head;
    assert s[w..w + k] == moved;
    assert s[..w + k] == s[..w] + s[w..w + k];
    assert s[r + k..n] == tail;
  }

  /** The branch for a byte below 0x80: write what it leaves at the write position. */
  method EmitAscii(s: array<Byte>, w: nat, r: nat, keepNewlines: bool, ghost n: nat) returns (w': nat)
    requires w <= r < n <= s.Length && 0 < s[r] < 0x80
    modifies s
    ensures w <= w' <= w + 1 && s[..w'] == old(s[..w]) + Kept([old(s[r])], keepNewlines)
    ensures s[r + 1..n] == old(s[r + 1..n])
  {
    w' := w;
    var c := s[r];
    ghost var head, tail := s[..w], s[r + 1..n];
    assert forall i | 0 <= i < |tail| :: tail[i] == s[r + 1 + i];
    if c == NL {
      s[w] := if keepNewlines then NL else SP;
      w' := w + 1;
    } else if c == CR {
      if !keepNewlines {
        s[w] := SP;
        w' := w + 1;
      }
    } else if c == TAB || (c >= 0x20 && c != 0x7F) {
      s[w] := c;
      w' := w + 1;
    }
    assert s[..w] == head;
    assert w' > w ==> s[..w'] == s[..w] + [s[w]];
    assert s[r + 1..n] == tail;
  }

  /** Facts about the piece in front of `rest` that the branches below rely on. */
  lemma FrontPiece(rest: Text, k: nat, keepNewlines: bool)
    requires rest != [] && k == Len(rest)
    ensures Filter(rest, keepNewlines) == Kept(rest[..k], keepNewlines) + Filter(rest[k..], keepNewlines)
    ensures rest[0] < 0x80 ==> rest[..k] == [rest[0]]
    ensures rest[0] >= 0x80 ==>
      Kept(rest[..k], keepNewlines) ==
      if (k == 1 && Cp(rest) == REPLACEMENT) || IsForbidden(Cp(rest)) then [] else rest[..k]
  {
    PieceAlone(rest);
  }

  /** One turn of the loop: read `k` bytes at `r`, write what they leave at `w`. */
  method FilterPiece(s: array<Byte>, w: nat, r: nat, n: nat, ghost rest: Text, keepNewlines: bool)
    returns (w': nat, k: nat)
    requires w <= r < n <= s.Length && s[r..n] == rest
    modifies s
    ensures k == Len(rest) && w <= w' <= r + k
    ensures s[..w'] == old(s[..w]) + Kept(rest[..k], keepNewlines)
    ensures s[r + k..n] == rest[k..]
  {
    hide Filter, Kept, Cp;
    FrontPiece(rest, Len(rest), keepNewlines);
    w' := w;
    if s[r] < 0x80 {
      k := 1;
      assert s[r + 1..n] == rest[1..];
      w' := EmitAscii(s, w, r, keepNewlines, n);
    } else {
      var cp;
      k, cp := Utf8Decode(s[r..n]);
      assert s[r..r + k] == rest[..k] && s[r + k..n] == rest[k..];
      if k == 1 && cp == REPLACEMENT {
      } else if !IsForbidden(cp) {
        MoveDown(s, w, r, k, n);
        w' := w + k;
      }
    }
  }

  lemma FilterAccumulates(done: seq<Byte>, rest: Text, was: Text, keepNewlines: bool)
    requires rest != [] && done + Filter(rest, keepNewlines) == Filter(was, keepNewlines)
    ensures done + Kept(rest[..Len(rest)], keepNewlines) + Filter(rest[Len(rest)..], keepNewlines)
         == Filter(was, keepNewlines)
  {
    hide Filter, Kept;
    FrontPiece(rest, Len(rest), keepNewlines);
    Assoc(done, Kept(rest[..Len(rest)], keepNewlines), Filter(rest[Len(rest)..], keepNewlines));
  }

  /** The loop over `n` bytes. The write position never passes the read position. */
  method FilterLoop(s: array<Byte>, n: nat, ghost was: Text, keepNewlines: bool) returns (w: nat)
    requires n <= s.Length && s[..n] == was
    modifies s
    ensures w <= n && s[..w] == Filter(was, keepNewlines)
  {
    ghost var rest: Text := was;
    var r: nat, remaining: nat := 0, n;
    w := 0;
    while remaining > 0
      invariant 0 <= w <= r && r + remaining == n <= s.Length
      invariant s[r..n] == rest
      invariant s[..w] + Filter(rest, keepNewlines) == Filter(was, keepNewlines)
      decreases remaining
    {
      FilterAccumulates(s[..w], rest, was, keepNewlines);
      var k;
      w, k := FilterPiece(s, w, r, n, rest, keepNewlines);
      r, remaining := r + k, remaining - k;
      rest := rest[k..];
    }
  }

  /** Overwrite the string with its filtered form. */
  method SanitizeInPlace(s: array<Byte>, keepNewlines: bool)
    requires 0 in s[..]
    modifies s
    ensures 0 in s[..]
    ensures CStr(s[..]) == Filter(old(CStr(s[..])), keepNewlines)
  {
    var n := StrLen(s);
    var w := FilterLoop(s, n, s[..n], keepNewlines);
    ghost var out := s[..w];
    s[w] := 0;
    assert s[..w] == out;
    CStrOf(s[..], w);
    assert s[..][..w] == s[..w];
  }
}
