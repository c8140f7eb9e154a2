/** The lenient UTF-8 decoder, its segmentation of arbitrary bytes, and the strict encoder. */
module Utf8 {
  import opened Bytes

  const REPLACEMENT := 0xFFFD

  predicate IsCont(b: Byte) { 0x80 <= b < 0xC0 }

  /** Length announced by a first byte; 0 when the byte cannot start a sequence. */
  function Need(c: Byte): nat {
    if c < 0x80 then 1
    else if 0xC0 <= c < 0xE0 then 2
    else if 0xE0 <= c < 0xF0 then 3
    else if 0xF0 <= c < 0xF8 then 4
    else 0
  }

  /** The payload bits of a first byte. */
  function LeadBits(c: Byte): nat {
    if c < 0x80 then c
    else if c < 0xE0 then c % 0x20
    else if c < 0xF0 then c % 0x10
    else c % 0x08
  }

  /** A complete sequence starts `s`. Overlong forms, surrogates and values above 0x10FFFF all count. */
  predicate ValidAt(s: seq<Byte>)
    requires s != []
  {
    0 < Need(s[0]) <= |s| && forall i :: 1 <= i < Need(s[0]) ==> IsCont(s[i])
  }

  /** Payload bits of the first `i` bytes. */
  function Bits(s: seq<Byte>, i: nat): nat
    requires 1 <= i <= |s|
  {
    if i == 1 then LeadBits(s[0]) else Bits(s, i - 1) * 64 + s[i - 1] % 64
  }

  function Len(s: seq<Byte>): (n: nat)
    requires s != []
    ensures 1 <= n <= 4 && n <= |s|
  {
    if ValidAt(s) then Need(s[0]) else 1
  }

  function Cp(s: seq<Byte>): nat
    requires s != []
  {
    if ValidAt(s) then Bits(s, Need(s[0])) else REPLACEMENT
  }

  /** Decode one code point from the bytes that remain. */
  method Utf8Decode(s: seq<Byte>) returns (n: nat, cp: nat)
    ensures s == [] ==> n == 0 && cp == 0
    ensures s != [] ==> n == Len(s) && cp == Cp(s)
  {
    if |s| == 0 {
      return 0, 0;
    }
    var c := s[0];
    if c < 0x80 {
      return 1, c;
    }
    var v: nat;
    if 0xC0 <= c < 0xE0 {
      n, v := 2, c % 0x20;
    } else if 0xE0 <= c < 0xF0 {
      n, v := 3, c % 0x10;
    } else if 0xF0 <= c < 0xF8 {
      n, v := 4, c % 0x08;
    } else {
      return 1, REPLACEMENT;
    }
    if |s| < n {
      return 1, REPLACEMENT;
    }
    var i := 1;
    while i < n
      invariant 1 <= i <= n == Need(c) <= |s|
      invariant forall k :: 1 <= k < i ==> IsCont(s[k])
      invariant v == Bits(s, i)
    {
      if !IsCont(s[i]) {
        return 1, REPLACEMENT;
      }
      v := v * 64 + s[i] % 64;
      i := i + 1;
    }
    cp := v;
  }

  /** The lead byte and continuation bytes of a sequence of `n` bytes, in bytes. */
  predicate LongForm(s: seq<Byte>, n: nat) {
    && 2 <= n <= 4 && |s| >= n
    && (n == 2 ==> 0xC0 <= s[0] <= 0xDF) && (n == 3 ==> 0xE0 <= s[0] <= 0xEF) && (n == 4 ==> 0xF0 <= s[0] <= 0xF7)
    && forall i | 1 <= i < n :: 0x80 <= s[i] <= 0xBF
  }

  /** The payload of a continuation byte. */
  function Low(b: Byte): int { b as int - 0x80 }

  lemma LongFormDecoded(s: seq<Byte>, n: nat)
    requires LongForm(s, n)
    ensures Len(s) == n && Cp(s) == Bits(s, n) && s[0] > 0x7F
    ensures n == 2 ==> Bits(s, n) == (s[0] as int - 0xC0) * 64 + Low(s[1])
    ensures n == 3 ==> Bits(s, n) == ((s[0] as int - 0xE0) * 64 + Low(s[1])) * 64 + Low(s[2])
    ensures n == 4 ==> Bits(s, n) == (((s[0] as int - 0xF0) * 64 + Low(s[1])) * 64 + Low(s[2])) * 64 + Low(s[3])
  {
    assert Need(s[0]) == n;
    forall i | 1 <= i < n
      ensures s[i] % 64 == Low(s[i])
    {
    }
    BitsUnrolled(s);
  }

  /**
   * What is decoded, in plain numbers: an ASCII byte is itself, a lead byte with its continuation bytes is
   * the number they spell in base 64 whatever its size, and any other byte is U+FFFD on its own.
   */
  lemma DecodedNumbers(s: seq<Byte>)
    requires s != []
    ensures s[0] <= 0x7F ==> Len(s) == 1 && Cp(s) == s[0]
    ensures LongForm(s, 2) ==> Len(s) == 2 && Cp(s) == (s[0] as int - 0xC0) * 64 + Low(s[1])
    ensures LongForm(s, 3) ==> Len(s) == 3 && Cp(s) == ((s[0] as int - 0xE0) * 64 + Low(s[1])) * 64 + Low(s[2])
    ensures LongForm(s, 4) ==>
      Len(s) == 4 && Cp(s) == (((s[0] as int - 0xF0) * 64 + Low(s[1])) * 64 + Low(s[2])) * 64 + Low(s[3])
    ensures s[0] > 0x7F && !LongForm(s, 2) && !LongForm(s, 3) && !LongForm(s, 4) ==> Len(s) == 1 && Cp(s) == 0xFFFD
  {
    if LongForm(s, 2) {
      LongFormDecoded(s, 2);
    } else if LongForm(s, 3) {
      LongFormDecoded(s, 3);
    } else if LongForm(s, 4) {
      LongFormDecoded(s, 4);
    } else if s[0] <= 0x7F {
      assert Bits(s, 1) == s[0];
    } else if ValidAt(s) {
      assert LongForm(s, Need(s[0]));
    }
  }

  // ----- segmentation --------------------------------------------------

  /** The pieces the decoder cuts a text into, one per code point or invalid byte. */
  function Segments(s: seq<Byte>): seq<seq<Byte>> {
    if s == [] then [] else [s[..Len(s)]] + Segments(s[Len(s)..])
  }

  /** Offset `b` lies between two pieces. */
  predicate Boundary(s: seq<Byte>, b: nat) {
    b == 0 || (s != [] && Len(s) <= b && Boundary(s[Len(s)..], b - Len(s)))
  }

  /** The decoder looks no further than the piece it returns: any longer prefix gives the same answer. */
  lemma FirstPiece(s: seq<Byte>, t: seq<Byte>)
    requires s != [] && Len(s) <= |t| && t <= s
    ensures Len(t) == Len(s) && Cp(t) == Cp(s)
  {
    if ValidAt(s) {
      BitsPrefix(s, t, Need(s[0]));
    } else {
      assert !ValidAt(t) by {
        assert forall i :: 1 <= i < |t| ==> t[i] == s[i];
      }
    }
  }

  lemma {:induction false} BitsPrefix(s: seq<Byte>, t: seq<Byte>, i: nat)
    requires 1 <= i <= |t| <= |s| && t[..i] == s[..i]
    ensures Bits(s, i) == Bits(t, i)
  {
    assert s[i - 1] == s[..i][i - 1] == t[..i][i - 1] == t[i - 1];
    if i > 1 {
      assert s[..i - 1] == s[..i][..i - 1] == t[..i][..i - 1] == t[..i - 1];
      BitsPrefix(s, t, i - 1);
    } else {
      assert s[0] == t[0];
    }
  }

  lemma {:induction false} BoundaryInRange(s: seq<Byte>, b: nat)
    requires Boundary(s, b)
    ensures b <= |s|
  {
    if b > 0 {
      BoundaryInRange(s[Len(s)..], b - Len(s));
    }
  }

  lemma {:induction false} SegmentsFlatten(s: seq<Byte>)
    ensures Flatten(Segments(s)) == s
  {
    if s != [] {
      SegmentsFlatten(s[Len(s)..]);
      assert Segments(s)[1..] == Segments(s[Len(s)..]);
    }
  }

  /** Cutting at a boundary leaves every piece on both sides as it was, invalid bytes included. */
  lemma {:induction false} CutAtBoundary(s: seq<Byte>, b: nat)
    requires Boundary(s, b)
    ensures b <= |s| && Segments(s) == Segments(s[..b]) + Segments(s[b..])
    decreases b
  {
    BoundaryInRange(s, b);
    if b == 0 {
      assert s[b..] == s && s[..b] == [];
    } else {
      var n := Len(s);
      FirstPiece(s, s[..b]);
      CutAtBoundary(s[n..], b - n);
      assert s[..b][..n] == s[..n];
      assert s[..b][n..] == s[n..][..b - n];
      assert s[b..] == s[n..][b - n..];
    }
  }

  lemma SegmentsCons(s: seq<Byte>, piece: seq<Byte>, rest: seq<Byte>)
    requires s != [] && s == piece + rest && |piece| == Len(s)
    ensures Segments(s) == [piece] + Segments(rest)
  {
    assert s[..Len(s)] == piece && s[Len(s)..] == rest;
  }

  /** A text followed by something that does not start with a continuation byte is segmented on its own. */
  lemma {:induction false} SegmentsConcat(a: seq<Byte>, b: seq<Byte>)
    requires b == [] || !IsCont(b[0])
    ensures Segments(a + b) == Segments(a) + Segments(b)
  {
    if a == [] {
      assert a + b == b;
    } else {
      var n, t := Len(a), a[Len(a)..];
      assert Segments(a + b) == [a[..n]] + Segments(t + b) by {
        FirstOfConcat(a, b);
        assert a + b == a[..n] + (t + b);
        SegmentsCons(a + b, a[..n], t + b);
      }
      SegmentsConcat(t, b);
    }
  }

  lemma FirstOfConcat(a: seq<Byte>, b: seq<Byte>)
    requires a != [] && (b == [] || !IsCont(b[0]))
    ensures Len(a + b) == Len(a) && Cp(a + b) == Cp(a)
  {
    var s := a + b;
    if ValidAt(a) {
      assert ValidAt(s) by {
        assert forall i :: 1 <= i < Need(s[0]) ==> s[i] == a[i];
      }
      BitsPrefix(s, a, Need(a[0]));
    } else {
      assert !ValidAt(s) by {
        assert b != [] ==> s[|a|] == b[0];
        assert forall i :: 1 <= i < |a| ==> s[i] == a[i];
      }
    }
  }

  /** A complete sequence in front is always cut off whole, whatever follows. */
  lemma FirstOfPiece(p: seq<Byte>, t: seq<Byte>)
    requires p != [] && ValidAt(p) && |p| == Need(p[0])
    ensures Len(p + t) == |p| && Cp(p + t) == Cp(p) && ValidAt(p + t)
  {
    assert forall i :: 1 <= i < |p| ==> (p + t)[i] == p[i];
    BitsPrefix(p + t, p, |p|);
  }

  // ----- the encoder ---------------------------------------------------

  /** Section 3 of RFC 3629: character numbers the encoding is defined for. */
  predicate IsScalar(cp: int) { 0 <= cp <= 0x10FFFF && !(0xD800 <= cp <= 0xDFFF) }

  function Encode(cp: int): (r: Text)
    requires 0 < cp <= 0x10FFFF
  {
    if cp < 0x80 then [cp]
    else if cp < 0x800 then [0xC0 + cp / 0x40, 0x80 + cp % 0x40]
    else if cp < 0x10000 then [0xE0 + cp / 0x1000, 0x80 + cp / 0x40 % 0x40, 0x80 + cp % 0x40]
    else [0xF0 + cp / 0x40000, 0x80 + cp / 0x1000 % 0x40, 0x80 + cp / 0x40 % 0x40, 0x80 + cp % 0x40]
  }

  /** The syntax of one UTF-8 character, section 4 of RFC 3629 (NUL aside, which no C string holds). */
  predicate Rfc3629(b: seq<Byte>) {
    || (|b| == 1 && 0x00 < b[0] <= 0x7F)
    || (|b| == 2 && 0xC2 <= b[0] <= 0xDF && IsCont(b[1]))
    || (|b| == 3 && IsCont(b[2])
        && (|| (b[0] == 0xE0 && 0xA0 <= b[1] <= 0xBF)
            || (0xE1 <= b[0] <= 0xEC && IsCont(b[1]))
            || (b[0] == 0xED && 0x80 <= b[1] <= 0x9F)
            || (0xEE <= b[0] <= 0xEF && IsCont(b[1]))))
    || (|b| == 4 && IsCont(b[2]) && IsCont(b[3])
        && (|| (b[0] == 0xF0 && 0x90 <= b[1] <= 0xBF)
            || (0xF1 <= b[0] <= 0xF3 && IsCont(b[1]))
            || (b[0] == 0xF4 && 0x80 <= b[1] <= 0x8F)))
  }

  lemma BitsUnrolled(s: seq<Byte>)
    requires s != []
    ensures Bits(s, 1) == LeadBits(s[0])
    ensures |s| >= 2 ==> Bits(s, 2) == LeadBits(s[0]) * 64 + s[1] % 64
    ensures |s| >= 3 ==> Bits(s, 3) == (LeadBits(s[0]) * 64 + s[1] % 64) * 64 + s[2] % 64
    ensures |s| >= 4 ==> Bits(s, 4) == ((LeadBits(s[0]) * 64 + s[1] % 64) * 64 + s[2] % 64) * 64 + s[3] % 64
  {
    if |s| >= 3 {
      assert Bits(s, 3) == Bits(s, 2) * 64 + s[2] % 64;
    }
    if |s| >= 4 {
      assert Bits(s, 4) == Bits(s, 3) * 64 + s[3] % 64;
    }
  }

  /** Decoding an encoded code point gives it back, whatever bytes follow. */
  lemma EncodeDecode(cp: int, rest: seq<Byte>)
    requires 0 < cp <= 0x10FFFF
    ensures ValidAt(Encode(cp)) && |Encode(cp)| == Need(Encode(cp)[0])
    ensures Len(Encode(cp) + rest) == |Encode(cp)| && Cp(Encode(cp) + rest) == cp
  {
    var e := Encode(cp);
    EncodeBits(cp);
    FirstOfPiece(e, rest);
  }

  lemma EncodeBits(cp: int)
    requires 0 < cp <= 0x10FFFF
    ensures ValidAt(Encode(cp)) && |Encode(cp)| == Need(Encode(cp)[0]) && Bits(Encode(cp), |Encode(cp)|) == cp
  {
    var e := Encode(cp);
    assert Bits(e, 1) == LeadBits(e[0]);
    if cp >= 0x10000 {
      EncodeBits4(cp, e);
    } else if cp >= 0x800 {
      EncodeBits3(cp, e);
    }
  }

  lemma EncodeBits3(cp: int, e: seq<Byte>)
    requires 0x800 <= cp < 0x10000 && e == Encode(cp)
    ensures Bits(e, 3) == cp
  {
    var q := cp / 0x40;
    assert cp / 0x1000 == q / 0x40;
    assert e[0] % 0x10 == q / 0x40 && e[1] % 0x40 == q % 0x40 && e[2] % 0x40 == cp % 0x40;
    hide Encode;
    BitsUnrolled(e);
  }

  lemma EncodeBits4(cp: int, e: seq<Byte>)
    requires 0x10000 <= cp <= 0x10FFFF && e == Encode(cp)
    ensures Bits(e, 4) == cp
  {
    var q := cp / 0x40;
    assert cp / 0x1000 == q / 0x40;
    assert cp / 0x40000 == q / 0x40 / 0x40;
    assert e[0] % 8 == q / 0x40 / 0x40 && e[1] % 0x40 == q / 0x40 % 0x40;
    assert e[2] % 0x40 == q % 0x40 && e[3] % 0x40 == cp % 0x40;
    hide Encode;
    BitsUnrolled(e);
  }

  /** The encoder produces exactly the characters of RFC 3629 ... */
  lemma EncodeStrict(cp: int)
    requires 0 < cp <= 0x10FFFF
    ensures Rfc3629(Encode(cp)) <==> IsScalar(cp)
  {
    if cp >= 0x10000 {
      EncodeStrict4(cp);
    } else if cp >= 0x800 {
      EncodeStrict3(cp);
    }
  }

  lemma EncodeStrict3(cp: int)
    requires 0x800 <= cp < 0x10000
    ensures Rfc3629(Encode(cp)) <==> IsScalar(cp)
  {
    var q := cp / 0x40;
    assert cp / 0x1000 == q / 0x40;
  }

  lemma EncodeStrict4(cp: int)
    requires 0x10000 <= cp <= 0x10FFFF
    ensures Rfc3629(Encode(cp))
  {
    var q := cp / 0x1000;
    assert cp / 0x40000 == q / 0x40;
  }

  /** ... and every one of them is the encoding of the number it decodes to, and of no other. */
  lemma EncodeOnto(b: seq<Byte>)
    requires Rfc3629(b)
    ensures Len(b) == |b| && IsScalar(Cp(b)) && Cp(b) > 0 && Encode(Cp(b)) == b
    ensures forall cp | 0 < cp <= 0x10FFFF && Encode(cp) == b :: cp == Cp(b)
  {
    DecodeStrict(b);
    forall cp | 0 < cp <= 0x10FFFF && Encode(cp) == b
      ensures cp == Cp(b)
    {
      EncodeDecode(cp, []);
      assert Encode(cp) + [] == b;
    }
  }

  lemma DecodeStrict(b: seq<Byte>)
    requires Rfc3629(b)
    ensures Len(b) == |b| && IsScalar(Cp(b)) && Cp(b) > 0 && Encode(Cp(b)) == b
  {
    assert ValidAt(b) && Need(b[0]) == |b|;
    BitsUnrolled(b);
    if |b| == 4 {
      Encode4(LeadBits(b[0]) * 64 + b[1] % 64, b);
    } else if |b| == 3 {
      Encode3(LeadBits(b[0]) * 64 + b[1] % 64, b);
    }
  }

  lemma Encode3(q: nat, b: seq<Byte>)
    requires |b| == 3 && Rfc3629(b) && q == LeadBits(b[0]) * 64 + b[1] % 64
    ensures var cp := q * 64 + b[2] % 64; 0x800 <= cp <= 0xFFFF && IsScalar(cp) && Encode(cp) == b
  {
    var x, y, z := LeadBits(b[0]), b[1] % 64, b[2] % 64;
    assert b[0] == 0xE0 + x && b[1] == 0x80 + y && b[2] == 0x80 + z;
    assert x == 0 ==> y >= 0x20;
    assert x == 0xD ==> y <= 0x1F;
    SixBits(x, y, z);
  }

  lemma Encode4(q: nat, b: seq<Byte>)
    requires |b| == 4 && Rfc3629(b) && q == LeadBits(b[0]) * 64 + b[1] % 64
    ensures var cp := (q * 64 + b[2] % 64) * 64 + b[3] % 64; 0x10000 <= cp <= 0x10FFFF && Encode(cp) == b
  {
    hide Encode;
    var w, x, y, z := LeadBits(b[0]), b[1] % 64, b[2] % 64, b[3] % 64;
    assert b[0] == 0xF0 + w && b[1] == 0x80 + x && b[2] == 0x80 + y && b[3] == 0x80 + z;
    FourBytes(w, x, y, z);
  }

  lemma FourBytes(w: nat, x: nat, y: nat, z: nat)
    requires w <= 4 && x < 64 && y < 64 && z < 64 && (w == 0 ==> x >= 0x10) && (w == 4 ==> x <= 0xF)
    ensures var cp := ((w * 64 + x) * 64 + y) * 64 + z;
            0x10000 <= cp <= 0x10FFFF && Encode(cp) == [0xF0 + w, 0x80 + x, 0x80 + y, 0x80 + z]
  {
    SixBits(w * 64 + x, y, z);
    SixBits(w, x, y);
  }

  /** Taking a number apart into groups of six bits. */
  lemma SixBits(x: nat, y: nat, z: nat)
    requires y < 64 && z < 64
    ensures var cp := (x * 64 + y) * 64 + z;
            cp % 0x40 == z && cp / 0x40 == x * 64 + y && (x * 64 + y) % 0x40 == y && cp / 0x1000 == x
    ensures ((x * 64 + y) * 64 + z) / 0x40000 == x / 64
  {
  }
}
