/** HTML character references: parsing one, and decoding a text full of them. */
module Entity {
  import opened Bytes
  import opened Utf8
  import opened Sanitize
  import opened StrBuf

  const AMP: Char := 38
  const SEMI: Char := 59
  const HASH: Char := 35
  const LOWER_X: Char := 120
  const UPPER_X: Char := 88

  /** Longest body looked at between '&' and ';'. */
  const MAX_BODY := 12
  const TWO32 := 0x1_0000_0000

  const ENTITIES: seq<(string, nat)> := [
    ("amp", 0x26), ("lt", 0x3C), ("gt", 0x3E), ("quot", 0x22), ("apos", 0x27), ("nbsp", 0x00A0),
    ("copy", 0x00A9), ("reg", 0x00AE), ("trade", 0x2122), ("deg", 0x00B0), ("middot", 0x00B7), ("bull", 0x2022),
    ("hellip", 0x2026), ("mdash", 0x2014), ("ndash", 0x2013), ("lsquo", 0x2018), ("rsquo", 0x2019), ("ldquo", 0x201C),
    ("rdquo", 0x201D), ("laquo", 0x00AB), ("raquo", 0x00BB), ("times", 0x00D7), ("divide", 0x00F7), ("euro", 0x20AC),
    ("pound", 0x00A3), ("yen", 0x00A5), ("cent", 0x00A2), ("sect", 0x00A7), ("para", 0x00B6), ("dagger", 0x2020)]

  predicate Spells(name: string, s: Text) {
    |name| == |s| && forall i | 0 <= i < |s| :: name[i] as int == s[i]
  }

  /** The table entry a name selects, from entry `i` on; U+FFFD for a name that is not listed. */
  function Lookup(name: Text, i: nat): nat
    decreases |ENTITIES| - i
  {
    if i >= |ENTITIES| then REPLACEMENT
    else if Spells(ENTITIES[i].0, name) then ENTITIES[i].1
    else Lookup(name, i + 1)
  }

  method EntityLookup(name: Text) returns (cp: nat)
    ensures cp == Lookup(name, 0)
  {
    var i := 0;
    while i < |ENTITIES|
      invariant i <= |ENTITIES| && Lookup(name, i) == Lookup(name, 0)
    {
      if Spells(ENTITIES[i].0, name) {
        return ENTITIES[i].1;
      }
      i := i + 1;
    }
    return REPLACEMENT;
  }

  /** Value of a digit in the given base; -1 for any other byte. */
  function Digit(c: Char, base: nat): (d: int)
    ensures -1 <= d < 16
  {
    if 48 <= c <= 57 then c - 48
    else if base == 16 && 97 <= c <= 102 then c - 87
    else if base == 16 && 65 <= c <= 70 then c - 55
    else -1
  }

  predicate Digits(s: Text, base: nat) {
    forall i | 0 <= i < |s| :: Digit(s[i], base) >= 0
  }

  /** The number a digit string denotes, without any bound. */
  function Num(s: Text, base: nat): nat
    requires Digits(s, base)
  {
    if s == [] then 0 else Num(s[..|s| - 1], base) * base + Digit(s[|s| - 1], base)
  }

  datatype Ref = Ref(consumed: nat, cp: nat)

  const NOT_A_REFERENCE := Ref(1, AMP)

  /** The reference in front of `s`, the text after an '&'. `consumed` counts the '&' and the ';'. */
  function Reference(s: Text): (r: Ref)
    ensures r == NOT_A_REFERENCE || 2 <= r.consumed <= |s| + 1
  {
    var k := Find(s, SEMI);
    if k < 0 || k > MAX_BODY then NOT_A_REFERENCE
    else if s[0] == HASH then
      if s[1] == LOWER_X || s[1] == UPPER_X then Numeric(s[2..k], 16, k)
      else Numeric(s[1..k], 10, k)
    else Ref(k + 2, Lookup(s[..k], 0))
  }

  /** Digits are accumulated in 32 bits; any other byte makes it no reference at all. */
  function Numeric(digits: Text, base: nat, k: nat): Ref {
    if Digits(digits, base) then Ref(k + 2, Num(digits, base) % TWO32) else NOT_A_REFERENCE
  }

  lemma ModShift(x: nat, k: nat)
    ensures (x + k * TWO32) % TWO32 == x % TWO32
  {
  }

  lemma Wraps(a: nat, base: nat, d: nat)
    requires base == 10 || base == 16
    ensures (a % TWO32 * base + d) % TWO32 == (a * base + d) % TWO32
  {
    var q := a / TWO32;
    var r := a % TWO32;
    assert a == q * TWO32 + r;
    if base == 10 {
      assert a * 10 + d == (r * 10 + d) + (10 * q) * TWO32;
      ModShift(r * 10 + d, 10 * q);
    } else {
      assert a * 16 + d == (r * 16 + d) + (16 * q) * TWO32;
      ModShift(r * 16 + d, 16 * q);
    }
  }

  /** The digit loop, with 32-bit arithmetic. */
  method ParseDigits(s: Text, base: nat, k: nat) returns (r: Ref)
    requires base == 10 || base == 16
    ensures r == Numeric(s, base, k)
  {
    var cp, q := 0, 0;
    while q < |s|
      invariant q <= |s| && Digits(s[..q], base) && cp == Num(s[..q], base) % TWO32
    {
      var d := Digit(s[q], base);
      if d < 0 {
        return NOT_A_REFERENCE;
      }
      assert s[..q + 1][..q] == s[..q];
      Wraps(Num(s[..q], base), base, d);
      cp := (cp * base + d) % TWO32;
      q := q + 1;
    }
    assert s[..q] == s;
    return Ref(k + 2, cp);
  }

  method DecodeEntity(s: Text) returns (r: Ref)
    ensures r == Reference(s)
  {
    var semi := Find(s, SEMI);
    if semi < 0 || semi > MAX_BODY {
      return NOT_A_REFERENCE;
    }
    if s[0] == HASH {
      if s[1] == LOWER_X || s[1] == UPPER_X {
        r := ParseDigits(s[2..semi], 16, semi);
      } else {
        r := ParseDigits(s[1..semi], 10, semi);
      }
    } else {
      var cp := EntityLookup(s[..semi]);
      r := Ref(semi + 2, cp);
    }
  }

  /** The decoding loop before the final filter. */
  function Unescape(s: Text): Text {
    if s == [] then []
    else if s[0] == AMP && Reference(s[1..]).consumed > 1 then
      var r := Reference(s[1..]);
      Encode(Substitute(r.cp)) + Unescape(s[r.consumed..])
    else [s[0]] + Unescape(s[1..])
  }

  lemma UnescapeRef(s: Text, p: nat, r: Ref)
    requires p < |s| && s[p] == AMP && r == Reference(s[p + 1..]) && r.consumed > 1
    ensures p + r.consumed <= |s|
    ensures Unescape(s[p..]) == Encode(Substitute(r.cp)) + Unescape(s[p + r.consumed..])
  {
    hide Encode, Substitute, Reference;
    var t := s[p..];
    assert t[1..] == s[p + 1..];
    assert t[r.consumed..] == s[p + r.consumed..];
  }

  lemma UnescapeByte(s: Text, p: nat)
    requires p < |s| && !(s[p] == AMP && Reference(s[p + 1..]).consumed > 1)
    ensures Unescape(s[p..]) == [s[p]] + Unescape(s[p + 1..])
  {
    assert s[p..][1..] == s[p + 1..];
  }

  /** The loop that collects the decoded text. */
  method UnescapeLoop(s: Text) returns (sb: Buffer)
    ensures fresh(sb) && sb.Valid() && (sb.buf != null ==> fresh(sb.buf))
    ensures sb.Contents() == Unescape(s)
  {
    hide Encode, Substitute, Reference, Unescape;
    sb := new Buffer();
    var p := 0;
    assert s[0..] == s && [] + Unescape(s) == Unescape(s);
    while p < |s|
      invariant p <= |s| && fresh(sb) && sb.Valid() && (sb.buf != null ==> fresh(sb.buf))
      invariant sb.Contents() + Unescape(s[p..]) == Unescape(s)
      decreases |s| - p
    {
      ghost var done := sb.Contents();
      var r := NOT_A_REFERENCE;
      if s[p] == AMP {
        r := DecodeEntity(s[p + 1..]);
      }
      if r.consumed > 1 {
        sb.PutCp(r.cp);
        UnescapeRef(s, p, r);
        Assoc(done, Encode(Substitute(r.cp)), Unescape(s[p + r.consumed..]));
        p := p + r.consumed;
      } else {
        sb.Put(s[p]);
        UnescapeByte(s, p);
        Assoc(done, [s[p]], Unescape(s[p + 1..]));
        p := p + 1;
      }
    }
    UnescapeEnd(sb.Contents());
    assert s[p..] == [];
  }

  lemma UnescapeEnd(done: Text)
    ensures done + Unescape([]) == done
  {
  }

  /** Decode all references of a single-line text and filter the result. */
  method HtmlEntityDecode(s: Text) returns (out: Text)
    ensures out == Filter(Unescape(s), false)
  {
    var sb := UnescapeLoop(s);
    if sb.buf == null {
      return [];
    }
    out := FinishFiltered(sb, false);
  }

  /** Filter the collected string in place and hand it out. */
  method FinishFiltered(sb: Buffer, keepNewlines: bool) returns (out: Text)
    requires sb.Valid() && sb.buf != null
    modifies sb.buf
    ensures out == Filter(old(sb.Contents()), keepNewlines)
  {
    ghost var a := sb.buf[..];
    CStrOf(a, sb.len);
    assert a[..sb.len] == sb.buf[..sb.len];
    SanitizeInPlace(sb.buf, keepNewlines);
    var n := StrLen(sb.buf);
    out := sb.buf[..n];
  }

  // ----- numeric references, as section 5.3.1 of HTML 4.01 writes them ------

  function Decimal(v: nat): (r: Text)
    ensures r != [] && Digits(r, 10)
  {
    if v < 10 then [48 + v] else Decimal(v / 10) + [48 + v % 10]
  }

  lemma {:induction false} DecimalValue(v: nat)
    ensures Num(Decimal(v), 10) == v
  {
    var s := Decimal(v);
    if v < 10 {
      assert s[..0] == [];
    } else {
      DecimalValue(v / 10);
      assert s[..|s| - 1] == Decimal(v / 10);
    }
  }

  function Pow10(k: nat): nat { if k == 0 then 1 else 10 * Pow10(k - 1) }

  /** A number below 10^k takes at most k digits. */
  lemma {:induction false} DecimalLength(v: nat, k: nat)
    requires k > 0
    ensures v < Pow10(k) <==> |Decimal(v)| <= k
  {
    if v < 10 {
      Pow10AtLeast(k);
    } else if k > 1 {
      DecimalLength(v / 10, k - 1);
    } else {
      assert Pow10(1) == 10 * Pow10(0);
    }
  }

  lemma {:induction false} Pow10AtLeast(k: nat)
    requires k > 0
    ensures Pow10(k) >= 10
  {
    if k > 1 {
      Pow10AtLeast(k - 1);
    }
  }

  const ELEVEN_DIGITS := 100_000_000_000

  lemma ElevenDigits(v: nat)
    ensures v < ELEVEN_DIGITS <==> |Decimal(v)| <= 11
  {
    DecimalLength(v, 11);
    assert Pow10(3) == 1000;
    assert Pow10(7) == 10000 * Pow10(3);
    assert Pow10(11) == 10000 * Pow10(7);
  }

  /** `&#digits;` or `&#xdigits;` without the '&'. */
  function NumericBody(digits: Text, base: nat): Text {
    (if base == 16 then [HASH, LOWER_X] else [HASH]) + digits + [SEMI]
  }

  lemma NumericBodyFind(digits: Text, base: nat, rest: Text)
    requires Digits(digits, base)
    ensures Find(NumericBody(digits, base) + rest, SEMI) == |NumericBody(digits, base)| - 1
  {
    var b := NumericBody(digits, base);
    FindAt(b + rest, SEMI, |b| - 1);
  }

  /**
   * A digit string of any value stands for that value modulo 2^32, as long as the body keeps within 12
   * bytes; a longer one is no reference.
   */
  lemma NumericReference(digits: Text, base: nat, rest: Text)
    requires (base == 10 || base == 16) && Digits(digits, base)
    ensures var b := NumericBody(digits, base);
            Reference(b + rest) ==
            if |b| <= MAX_BODY + 1 then Ref(|b| + 1, Num(digits, base) % TWO32) else NOT_A_REFERENCE
  {
    hide Lookup, Find;
    var b := NumericBody(digits, base);
    var s := b + rest;
    NumericBodyFind(digits, base, rest);
    if base == 16 {
      assert s[2..|b| - 1] == digits;
    } else {
      assert s[1..|b| - 1] == digits;
      assert digits != [] ==> s[1] == digits[0] && Digit(digits[0], base) >= 0;
      assert digits == [] ==> s[1] == SEMI;
    }
  }

  /** Every value as `&#d;`, one after the other. */
  function References(vs: seq<nat>): Text {
    if vs == [] then [] else [AMP] + NumericBody(Decimal(vs[0]), 10) + References(vs[1..])
  }

  /** The UTF-8 text of a list of code points, with what must not be emitted replaced. */
  function Utf8Text(vs: seq<nat>): Text {
    if vs == [] then [] else Encode(Substitute(vs[0])) + Utf8Text(vs[1..])
  }

  function Modulo32(vs: seq<nat>): seq<nat> {
    seq(|vs|, i requires 0 <= i < |vs| => vs[i] % TWO32)
  }

  /** What the decimal reference to a number decodes to: up to 11 digits a character, beyond that itself. */
  function Decoded(v: nat): Text {
    if v < ELEVEN_DIGITS then Encode(Substitute(v % TWO32)) else [AMP] + NumericBody(Decimal(v), 10)
  }

  function DecodedAll(vs: seq<nat>): Text {
    if vs == [] then [] else Decoded(vs[0]) + DecodedAll(vs[1..])
  }

  lemma {:induction false} UnescapePlain(a: Text, rest: Text)
    requires AMP !in a
    ensures Unescape(a + rest) == a + Unescape(rest)
  {
    if a == [] {
      assert a + rest == rest;
    } else {
      assert (a + rest)[1..] == a[1..] + rest;
      assert a == [a[0]] + a[1..];
      UnescapePlain(a[1..], rest);
    }
  }

  /** The bytes of a numeric body are digits, '#', 'x' and ';'. */
  lemma NumericBodyBytes(v: nat)
    ensures forall c <- NumericBody(Decimal(v), 10) :: SP < c < 0x7F && c != AMP
  {
    var d := Decimal(v);
    forall i | 0 <= i < |d|
      ensures 48 <= d[i] <= 57
    {
      assert Digit(d[i], 10) >= 0;
    }
  }

  lemma UnescapeOne(v: nat, rest: Text)
    ensures Unescape([AMP] + NumericBody(Decimal(v), 10) + rest) == Decoded(v) + Unescape(rest)
  {
    hide Encode, Substitute, Decimal, Reference, NumericBody;
    var b := NumericBody(Decimal(v), 10);
    var s := [AMP] + b + rest;
    assert s[1..] == b + rest && s[|b| + 1..] == rest;
    ElevenDigits(v);
    DecimalValue(v);
    NumericReference(Decimal(v), 10, rest);
    BodyLength(v);
    if v >= ELEVEN_DIGITS {
      NumericBodyBytes(v);
      UnescapePlain(b, rest);
      Assoc([AMP], b, Unescape(rest));
    }
  }

  lemma BodyLength(v: nat)
    ensures |NumericBody(Decimal(v), 10)| == |Decimal(v)| + 2
  {
  }

  lemma {:induction false} UnescapeReferences(vs: seq<nat>)
    ensures Unescape(References(vs)) == DecodedAll(vs)
  {
    hide Decoded, NumericBody;
    if vs != [] {
      UnescapeReferences(vs[1..]);
      UnescapeOne(vs[0], References(vs[1..]));
    }
  }

  /** Encoded, substituted text is left alone by the filter. */
  lemma {:induction false} Utf8TextClean(vs: seq<nat>)
    ensures Clean(Utf8Text(vs), false)
  {
    if vs != [] {
      Utf8TextClean(vs[1..]);
      var v := Substitute(vs[0]);
      EncodeDecode(v, []);
      assert Encode(v) + [] == Encode(v);
      CleanCons(Encode(v), Utf8Text(vs[1..]), false);
    }
  }

  lemma {:induction false} PrintableClean(s: Text)
    requires forall c <- s :: SP < c < 0x7F
    ensures Clean(s, false)
  {
    if s != [] {
      assert s[0] in s && forall c <- s[1..] :: c in s;
      PrintableClean(s[1..]);
      CleanCons([s[0]], s[1..], false);
      assert [s[0]] + s[1..] == s;
    }
  }

  lemma {:induction false} DecodedClean(vs: seq<nat>)
    ensures Clean(DecodedAll(vs), false)
  {
    hide Encode, Substitute, Clean, NumericBody;
    if vs == [] {
      Utf8TextClean([]);
    } else {
      DecodedClean(vs[1..]);
      if vs[0] < ELEVEN_DIGITS {
        Utf8TextClean([vs[0] % TWO32]);
        Utf8TextOne(vs[0] % TWO32);
      } else {
        NumericBodyBytes(vs[0]);
        PrintableClean([AMP] + NumericBody(Decimal(vs[0]), 10));
      }
      CleanConcat(Decoded(vs[0]), DecodedAll(vs[1..]), false);
    }
  }

  /** Any list of numbers at all, written as decimal references, decodes to what each of them stands for. */
  lemma AnyReferencesDecode(vs: seq<nat>)
    ensures Filter(Unescape(References(vs)), false) == DecodedAll(vs)
  {
    UnescapeReferences(vs);
    DecodedClean(vs);
    CleanUnchanged(DecodedAll(vs), false);
  }

  lemma {:induction false} DecodedShort(vs: seq<nat>)
    requires forall i | 0 <= i < |vs| :: vs[i] < ELEVEN_DIGITS
    ensures DecodedAll(vs) == Utf8Text(Modulo32(vs))
  {
    hide Encode, Substitute;
    if vs != [] {
      DecodedShort(vs[1..]);
      assert Modulo32(vs)[1..] == Modulo32(vs[1..]);
    }
  }

  /** With at most 11 digits each, that is the UTF-8 text of their values modulo 2^32. */
  lemma ReferencesDecode(vs: seq<nat>)
    requires forall i | 0 <= i < |vs| :: vs[i] < ELEVEN_DIGITS
    ensures Filter(Unescape(References(vs)), false) == Utf8Text(Modulo32(vs))
  {
    hide Unescape, Utf8Text, Filter, References, Modulo32, DecodedAll;
    AnyReferencesDecode(vs);
    DecodedShort(vs);
  }

  lemma Modulo32Same(vs: seq<nat>)
    requires forall i | 0 <= i < |vs| :: vs[i] < TWO32
    ensures Modulo32(vs) == vs
  {
  }

  /** The round trip: below 2^32, decoding gives exactly the UTF-8 encoding of the list. */
  lemma EntityRoundTrip(vs: seq<nat>)
    requires forall i | 0 <= i < |vs| :: vs[i] < TWO32
    ensures Filter(Unescape(References(vs)), false) == Utf8Text(vs)
  {
    hide Unescape, Utf8Text, Filter, References, Modulo32;
    ReferencesDecode(vs);
    Modulo32Same(vs);
  }

  lemma Utf8TextOne(v: nat)
    ensures Utf8Text([v]) == Encode(Substitute(v))
    ensures Cp(Utf8Text([v])) == Substitute(v)
  {
    var e := Encode(Substitute(v));
    assert [v][1..] == [];
    assert Utf8Text([v]) == e + [] == e;
    EncodeDecode(Substitute(v), []);
  }

  /** A number the round trip keeps: below 2^32, or refused both as it is and modulo 2^32. */
  predicate Survives(v: nat) {
    v < TWO32 || (v < ELEVEN_DIGITS && Substitute(v % TWO32) == REPLACEMENT)
  }

  lemma AmpersandFirst(s: Text)
    requires s != [] && s[0] == AMP
    ensures Cp(s) == AMP
  {
    assert Bits(s, 1) == AMP;
  }

  lemma BeyondRange(v: nat)
    requires v >= TWO32
    ensures Substitute(v) == REPLACEMENT
  {
  }

  /** A number that does not survive already differs in its first code point, whatever follows. */
  lemma FirstDecoded(v: nat, a: Text, b: Text)
    ensures Survives(v) ==> Decoded(v) == Encode(Substitute(v))
    ensures !Survives(v) ==> Decoded(v) + a != Encode(Substitute(v)) + b
  {
    hide Encode, NumericBody, Substitute, Cp, ValidAt, Len, Decimal;
    EncodeDecode(Substitute(v), b);
    if v >= TWO32 {
      BeyondRange(v);
    }
    if v < ELEVEN_DIGITS {
      EncodeDecode(Substitute(v % TWO32), a);
    } else {
      AmpersandFirst(Decoded(v) + a);
    }
  }

  lemma SameHead(a: Text, b: Text, c: Text)
    ensures a + b == a + c <==> b == c
  {
    if a + b == a + c {
      assert b == (a + b)[|a|..] && c == (a + c)[|a|..];
    }
  }

  /** Where the round trip stops: a list decodes to its UTF-8 text exactly when each of its numbers survives. */
  lemma EntityRoundTripExact(vs: seq<nat>)
    ensures Filter(Unescape(References(vs)), false) == Utf8Text(vs)
       <==> forall i | 0 <= i < |vs| :: Survives(vs[i])
  {
    hide Unescape, Filter, References, DecodedAll, Utf8Text, Survives;
    AnyReferencesDecode(vs);
    DecodedExact(vs);
  }

  lemma {:induction false} DecodedExact(vs: seq<nat>)
    ensures DecodedAll(vs) == Utf8Text(vs) <==> forall i | 0 <= i < |vs| :: Survives(vs[i])
  {
    hide Encode, Substitute, Decoded, Survives;
    if vs != [] {
      DecodedExact(vs[1..]);
      FirstDecoded(vs[0], DecodedAll(vs[1..]), Utf8Text(vs[1..]));
      if Survives(vs[0]) {
        SameHead(Decoded(vs[0]), DecodedAll(vs[1..]), Utf8Text(vs[1..]));
        assert (forall i | 0 <= i < |vs| :: Survives(vs[i])) <==> forall i | 0 <= i < |vs[1..]| :: Survives(vs[1..][i]) by {
          assert forall i | 0 < i < |vs| :: vs[i] == vs[1..][i - 1];
        }
      }
    }
  }

  /** For example `&#4294967361;`, which is 2^32 + 65, comes out as the letter A. */
  lemma EntityAlias()
    ensures Filter(Unescape(References([TWO32 + 65])), false) == [65]
  {
    hide Unescape, Utf8Text, Filter, References;
    var v := TWO32 + 65;
    ReferencesDecode([v]);
    assert Modulo32([v]) == [65];
    Utf8TextOne(65);
  }
}
