/** What each kind of character reference stands for, in plain numbers. */
module References {
  import opened Bytes
  import opened Utf8
  import opened Sanitize
  import opened StrBuf
  import opened Entity

  // ----- what may be emitted ---------------------------------------------------

  /** Exactly these numbers are replaced. */
  lemma SubstituteNumbers(cp: nat)
    ensures Substitute(cp) ==
            if || cp <= 31 || 127 <= cp <= 159 || cp == 0x61C || 0x200B <= cp <= 0x200F || 0x202A <= cp <= 0x202E
               || 0x2060 <= cp <= 0x2064 || 0x2066 <= cp <= 0x2069 || cp == 0xFEFF
               || 0xD800 <= cp <= 0xDFFF || cp > 0x10FFFF
            then 0xFFFD else cp
  {
  }

  // ----- named references --------------------------------------------------------

  lemma SpellsOne(a: string, b: string, s: Text)
    requires Spells(a, s) && Spells(b, s)
    ensures a == b
  {
    assert forall i | 0 <= i < |s| :: a[i] as int == s[i] == b[i] as int;
  }

  lemma NamesDiffer()
    ensures forall i, j | 0 <= i < j < |ENTITIES| :: ENTITIES[i].0 != ENTITIES[j].0
  {
  }

  lemma {:induction false} SkipTo(name: Text, k: nat)
    requires k <= |ENTITIES| && forall i | 0 <= i < k :: !Spells(ENTITIES[i].0, name)
    ensures Lookup(name, 0) == Lookup(name, k)
  {
    hide Spells, ENTITIES;
    if k > 0 {
      SkipTo(name, k - 1);
    }
  }

  /** No entry hides another: each name selects its own character. */
  lemma EveryNameFound(name: Text, k: nat)
    requires k < |ENTITIES| && Spells(ENTITIES[k].0, name)
    ensures Lookup(name, 0) == ENTITIES[k].1
  {
    NamesDiffer();
    hide ENTITIES;
    forall i | 0 <= i < k
      ensures !Spells(ENTITIES[i].0, name)
    {
      if Spells(ENTITIES[i].0, name) {
        SpellsOne(ENTITIES[i].0, ENTITIES[k].0, name);
      }
    }
    SkipTo(name, k);
  }

  /** A name that is not in the table, the empty one included, stands for U+FFFD. */
  lemma UnknownName(name: Text)
    requires forall i | 0 <= i < |ENTITIES| :: !Spells(ENTITIES[i].0, name)
    ensures Lookup(name, 0) == 0xFFFD
  {
    hide Spells, ENTITIES;
    SkipTo(name, |ENTITIES|);
  }

  /** The `k`-th named reference. */
  predicate Names(k: nat, name: string, cp: nat) { k < |ENTITIES| && ENTITIES[k] == (name, cp) }

  /** A named reference decodes to its character, whatever follows the ';'. */
  lemma NamedReference(k: nat, entry: string, cp: nat, name: Text, rest: Text)
    requires Names(k, entry, cp) && Spells(entry, name) && 0 < |name| <= 12 && 35 != name[0] && 59 !in name
    ensures Reference(name + [59] + rest) == Ref(|name| + 2, cp)
  {
    hide ENTITIES, Find, Numeric;
    EveryNameFound(name, k);
    var s := name + [59] + rest;
    FindAt(s, SEMI, |name|);
    assert s[..|name|] == name;
  }

  /** Any other name is a reference too, to U+FFFD; `&;` among them. */
  lemma OtherReference(name: Text, rest: Text)
    requires forall k | 0 <= k < |ENTITIES| :: !Spells(ENTITIES[k].0, name)
    requires |name| <= 12 && 59 !in name && (name == [] || name[0] != 35)
    ensures Reference(name + [59] + rest) == Ref(|name| + 2, 0xFFFD)
  {
    hide ENTITIES, Find, Numeric;
    UnknownName(name);
    var s := name + [59] + rest;
    FindAt(s, SEMI, |name|);
    assert s[..|name|] == name;
  }

  /** The names and their characters, as section 24 of HTML 4.01 has them ("apos" aside, which is XML's). */
  lemma NamedCharacters()
    ensures |ENTITIES| == 30
    ensures Names(0, "amp", 38) && Names(1, "lt", 60) && Names(2, "gt", 62) && Names(3, "quot", 34)
    ensures Names(4, "apos", 39) && Names(5, "nbsp", 160) && Names(6, "copy", 169) && Names(7, "reg", 174)
    ensures Names(8, "trade", 8482) && Names(9, "deg", 176) && Names(10, "middot", 183) && Names(11, "bull", 8226)
    ensures Names(12, "hellip", 8230) && Names(13, "mdash", 8212) && Names(14, "ndash", 8211)
    ensures Names(15, "lsquo", 8216) && Names(16, "rsquo", 8217) && Names(17, "ldquo", 8220)
    ensures Names(18, "rdquo", 8221) && Names(19, "laquo", 171) && Names(20, "raquo", 187)
    ensures Names(21, "times", 215) && Names(22, "divide", 247) && Names(23, "euro", 8364)
    ensures Names(24, "pound", 163) && Names(25, "yen", 165) && Names(26, "cent", 162) && Names(27, "sect", 167)
    ensures Names(28, "para", 182) && Names(29, "dagger", 8224)
  {
  }

  // ----- hexadecimal references ------------------------------------------------------

  function HexDigit(d: nat, capital: bool): Char
    requires d < 16
  {
    if d < 10 then 48 + d else if capital then 55 + d else 87 + d
  }

  /** A number in hexadecimal, with small or capital letters. */
  function Hex(v: nat, capital: bool): Text {
    if v < 16 then [HexDigit(v, capital)] else Hex(v / 16, capital) + [HexDigit(v % 16, capital)]
  }

  lemma HexDigitValue(d: nat, capital: bool)
    requires d < 16
    ensures Digit(HexDigit(d, capital), 16) == d
  {
  }

  lemma {:induction false} HexValue(v: nat, capital: bool)
    ensures Digits(Hex(v, capital), 16) && Num(Hex(v, capital), 16) == v
  {
    hide HexDigit, Digit;
    var s := Hex(v, capital);
    HexDigitValue(v % 16, capital);
    if v < 16 {
      HexDigitValue(v, capital);
      assert s[..0] == [];
    } else {
      HexValue(v / 16, capital);
      assert s[..|s| - 1] == Hex(v / 16, capital);
    }
  }

  function Pow16(k: nat): nat { if k == 0 then 1 else 16 * Pow16(k - 1) }

  lemma {:induction false} HexLength(v: nat, capital: bool, k: nat)
    requires k > 0
    ensures v < Pow16(k) <==> |Hex(v, capital)| <= k
  {
    if v < 16 {
      Pow16AtLeast(k);
    } else if k > 1 {
      HexLength(v / 16, capital, k - 1);
    } else {
      assert Pow16(1) == 16 * Pow16(0);
    }
  }

  lemma {:induction false} Pow16AtLeast(k: nat)
    requires k > 0
    ensures Pow16(k) >= 16
  {
    if k > 1 {
      Pow16AtLeast(k - 1);
    }
  }

  lemma NoSemicolonInDigits(digits: Text)
    requires Digits(digits, 16)
    ensures 59 !in digits
  {
  }

  /** `#x` or `#X`, digits, ';'. */
  lemma HexDigits(x: Char, digits: Text, rest: Text)
    requires (x == 120 || x == 88) && Digits(digits, 16)
    ensures Reference([35, x] + digits + [59] + rest)
         == if |digits| <= 10 then Ref(|digits| + 4, Num(digits, 16) % TWO32) else NOT_A_REFERENCE
  {
    hide Lookup, Find, Digits, Num;
    var s := [35, x] + digits + [59] + rest;
    NoSemicolonInDigits(digits);
    assert s[..|digits| + 2] == [35, x] + digits && s[|digits| + 2] == 59;
    FindAt(s, SEMI, |digits| + 2);
    assert s[2..|digits| + 2] == digits;
  }

  /** A number in hexadecimal, of at most ten digits and in either case, stands for itself modulo 2^32. */
  lemma HexReference(x: Char, v: nat, capital: bool, rest: Text)
    requires x == 120 || x == 88
    ensures Reference([35, x] + Hex(v, capital) + [59] + rest)
         == if v < 0x100_0000_0000 then Ref(|Hex(v, capital)| + 4, v % 0x1_0000_0000) else Ref(1, 38)
  {
    hide Hex, Reference;
    HexValue(v, capital);
    HexLength(v, capital, 10);
    assert Pow16(4) == 0x10000;
    assert Pow16(7) == 0x1000 * Pow16(4);
    assert Pow16(10) == 0x1000 * Pow16(7);
    HexDigits(x, Hex(v, capital), rest);
  }

  // ----- what is no reference ------------------------------------------------------------

  /** Without a ';' among the next 13 bytes an '&' is just that. */
  lemma NoSemicolon(s: Text)
    requires forall i | 0 <= i < 13 && i < |s| :: s[i] != 59
    ensures Reference(s) == Ref(1, 38)
  {
  }

  /** Nor is a numeric reference with a byte that is no digit. */
  lemma BadDigit(body: Text, rest: Text, i: nat)
    requires |body| >= 1 && body[0] == 35 && 59 !in body && |body| <= 12
    requires 1 <= i < |body| && !(48 <= body[i] <= 57)
    requires body[1] != 120 && body[1] != 88
    ensures Reference(body + [59] + rest) == Ref(1, 38)
  {
    hide Lookup, Find;
    var s := body + [59] + rest;
    FindAt(s, SEMI, |body|);
    assert s[1..|body|][i - 1] == body[i];
  }

  lemma BadHexDigit(body: Text, rest: Text, i: nat)
    requires |body| >= 2 && body[0] == 35 && (body[1] == 120 || body[1] == 88) && 59 !in body && |body| <= 12
    requires 2 <= i < |body| && !(48 <= body[i] <= 57) && !(97 <= body[i] <= 102) && !(65 <= body[i] <= 70)
    ensures Reference(body + [59] + rest) == Ref(1, 38)
  {
    hide Lookup, Find;
    var s := body + [59] + rest;
    FindAt(s, SEMI, |body|);
    assert s[2..|body|][i - 2] == body[i];
  }

  /** Such an '&' stays in the text, and decoding goes on right after it. */
  lemma BareAmpersand(s: Text)
    requires Reference(s) == Ref(1, 38)
    ensures Unescape([38] + s) == [38] + Unescape(s)
  {
    hide Reference;
    assert ([38] + s)[1..] == s;
  }

  /** A reference in front is replaced by its character, the rest decoded on its own. */
  lemma OneReference(s: Text)
    requires Reference(s).consumed > 1
    ensures Unescape([38] + s)
         == Encode(Substitute(Reference(s).cp)) + Unescape(s[Reference(s).consumed - 1..])
  {
    hide Reference, Encode, Substitute;
    assert ([38] + s)[1..] == s;
    assert ([38] + s)[Reference(s).consumed..] == s[Reference(s).consumed - 1..];
  }
}
