/** C strings and byte buffers. */
module Bytes {
  /** A cell of a raw buffer. */
  type Byte = x: int | 0 <= x < 256

  /** A byte of a C string: NUL only terminates, so it is never part of the contents. */
  type Char = x: int | 1 <= x < 256 witness 1

  type Text = seq<Char>

  const TAB: Char := 9
  const NL: Char := 10
  const CR: Char := 13
  const SP: Char := 32

  predicate IsBlank(c: int) { c == SP || c == TAB }

  predicate IsWhite(c: int) { IsBlank(c) || c == NL }

  /** The C string held by a buffer: everything before the first NUL. */
  function CStr(a: seq<Byte>): Text {
    if a == [] || a[0] == 0 then [] else [a[0]] + CStr(a[1..])
  }

  lemma {:induction false} CStrOf(a: seq<Byte>, n: nat)
    requires n < |a| && a[n] == 0 && 0 !in a[..n]
    ensures CStr(a) == a[..n]
  {
    if n > 0 {
      assert a[0] == a[..n][0];
      assert a[1..][..n - 1] == a[..n][1..];
      CStrOf(a[1..], n - 1);
    }
  }

  /** The bytes of an ASCII string. */
  function Ascii(s: string): (r: Text)
    requires forall i | 0 <= i < |s| :: 0 < s[i] as int < 128
    ensures |r| == |s| && forall i | 0 <= i < |s| :: r[i] == s[i] as int
  {
    seq(|s|, i requires 0 <= i < |s| => s[i] as int)
  }

  lemma Assoc<T>(a: seq<T>, b: seq<T>, c: seq<T>)
    ensures a + (b + c) == (a + b) + c
  {
  }

  function Flatten<T>(ss: seq<seq<T>>): seq<T> {
    if ss == [] then [] else ss[0] + Flatten(ss[1..])
  }

  lemma {:induction false} FlattenConcat<T>(a: seq<seq<T>>, b: seq<seq<T>>)
    ensures Flatten(a + b) == Flatten(a) + Flatten(b)
  {
    if a == [] {
      assert a + b == b;
    } else {
      assert (a + b)[1..] == a[1..] + b;
      FlattenConcat(a[1..], b);
    }
  }

  lemma FlattenSnoc<T>(a: seq<seq<T>>, x: seq<T>)
    ensures Flatten(a + [x]) == Flatten(a) + x
  {
    FlattenConcat(a, [x]);
    assert Flatten([x]) == x + Flatten<T>([]);
  }

  /** Index of the first byte equal to `c` (`strchr`). */
  function Find(s: Text, c: Char): (r: int)
    ensures -1 <= r < |s|
    ensures r >= 0 ==> s[r] == c && c !in s[..r]
    ensures r < 0 ==> c !in s
  {
    if s == [] then -1
    else if s[0] == c then 0
    else
      var k := Find(s[1..], c);
      assert s == [s[0]] + s[1..];
      assert k >= 0 ==> s[..k + 1] == [s[0]] + s[1..][..k];
      if k < 0 then -1 else k + 1
  }

  lemma FindAt(s: Text, c: Char, k: nat)
    requires k < |s| && s[k] == c && c !in s[..k]
    ensures Find(s, c) == k
  {
    var r := Find(s, c);
    assert c in s;
    assert forall i :: 0 <= i < k ==> s[..k][i] == s[i];
    assert forall i :: 0 <= i < r ==> s[..r][i] == s[i];
  }

  /** How often a byte occurs. */
  function Occurrences(s: Text, c: Char): nat {
    if s == [] then 0 else (if s[0] == c then 1 else 0) + Occurrences(s[1..], c)
  }

  lemma {:induction false} OccurrencesConcat(a: Text, b: Text, c: Char)
    ensures Occurrences(a + b, c) == Occurrences(a, c) + Occurrences(b, c)
  {
    if a == [] {
      assert a + b == b;
    } else {
      assert (a + b)[1..] == a[1..] + b;
      OccurrencesConcat(a[1..], b, c);
    }
  }

  lemma {:induction false} NoOccurrences(s: Text, c: Char)
    ensures Occurrences(s, c) == 0 <==> c !in s
  {
    if s != [] {
      NoOccurrences(s[1..], c);
      assert s == [s[0]] + s[1..];
    }
  }

  lemma OneOccurrence(b: Char, c: Char)
    ensures Occurrences([b], c) == if b == c then 1 else 0
  {
    assert [b][1..] == [];
  }

  /** `needle` occurs in `s` at position `i`. */
  predicate OccursAt(s: Text, needle: Text, i: nat) {
    i <= |s| && needle <= s[i..]
  }

  /** Index of the first occurrence of a needle (`strstr`). */
  function FindText(s: Text, needle: Text): (r: int)
    ensures -1 <= r <= |s|
    ensures r >= 0 ==> OccursAt(s, needle, r) && forall i: nat :: i < r ==> !OccursAt(s, needle, i)
    ensures r < 0 ==> forall i: nat :: !OccursAt(s, needle, i)
  {
    if OccursAt(s, needle, 0) then 0
    else if s == [] then -1
    else
      var k := FindText(s[1..], needle);
      forall i: nat {:trigger OccursAt(s, needle, i)} | i > 0
        ensures OccursAt(s, needle, i) <==> OccursAt(s[1..], needle, i - 1)
      {
        assert i <= |s| ==> s[i..] == s[1..][i - 1..];
      }
      if k < 0 then -1 else k + 1
  }

  function Min(a: int, b: int): int { if a <= b then a else b }

  function Max(a: int, b: int): int { if a >= b then a else b }

  function Clamp(x: int, lo: int, hi: int): int { if x < lo then lo else if x > hi then hi else x }

  /** A capacity reached from `base` by doubling. */
  predicate Doubled(base: nat, cap: nat)
    requires base > 0
  {
    cap == base || (cap > base && cap % 2 == 0 && Doubled(base, cap / 2))
  }
}
