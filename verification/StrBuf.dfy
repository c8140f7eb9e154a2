/** The growing string buffer that decoded text is collected in. */
module StrBuf {
  import opened Bytes
  import opened Utf8
  import opened Sanitize

  const FIRST_CAP := 256

  /** What the encoder is allowed to emit: anything it must not is replaced by U+FFFD. */
  function Substitute(cp: nat): (r: nat)
    ensures 0 < r <= 0x10FFFF && IsScalar(r) && !IsForbidden(r)
    ensures r == cp || r == REPLACEMENT
  {
    if cp == 0 || cp > 0x10FFFF || 0xD800 <= cp <= 0xDFFF || IsForbidden(cp) then REPLACEMENT else cp
  }

  class Buffer {
    var buf: array?<Byte>
    var len: nat
    var cap: nat

    /** Allocated by doubling from 256, always room for the terminator, terminated right after the contents. */
    ghost predicate Valid()
      reads this, buf
    {
      if buf == null then len == 0 == cap
      else
        && buf.Length == cap && Doubled(FIRST_CAP, cap)
        && len < cap && buf[len] == 0
        && forall i | 0 <= i < len :: buf[i] != 0
    }

    ghost function Contents(): Text
      reads this, buf
      requires Valid()
    {
      if buf == null then [] else buf[..len]
    }

    constructor ()
      ensures Valid() && Contents() == [] && buf == null
    {
      buf, len, cap := null, 0, 0;
    }

    /** Room for one more byte and the terminator. */
    method Grow()
      requires Valid()
      modifies this
      ensures Valid() && Contents() == old(Contents()) && buf != null && len + 2 <= cap
      ensures len == old(len) && (fresh(buf) || buf == old(buf))
      ensures cap == if old(len) + 2 <= old(cap) then old(cap) else if old(cap) > 0 then old(cap) * 2 else 256
    {
      if len + 2 > cap {
        var n := if cap > 0 then cap * 2 else FIRST_CAP;
        var bigger := new Byte[n];
        if buf != null {
          forall i | 0 <= i < cap {
            bigger[i] := buf[i];
          }
        } else {
          bigger[0] := 0;
        }
        assert buf != null ==> bigger[..len] == buf[..len];
        buf, cap := bigger, n;
      }
    }

    method Put(c: Char)
      requires Valid()
      modifies this, buf
      ensures Valid() && Contents() == old(Contents()) + [c]
      ensures buf != null && (fresh(buf) || buf == old(buf))
    {
      Grow();
      ghost var was := buf[..len];
      buf[len] := c;
      len := len + 1;
      buf[len] := 0;
      assert buf[..len] == was + [c];
    }

    /** Several bytes, one at a time. */
    method PutEach(bytes: Text)
      requires Valid() && bytes != []
      modifies this, buf
      ensures Valid() && Contents() == old(Contents()) + bytes
      ensures buf != null && (fresh(buf) || buf == old(buf))
    {
      Put(bytes[0]);
      var i := 1;
      while i < |bytes|
        invariant 1 <= i <= |bytes|
        invariant Valid() && Contents() == old(Contents()) + bytes[..i]
        invariant buf != null && (fresh(buf) || buf == old(buf))
      {
        assert old(Contents()) + bytes[..i + 1] == old(Contents()) + bytes[..i] + [bytes[i]];
        Put(bytes[i]);
        i := i + 1;
      }
      assert bytes[..i] == bytes;
    }

    method PutCp(cp: nat)
      requires Valid()
      modifies this, buf
      ensures Valid() && Contents() == old(Contents()) + Encode(Substitute(cp))
      ensures buf != null && (fresh(buf) || buf == old(buf))
    {
      var v := cp;
      if cp == 0 || cp > 0x10FFFF || 0xD800 <= cp <= 0xDFFF || IsForbidden(cp) {
        v := REPLACEMENT;
      }
      if v < 0x80 {
        Put(v);
      } else if v < 0x800 {
        PutEach([0xC0 + v / 0x40, 0x80 + v % 0x40]);
      } else if v < 0x10000 {
        PutEach([0xE0 + v / 0x1000, 0x80 + v / 0x40 % 0x40, 0x80 + v % 0x40]);
      } else {
        PutEach([0xF0 + v / 0x40000, 0x80 + v / 0x1000 % 0x40, 0x80 + v / 0x40 % 0x40, 0x80 + v % 0x40]);
      }
    }
  }
}
