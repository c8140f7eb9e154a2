/** The response body: chunks collected in a growing buffer with a hard limit. */
module Response {
  import opened Bytes

  const MAX_BYTES := 16 * 1024 * 1024
  const FIRST_CAP := 4096

  /** The requests a client makes one after the other, each with the chunks delivered to it. */
  datatype Body = Body(bytes: seq<Byte>, tooLarge: bool)

  predicate Accepts(bytes: seq<Byte>, chunk: seq<Byte>) {
    |chunk| <= MAX_BYTES && |bytes| <= MAX_BYTES - |chunk|
  }

  function Receive(b: Body, chunk: seq<Byte>): Body {
    if Accepts(b.bytes, chunk) then Body(b.bytes + chunk, b.tooLarge) else Body(b.bytes, true)
  }

  function ReceiveAll(b: Body, chunks: seq<seq<Byte>>): Body
    decreases |chunks|
  {
    if chunks == [] then b else ReceiveAll(Receive(b, chunks[0]), chunks[1..])
  }

  /** All chunks arrive whole and in order, or the limit was met: which happens exactly when they exceed it together. */
  lemma {:induction false} AllOrTooLarge(b: Body, chunks: seq<seq<Byte>>)
    requires |b.bytes| <= MAX_BYTES && !b.tooLarge
    ensures var r := ReceiveAll(b, chunks);
            && |r.bytes| <= 0x100_0000
            && (r.tooLarge <==> |b.bytes| + |Flatten(chunks)| > 0x100_0000)
            && (!r.tooLarge ==> r.bytes == b.bytes + Flatten(chunks))
    decreases |chunks|
  {
    if chunks == [] {
      assert b.bytes + [] == b.bytes;
    } else {
      var n := Receive(b, chunks[0]);
      if n.tooLarge {
        StaysTooLarge(n, chunks[1..]);
      } else {
        AllOrTooLarge(n, chunks[1..]);
        Assoc(b.bytes, chunks[0], Flatten(chunks[1..]));
      }
    }
  }

  lemma {:induction false} StaysTooLarge(b: Body, chunks: seq<seq<Byte>>)
    requires |b.bytes| <= MAX_BYTES && b.tooLarge
    ensures ReceiveAll(b, chunks).tooLarge && |ReceiveAll(b, chunks).bytes| <= MAX_BYTES
    decreases |chunks|
  {
    if chunks != [] {
      StaysTooLarge(Receive(b, chunks[0]), chunks[1..]);
    }
  }

  /** A chunk is taken whole if all taken so far and it stay within 2^24 bytes; otherwise it changes no byte. */
  lemma OneChunk(b: Body, chunk: seq<Byte>)
    ensures Accepts(b.bytes, chunk) <==> |b.bytes| + |chunk| <= 0x100_0000
    ensures Receive(b, chunk).bytes == if Accepts(b.bytes, chunk) then b.bytes + chunk else b.bytes
    ensures Receive(b, chunk).tooLarge == (b.tooLarge || !Accepts(b.bytes, chunk))
  {
  }

  /** The capacities are 0 and 4096 times a power of two, up to 2^25. */
  lemma CapNumbers(cap: nat)
    ensures GoodCap(cap) <==> cap == 0 || (Doubled(4096, cap) && cap <= 0x200_0000)
  {
  }

  /** Doubling from 4096 reaches 2^25 and no more for a body within the limit. */
  lemma {:induction false} DoubledDivides(base: nat, cap: nat, limit: nat)
    requires base > 0 && Doubled(base, cap) && Doubled(base, limit) && cap < limit
    ensures cap * 2 <= limit
    decreases cap
  {
    if cap > base {
      DoubledDivides(base, cap / 2, limit / 2);
    }
  }

  lemma LimitDoubled()
    ensures Doubled(FIRST_CAP, 2 * MAX_BYTES)
  {
    assert Doubled(FIRST_CAP, FIRST_CAP * 4);
    assert Doubled(FIRST_CAP, FIRST_CAP * 16);
    assert Doubled(FIRST_CAP, FIRST_CAP * 64);
    assert Doubled(FIRST_CAP, FIRST_CAP * 256);
    assert Doubled(FIRST_CAP, FIRST_CAP * 1024);
    assert Doubled(FIRST_CAP, FIRST_CAP * 4096);
    assert Doubled(FIRST_CAP, FIRST_CAP * 8192);
  }

  /** A capacity that has been allocated: none yet, or 4096 doubled, up to 2^25. */
  predicate GoodCap(cap: nat) {
    cap == 0 || (Doubled(FIRST_CAP, cap) && cap <= 2 * MAX_BYTES)
  }

  class ResponseBuffer {
    var buf: array?<Byte>
    var len: nat
    var cap: nat
    var tooLarge: bool

    ghost predicate Valid()
      reads this, buf
    {
      && GoodCap(cap) && len <= MAX_BYTES
      && (if buf == null then len == 0 == cap else buf.Length == cap && len < cap && buf[len] == 0)
    }

    ghost function Now(): Body
      reads this, buf
      requires Valid()
    {
      Body(if buf == null then [] else buf[..len], tooLarge)
    }

    constructor ()
      ensures Valid() && Now() == Body([], false)
    {
      buf, len, cap, tooLarge := null, 0, 0, false;
    }

    /** A new request reuses the buffer. */
    method Begin()
      requires Valid()
      modifies this`len, this`tooLarge, buf
      ensures Valid() && Now() == Body([], false) && buf == old(buf) && cap == old(cap)
    {
      len, tooLarge := 0, false;
      if buf != null {
        buf[0] := 0;
      }
    }

    /** The next capacity that holds `need` bytes. */
    static method NextCap(cap: nat, need: nat) returns (c: nat)
      requires GoodCap(cap) && need <= MAX_BYTES + 1
      ensures GoodCap(c) && c >= need && c >= cap && c > 0
      ensures c == cap || c == 4096 || c < 2 * need
    {
      c := if cap > 0 then cap else FIRST_CAP;
      LimitDoubled();
      while c < need
        invariant c > 0 && c >= cap && GoodCap(c)
        invariant c == cap || c == 4096 || c < 2 * need
        decreases need - c
      {
        DoubledDivides(FIRST_CAP, c, 2 * MAX_BYTES);
        c := c * 2;
      }
    }

    /** The write callback: the number of bytes taken, or 0 to abort the transfer. */
    method Write(chunk: seq<Byte>) returns (taken: nat)
      requires Valid()
      modifies this, buf
      ensures Valid() && Now() == Receive(old(Now()), chunk)
      ensures taken == if Accepts(old(Now()).bytes, chunk) then |chunk| else 0
      ensures cap >= old(cap) && (buf == old(buf) || fresh(buf))
      ensures !Accepts(old(Now()).bytes, chunk) ==> buf == old(buf) && len == old(len) && cap == old(cap)
    {
      var n := |chunk|;
      if n > MAX_BYTES || len > MAX_BYTES - n {
        tooLarge := true;
        return 0;
      }
      ghost var was := Now().bytes;
      if len + n + 1 > cap {
        var c := NextCap(cap, len + n + 1);
        var bigger := new Byte[c];
        if buf != null {
          forall i | 0 <= i < len {
            bigger[i] := buf[i];
          }
        }
        buf, cap := bigger, c;
      }
      assert buf[..len] == was;
      AppendTo(buf, len, chunk);
      len := len + n;
      return n;
    }

    /** Copy the chunk behind the first `at` bytes and terminate it. */
    static method AppendTo(b: array<Byte>, at: nat, chunk: seq<Byte>)
      requires at + |chunk| < b.Length
      modifies b
      ensures b[..at + |chunk|] == old(b[..at]) + chunk && b[at + |chunk|] == 0
    {
      ghost var was := b[..at];
      forall i | 0 <= i < |chunk| {
        b[at + i] := chunk[i];
      }
      b[at + |chunk|] := 0;
      assert b[..at] == was;
      assert b[..at + |chunk|] == b[..at] + chunk;
    }
  }
}
