/** The streaming context of external/blst/sha256.h:32-137. */
module Sha256BlstCtx {
  import opened ByteStrings
  import opened Hashing
  import opened Sha256Spec
  import opened Sha256Blst

  class Ctx<W(!new)> {
    const A: Arith<W>
    const iv: Regs<W>
    var h: Regs<W>
    var N: nat
    const buf: array<byte>
    var off: nat
    ghost var msg: seq<byte>
    ghost var wraps: nat    // how often N has wrapped around

    ghost predicate Valid()
      reads this, buf
    {
      Taken(msg) && N < TWO_64 && |msg| == N + TWO_64 * wraps
    }

    /** The state has taken the message but its tail, which the buffer holds, with zeros after it. */
    ghost predicate Taken(m: seq<byte>)
      reads this, buf
    {
      && Lawful(A) && buf.Length == 64 && off < 64
      && Holds(BlockFunction(A), iv, m, h, buf[..off])
      && (forall i :: off <= i < 64 ==> buf[i] == 0)
    }

    /** sha256_init */
    constructor (A: Arith<W>, iv: Regs<W>)
      requires Lawful(A)
      ensures Valid() && msg == [] && fresh(buf) && this.A == A && this.iv == iv
    {
      this.A := A;
      this.iv := iv;
      h := iv;
      N, wraps := 0, 0;
      buf := new byte[64](_ => 0);
      off := 0;
      msg := [];
      new;
      HoldsNothing(BlockFunction(A), iv);
    }

    /** sha256_update */
    method Update(inp: seq<byte>)
      requires Valid()
      modifies this, buf
      ensures Valid() && msg == old(msg) + inp
    {
      AddCount(|inp|);
      Absorb(inp);
    }

    method AddCount(len: nat)
      requires |msg| == N + TWO_64 * wraps
      modifies this`N, this`wraps
      ensures N < TWO_64 && |msg| + len == N + TWO_64 * wraps
    {
      var n := N + len;
      wraps := wraps + n / TWO_64;
      N := n % TWO_64;
    }

    method Absorb(inp: seq<byte>)
      requires Taken(msg)
      modifies this`h, this`off, this`msg, buf
      ensures Taken(msg) && msg == old(msg) + inp
    {
      if off != 0 {
        var rem := 64 - off;
        if rem > |inp| {
          Append(inp);
          return;
        }
        Rejoin(msg, inp, rem);
        FillAndTake(inp[..rem], inp[rem..]);
      } else {
        TakeBlocks(inp);
      }
    }

    method FillAndTake(first: seq<byte>, rest: seq<byte>)
      requires Taken(msg) && off + |first| == 64
      modifies this`h, this`off, this`msg, buf
      ensures Taken(msg) && msg == old(msg) + first + rest
    {
      FillUp(first);
      TakeBlocks(rest);
    }

    /** Too short to fill the buffer. */
    method Append(inp: seq<byte>)
      requires Taken(msg) && off + |inp| < 64
      modifies this`off, this`msg, buf
      ensures Taken(msg) && msg == old(msg) + inp
    {
      ghost var tail := buf[..off];
      Copy(off, inp);
      TakeShort(BlockFunction(A), iv, msg, h, tail, inp);
      off := off + |inp|;
      msg := msg + inp;
    }

    /** sha256_bcopy into the buffer. */
    method Copy(o: nat, inp: seq<byte>)
      requires buf.Length == 64 && o + |inp| <= 64
      modifies buf
      ensures buf[..o + |inp|] == old(buf[..o]) + inp
      ensures forall i :: o + |inp| <= i < 64 ==> buf[i] == old(buf[i])
    {
      forall i | 0 <= i < |inp| {
        buf[o + i] := inp[i];
      }
    }

    /** Fills the buffer, takes it as a block, and clears it. */
    method FillUp(inp: seq<byte>)
      requires Taken(msg) && off + |inp| == 64
      modifies this`h, this`off, this`msg, buf
      ensures Taken(msg) && off == 0 && msg == old(msg) + inp
    {
      ghost var tail := buf[..off];
      Copy(off, inp);
      assert buf[..] == tail + inp;
      TakeWhole(BlockFunction(A), iv, msg, h, tail, inp);
      h := BlockDataOrder(A, h, buf[..], 1);
      forall i | 0 <= i < 64 {
        buf[i] := 0;
      }
      off := 0;
      msg := msg + inp;
    }

    /** Whole blocks straight from the input, and the rest into the empty buffer. */
    method TakeBlocks(inp: seq<byte>)
      requires Taken(msg) && off == 0
      modifies this`h, this`off, this`msg, buf
      ensures Taken(msg) && msg == old(msg) + inp
    {
      var n := |inp| / 64;
      Rejoin(msg, inp, 64 * n);
      if n > 0 {
        Whole(inp[..64 * n], n);
      }
      var left := inp[64 * n..];
      if left != [] {
        Append(left);
      }
    }

    method Whole(inp: seq<byte>, n: nat)
      requires Taken(msg) && off == 0 && |inp| == 64 * n
      modifies this`h, this`msg
      ensures Taken(msg) && msg == old(msg) + inp
    {
      assert buf[..off] == [];
      TakeMany(BlockFunction(A), iv, msg, h, inp, n);
      h := BlockDataOrder(A, h, inp, n);
      msg := msg + inp;
    }

    /** sha256_final: the digest of all that was absorbed. */
    method Final() returns (md: Regs<W>)
      requires Valid()
      modifies this`h, buf
      ensures md == Digest(A, iv, msg)
    {
      ghost var tail := buf[..off];
      ghost var len := Be64(BitLength(|msg|));
      BitsOf(|msg|, N, wraps);
      var bits := N * 8 % TWO_64;
      var n := off;
      buf[n] := 0x80;
      n := n + 1;
      if n > 56 {
        assert buf[..] == tail + [0x80] + Zeros(63 - |tail|);
        PaddedTwo(BlockFunction(A), iv, msg, h, tail, len);
        OneCompress(A, h, buf[..]);
        h := BlockDataOrder(A, h, buf[..], 1);
        forall i | 0 <= i < 64 {
          buf[i] := 0;
        }
        StoreLength(bits);
        assert buf[..] == Zeros(56) + len;
      } else {
        StoreLength(bits);
        assert buf[..] == tail + [0x80] + Zeros(55 - |tail|) + len;
        PaddedOne(BlockFunction(A), iv, msg, h, tail, len);
      }
      OneCompress(A, h, buf[..]);
      h := BlockDataOrder(A, h, buf[..], 1);
      md := h;
    }

    /** The last eight bytes of the buffer. */
    method StoreLength(bits: nat)
      requires buf.Length == 64
      modifies buf
      ensures buf[..] == old(buf[..56]) + Be64(bits)
    {
      var len := Be64(bits);
      forall i | 0 <= i < 8 {
        buf[56 + i] := len[i];
      }
    }
  }

  lemma BitsOf(n: nat, N: nat, wraps: nat)
    requires n == N + TWO_64 * wraps
    ensures N * 8 % TWO_64 == BitLength(n)
  {
  }
}
