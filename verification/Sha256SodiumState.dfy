/** The streaming state of external/sha256/hash_sha256_cp.c:147-241. */
module Sha256SodiumState {
  import opened ByteStrings
  import opened Hashing
  import opened Sha256Spec
  import opened Sha256Sodium

  /** The counter holds bits; its bytes modulo 64 are the length of the tail. */
  lemma RestOf(count: nat, n: nat, wraps: nat, r: nat)
    requires 8 * n == count + TWO_64 * wraps && r < 64 && r <= n && (n - r) % 64 == 0
    ensures count / 8 % 64 == r
  {
    var c := count / 8;
    assert c + 0x2000_0000_0000_0000 * wraps == n;
  }

  class State<W(!new)> {
    const A: Arith<W>
    const F: Forms<W>
    const iv: Regs<W>
    var state: Regs<W>
    var count: nat
    const buf: array<byte>
    ghost var r: nat        // how many bytes of the buffer count
    ghost var msg: seq<byte>
    ghost var wraps: nat    // how often the counter has wrapped around

    ghost predicate Valid()
      reads this, buf
    {
      Taken() && count < TWO_64 && 8 * |msg| == count + TWO_64 * wraps
    }

    ghost predicate Taken()
      reads this, buf
    {
      && Lawful(A) && Agree(A, F) && buf.Length == 64 && r < 64
      && Holds(BlockFunction(A), iv, msg, state, buf[..r])
    }

    /** crypto_hash_sha256_init; the buffer holds whatever was in memory. */
    constructor (A: Arith<W>, F: Forms<W>, iv: Regs<W>, b0: byte)
      requires Lawful(A) && Agree(A, F)
      ensures Valid() && msg == [] && fresh(buf) && this.A == A && this.iv == iv
    {
      this.A := A;
      this.F := F;
      this.iv := iv;
      state := iv;
      count, wraps := 0, 0;
      buf := new byte[64](_ => b0);
      r := 0;
      msg := [];
      new;
      HoldsNothing(BlockFunction(A), iv);
    }

    /** crypto_hash_sha256_update */
    method Update(inp: seq<byte>)
      requires Valid()
      modifies this, buf
      ensures Valid() && msg == old(msg) + inp
    {
      if |inp| <= 0 {
        assert msg == msg + inp;
        return;
      }
      RestOf(count, |msg|, wraps, r);
      var rest := count / 8 % 64;
      AddCount(|inp|);
      if |inp| < 64 - rest {
        Append(inp, rest);
        return;
      }
      Rejoin(msg, inp, 64 - rest);
      FillAndTake(inp[..64 - rest], rest, inp[64 - rest..]);
    }

    method AddCount(len: nat)
      requires 8 * |msg| == count + TWO_64 * wraps
      modifies this`count, this`wraps
      ensures count < TWO_64 && 8 * (|msg| + len) == count + TWO_64 * wraps
    {
      var n := count + 8 * len;
      wraps := wraps + n / TWO_64;
      count := n % TWO_64;
    }

    method Copy(o: nat, inp: seq<byte>)
      requires buf.Length == 64 && o + |inp| <= 64
      modifies buf
      ensures buf[..o + |inp|] == old(buf[..o]) + inp
      ensures forall i :: o + |inp| <= i < 64 ==> buf[i] == old(buf[i])
    {
      for i := 0 to |inp|
        invariant buf[..o + i] == old(buf[..o]) + inp[..i]
        invariant forall j :: o + i <= j < 64 ==> buf[j] == old(buf[j])
      {
        buf[o + i] := inp[i];
        assert inp[..i + 1] == inp[..i] + [inp[i]];
      }
      assert inp[..|inp|] == inp;
    }

    method Append(inp: seq<byte>, o: nat)
      requires Taken() && o == r && r + |inp| < 64
      modifies this`r, this`msg, buf
      ensures Taken() && msg == old(msg) + inp
    {
      ghost var tail := buf[..o];
      Copy(o, inp);
      TakeShort(BlockFunction(A), iv, msg, state, tail, inp);
      r := r + |inp|;
      msg := msg + inp;
    }

    method FillAndTake(first: seq<byte>, o: nat, inp: seq<byte>)
      requires Taken() && o == r && r + |first| == 64
      modifies this`state, this`r, this`msg, buf
      ensures Taken() && msg == old(msg) + first + inp
    {
      FillUp(first, o);
      TakeBlocks(inp);
    }

    method FillUp(inp: seq<byte>, o: nat)
      requires Taken() && o == r && r + |inp| == 64
      modifies this`state, this`r, this`msg, buf
      ensures Taken() && r == 0 && msg == old(msg) + inp
    {
      ghost var tail := buf[..o];
      Copy(o, inp);
      assert buf[..] == tail + inp;
      TakeWhole(BlockFunction(A), iv, msg, state, tail, inp);
      OneCompress(A, state, buf[..]);
      state := Transform(A, F, state, buf[..]);
      r := 0;
      msg := msg + inp;
    }

    /** The loop of lines 216-220, and the rest into the buffer. */
    method TakeBlocks(inp: seq<byte>)
      requires Taken() && r == 0
      modifies this`state, this`r, this`msg, buf
      ensures Taken() && msg == old(msg) + inp
    {
      var data := inp;
      ghost var done: seq<byte> := [];
      assert msg + done == msg && done + data == inp;
      while |data| >= 64
        invariant Taken() && r == 0
        invariant inp == done + data && msg == old(msg) + done
        decreases |data|
      {
        TakeOne(data[..64]);
        NextSlice(inp, old(msg), done, data);
        done := done + data[..64];
        data := data[64..];
      }
      LastSlice(inp, old(msg), done, data);
      Append(data, 0);
    }

    method TakeOne(inp: seq<byte>)
      requires Taken() && r == 0 && |inp| == 64
      modifies this`state, this`msg
      ensures Taken() && msg == old(msg) + inp
    {
      assert buf[..r] == [];
      TakeMany(BlockFunction(A), iv, msg, state, inp, 1);
      OneCompress(A, state, inp);
      state := Transform(A, F, state, inp);
      msg := msg + inp;
    }

    /** crypto_hash_sha256_final with SHA256_Pad */
    method Final() returns (out: Regs<W>)
      requires Valid()
      modifies this`state, buf
      ensures out == Digest(A, iv, msg)
    {
      RestOf(count, |msg|, wraps, r);
      BitsOf(|msg|, count, wraps);
      var rest := count / 8 % 64;
      if rest < 56 {
        PadOne(rest);
      } else {
        PadTwo(rest);
      }
      out := state;
    }

    method PadOne(rest: nat)
      requires Taken() && rest == r < 56 && count == BitLength(|msg|)
      modifies this`state, buf
      ensures state == Digest(A, iv, msg)
    {
      ghost var tail, len := buf[..rest], Be64(count);
      Copy(rest, [0x80] + Zeros(55 - rest));
      StoreLength(count);
      assert buf[..] == tail + [0x80] + Zeros(55 - |tail|) + len;
      PaddedOne(BlockFunction(A), iv, msg, state, tail, len);
      state := Transform(A, F, state, buf[..]);
    }

    method PadTwo(rest: nat)
      requires Taken() && rest == r >= 56 && count == BitLength(|msg|)
      modifies this`state, buf
      ensures state == Digest(A, iv, msg)
    {
      ghost var first, second := TwoBlocks(A, iv, msg, state, buf[..rest], count);
      FillLast(rest, first);
      LengthBlock(second);
    }

    method FillLast(rest: nat, ghost first: Block)
      requires Lawful(A) && Agree(A, F) && buf.Length == 64 && 56 <= rest < 64
      requires first == buf[..rest] + [0x80] + Zeros(63 - rest)
      modifies this`state, buf
      ensures state == Compress(A, old(state), first)
    {
      Copy(rest, [0x80] + Zeros(63 - rest));
      assert buf[..] == first;
      state := Transform(A, F, state, buf[..]);
    }

    /** The second block: zeros and the length. */
    method LengthBlock(ghost second: Block)
      requires Lawful(A) && Agree(A, F) && buf.Length == 64 && second == Zeros(56) + Be64(count)
      modifies this`state, buf
      ensures state == Compress(A, old(state), second)
    {
      Copy(0, Zeros(56));
      StoreLength(count);
      assert buf[..] == second;
      state := Transform(A, F, state, buf[..]);
    }

    /** STORE64_BE at byte 56. */
    method StoreLength(bits: nat)
      requires buf.Length == 64
      modifies buf
      ensures buf[..] == old(buf[..56]) + Be64(bits)
    {
      Copy(56, Be64(bits));
    }
  }

  lemma BitsOf(n: nat, count: nat, wraps: nat)
    requires 8 * n == count + TWO_64 * wraps && count < TWO_64
    ensures count == BitLength(n)
  {
  }

  lemma TwoBlocks<W>(A: Arith<W>, iv: Regs<W>, m: seq<byte>, st: Regs<W>, tail: seq<byte>, bits: nat)
      returns (first: Block, second: Block)
    requires |A.k| == 64 && Holds(BlockFunction(A), iv, m, st, tail) && |tail| >= 56 && bits == BitLength(|m|)
    ensures first == tail + [0x80] + Zeros(63 - |tail|) && second == Zeros(56) + Be64(bits)
    ensures Compress(A, Compress(A, st, first), second) == Digest(A, iv, m)
  {
    first, second := tail + [0x80] + Zeros(63 - |tail|), Zeros(56) + Be64(bits);
    PaddedTwo(BlockFunction(A), iv, m, st, tail, Be64(bits));
  }

  lemma NextSlice(inp: seq<byte>, m: seq<byte>, done: seq<byte>, data: seq<byte>)
    requires inp == done + data && |data| >= 64
    ensures inp == (done + data[..64]) + data[64..] && m + done + data[..64] == m + (done + data[..64])
  {
  }

  lemma LastSlice(inp: seq<byte>, m: seq<byte>, done: seq<byte>, data: seq<byte>)
    requires inp == done + data
    ensures m + done + data == m + inp
  {
  }
}
