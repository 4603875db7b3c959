/** Buffering and padding of external/ripemd160/ripemd160.c:271-332; the block function is a parameter. */
module Ripemd160 {
  import opened ByteStrings
  import opened Hashing
  import opened WordBits

  /** The message with its padding; the length is kept in 64 bits, little-endian. */
  function Padded(m: seq<byte>): (p: seq<byte>)
    ensures |p| % 64 == 0
  {
    m + Padding(|m|, Le64(BitLength(|m|)))
  }

  /** No two messages of fewer than 2^61 bytes are padded alike. */
  lemma {:induction false} PaddedInjective(m: seq<byte>, m': seq<byte>)
    requires |m| < 0x2000_0000_0000_0000 && |m'| < 0x2000_0000_0000_0000 && Padded(m) == Padded(m')
    ensures m == m'
  {
    var x, y := BitLength(|m|), BitLength(|m'|);
    PaddedAlike(m, m', Le64(x), Le64(y));
    LengthSpelled(x);
    LengthSpelled(y);
  }

  lemma RestOf(bytes: nat, n: nat, wraps: nat, r: nat)
    requires n == bytes + TWO_64 * wraps && r < 64 && r <= n && (n - r) % 64 == 0
    ensures bytes % 64 == r == n % 64
  {
  }

  lemma BitsOf(n: nat, bytes: nat, wraps: nat)
    requires n == bytes + TWO_64 * wraps
    ensures 8 * bytes % TWO_64 == BitLength(n)
  {
  }

  class Ctx<S> {
    const f: (S, Block) -> S
    const iv: S
    var bytes: nat
    const buf: array<byte>
    var s: S
    ghost var r: nat        // how many bytes of the buffer count
    ghost var msg: seq<byte>
    ghost var wraps: nat    // how often the counter has wrapped around

    ghost predicate Valid()
      reads this, buf
    {
      && buf.Length == 64 && r < 64
      && Holds(f, iv, msg, s, buf[..r])
      && bytes < TWO_64 && |msg| == bytes + TWO_64 * wraps
    }

    /** ripemd160_init; the buffer holds whatever was in memory. */
    constructor (f: (S, Block) -> S, iv: S, b0: byte)
      ensures Valid() && msg == [] && fresh(buf) && this.f == f && this.iv == iv
    {
      this.f := f;
      this.iv := iv;
      s := iv;
      bytes, wraps := 0, 0;
      buf := new byte[64](_ => b0);
      r := 0;
      msg := [];
      new;
      HoldsNothing(f, iv);
    }

    method Count(len: nat)
      requires |msg| == bytes + TWO_64 * wraps
      modifies this`bytes, this`wraps
      ensures bytes < TWO_64 && |msg| + len == bytes + TWO_64 * wraps
    {
      var n := bytes + len;
      wraps := wraps + n / TWO_64;
      bytes := n % TWO_64;
    }

    method Copy(o: nat, inp: seq<byte>)
      requires buf.Length == 64 && o + |inp| <= 64
      modifies buf
      ensures buf[..o + |inp|] == old(buf[..o]) + inp
    {
      forall i | 0 <= i < |inp| {
        buf[o + i] := inp[i];
      }
    }

    /** add */
    method Add(p: seq<byte>)
      requires Valid()
      modifies this, buf
      ensures Valid() && msg == old(msg) + p
    {
      RestOf(bytes, |msg|, wraps, r);
      var bufsize := bytes % 64;
      if bufsize + |p| >= 64 {
        Rejoin(msg, p, 64 - bufsize);
        Fill(bufsize, p[..64 - bufsize]);
        Chunks(p[64 - bufsize..]);
      } else if |p| != 0 {
        Append(bufsize, p);
      } else {
        assert msg == msg + p;
      }
    }

    /** Fills the buffer, and processes it. */
    method Fill(bufsize: nat, p: seq<byte>)
      requires Valid() && bufsize == r && r + |p| == 64
      modifies this, buf
      ensures Valid() && r == 0 && msg == old(msg) + p
    {
      ghost var tail := buf[..bufsize];
      Copy(bufsize, p);
      assert buf[..] == tail + p;
      TakeWhole(f, iv, msg, s, tail, p);
      OneBlock(f, s, buf[..]);
      Count(|p|);
      s := f(s, buf[..]);
      r := 0;
      msg := msg + p;
    }

    /** Full chunks directly from the source, and the rest into the buffer. */
    method Chunks(p: seq<byte>)
      requires Valid() && r == 0
      modifies this, buf
      ensures Valid() && msg == old(msg) + p
    {
      var data := p;
      ghost var m := msg;
      assert m + data == m + p;
      while |data| >= 64
        invariant Valid() && r == 0
        invariant msg + data == m + p
        decreases |data|
      {
        Rejoin(msg, data, 64);
        Chunk(data[..64]);
        data := data[64..];
      }
      if |data| != 0 {
        Append(0, data);
      } else {
        assert msg == msg + data;
      }
    }

    method Chunk(p: seq<byte>)
      requires Valid() && r == 0 && |p| == 64
      modifies this
      ensures Valid() && r == 0 && msg == old(msg) + p
    {
      assert buf[..r] == [];
      TakeMany(f, iv, msg, s, p, 1);
      OneBlock(f, s, p);
      s := f(s, p);
      Count(64);
      msg := msg + p;
    }

    method Append(bufsize: nat, p: seq<byte>)
      requires Valid() && bufsize == r && r + |p| < 64
      modifies this, buf
      ensures Valid() && msg == old(msg) + p
    {
      ghost var tail := buf[..bufsize];
      Copy(bufsize, p);
      TakeShort(f, iv, msg, s, tail, p);
      Count(|p|);
      r := r + |p|;
      msg := msg + p;
    }

    /** ripemd160_done, before the five words are written out: the padding and the length go through add as well. */
    method Done() returns (res: S)
      requires Valid()
      modifies this, buf
      ensures res == Blocks(f, iv, Padded(old(msg)))
    {
      ghost var m := msg;
      BitsOf(|msg|, bytes, wraps);
      RestOf(bytes, |msg|, wraps, r);
      var sizedesc := Le64(8 * bytes % TWO_64);
      var pad := [0x80] + Zeros(63);
      var n := 1 + (119 - bytes % 64) % 64;
      PadPrefix(n);
      Add(pad[..n]);
      Add(sizedesc);
      assert msg == Padded(m);
      NoTail(f, iv, msg, s, buf[..r]);
      res := s;
    }
  }

  lemma PadPrefix(n: nat)
    requires 1 <= n <= 64
    ensures ([0x80] + Zeros(63))[..n] == [0x80] + Zeros(n - 1)
  {
  }

  lemma NoTail<S>(f: (S, Block) -> S, iv: S, m: seq<byte>, st: S, tail: seq<byte>)
    requires Holds(f, iv, m, st, tail) && |m| % 64 == 0
    ensures st == Blocks(f, iv, m)
  {
    TailLength(|m|, |tail|);
    assert m[..|m| - |tail|] == m;
  }

  /** The words of the result, the least significant byte of each first. */
  function LeWords(s: seq<Word>): (d: seq<byte>)
    ensures |d| == 4 * |s|
  {
    if s == [] then []
    else LeWords(s[..|s| - 1]) + LeBytesOf(s[|s| - 1])
  }

  /** Every word stands in its place. */
  lemma {:induction false} LeWordsAt(s: seq<Word>, i: nat)
    requires i < |s|
    ensures LeWords(s)[4 * i..4 * i + 4] == LeBytesOf(s[i])
  {
    var n := |s| - 1;
    if i < n {
      LeWordsAt(s[..n], i);
      assert LeWords(s)[4 * i..4 * i + 4] == LeWords(s[..n])[4 * i..4 * i + 4];
    }
  }

  function LeBytesOf(x: Word): (d: seq<byte>)
    ensures |d| == 4 && x == d[0] as int + 0x100 * d[1] as int + 0x10000 * d[2] as int + 0x1000000 * d[3] as int
  {
    FourBytes(x);
    [x % 256, x / 0x100 % 256, x / 0x10000 % 256, x / 0x1000000]
  }

  lemma FourBytes(x: Word)
    ensures x / 0x1000000 < 256
    ensures x == x % 256 + 0x100 * (x / 0x100 % 256) + 0x10000 * (x / 0x10000 % 256) + 0x1000000 * (x / 0x1000000)
  {
    var y := x / 0x100;
    var z := y / 0x100;
    assert z == x / 0x10000 && z / 0x100 == x / 0x1000000;
  }

  /** ripemd160 with any split into updates, over any block function on words. */
  method Hash(f: (seq<Word>, Block) -> seq<Word>, iv: seq<Word>, chunks: seq<seq<byte>>) returns (md: seq<byte>)
    ensures md == LeWords(Blocks(f, iv, Padded(Joined(chunks))))
  {
    var ctx := new Ctx(f, iv, 0);
    for i := 0 to |chunks|
      invariant ctx.Valid() && fresh(ctx) && fresh(ctx.buf) && ctx.f == f && ctx.iv == iv
      invariant ctx.msg == Joined(chunks[..i])
    {
      ctx.Add(chunks[i]);
      assert chunks[..i + 1][..i] == chunks[..i];
    }
    assert chunks[..|chunks|] == chunks;
    var s := ctx.Done();
    md := LeWords(s);
  }
}
