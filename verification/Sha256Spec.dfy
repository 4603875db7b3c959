/**
 * The SHA-256 block function as section 6.2.2 of FIPS 180-4 states it, over words with an addition
 * that is associative and commutative.
 */
module Sha256Spec {
  import opened ByteStrings
  import opened Hashing

  datatype Arith<!W> = Arith(
    add: (W, W) -> W,
    sum0: W -> W,             // Sigma0
    sum1: W -> W,             // Sigma1
    mix0: W -> W,             // sigma0
    mix1: W -> W,             // sigma1
    ch: (W, W, W) -> W,
    maj: (W, W, W) -> W,
    word: (byte, byte, byte, byte) -> W,
    k: seq<W>)

  /** Names the words at which the laws below are used. */
  ghost predicate At<W>(x: W, y: W, z: W) {
    true
  }

  ghost predicate Lawful<W(!new)>(A: Arith<W>) {
    && |A.k| == 64
    && forall x: W, y: W, z: W {:trigger At(x, y, z)} ::
      A.add(A.add(x, y), z) == A.add(x, A.add(y, z)) && A.add(x, y) == A.add(y, x)
  }

  lemma Laws<W(!new)>(A: Arith<W>, x: W, y: W, z: W)
    requires Lawful(A)
    ensures A.add(A.add(x, y), z) == A.add(x, A.add(y, z)) && A.add(x, y) == A.add(y, x)
  {
    assert At(x, y, z);
  }

  datatype Regs<W> = Regs(a: W, b: W, c: W, d: W, e: W, f: W, g: W, h: W)

  function Plus<W>(A: Arith<W>, x: Regs<W>, y: Regs<W>): Regs<W> {
    Regs(A.add(x.a, y.a), A.add(x.b, y.b), A.add(x.c, y.c), A.add(x.d, y.d),
         A.add(x.e, y.e), A.add(x.f, y.f), A.add(x.g, y.g), A.add(x.h, y.h))
  }

  /** A big-endian word at o. */
  function WordAt<W>(A: Arith<W>, d: seq<byte>, o: nat): W
    requires o + 4 <= |d|
  {
    A.word(d[o], d[o + 1], d[o + 2], d[o + 3])
  }

  /** The message schedule. */
  ghost function Schedule<W>(A: Arith<W>, d: Block, t: nat): W {
    if t < 16 then WordAt(A, d, 4 * t)
    else
      A.add(A.add(A.add(A.mix1(Schedule(A, d, t - 2)), Schedule(A, d, t - 7)), A.mix0(Schedule(A, d, t - 15))),
        Schedule(A, d, t - 16))
  }

  function Round<W>(A: Arith<W>, r: Regs<W>, w: W, k: W): Regs<W> {
    var t1 := A.add(A.add(A.add(A.add(r.h, A.sum1(r.e)), A.ch(r.e, r.f, r.g)), k), w);
    var t2 := A.add(A.sum0(r.a), A.maj(r.a, r.b, r.c));
    Regs(A.add(t1, t2), r.a, r.b, r.c, A.add(r.d, t1), r.e, r.f, r.g)
  }

  ghost function Rounds<W>(A: Arith<W>, r: Regs<W>, d: Block, t: nat): Regs<W>
    requires t <= |A.k|
  {
    if t == 0 then r else Round(A, Rounds(A, r, d, t - 1), Schedule(A, d, t - 1), A.k[t - 1])
  }

  /** The two values that round t adds, as terms of two sequences; the other registers are earlier terms. */
  ghost function NewA<W>(A: Arith<W>, r: Regs<W>, d: Block, t: nat): W
    requires t <= |A.k| + 3
    decreases t, 1
  {
    if t == 0 then r.d else if t == 1 then r.c else if t == 2 then r.b else if t == 3 then r.a
    else
      A.add(Mixed(A, r, d, t - 4),
        A.add(A.sum0(NewA(A, r, d, t - 1)), A.maj(NewA(A, r, d, t - 1), NewA(A, r, d, t - 2), NewA(A, r, d, t - 3))))
  }

  ghost function NewE<W>(A: Arith<W>, r: Regs<W>, d: Block, t: nat): W
    requires t <= |A.k| + 3
    decreases t, 1
  {
    if t == 0 then r.h else if t == 1 then r.g else if t == 2 then r.f else if t == 3 then r.e
    else A.add(NewA(A, r, d, t - 4), Mixed(A, r, d, t - 4))
  }

  /** What round t mixes in from the second sequence, the message and the constants. */
  ghost function Mixed<W>(A: Arith<W>, r: Regs<W>, d: Block, t: nat): W
    requires t < |A.k|
    decreases t + 4, 0
  {
    A.add(
      A.add(
        A.add(A.add(NewE(A, r, d, t), A.sum1(NewE(A, r, d, t + 3))),
          A.ch(NewE(A, r, d, t + 3), NewE(A, r, d, t + 2), NewE(A, r, d, t + 1))),
        A.k[t]),
      Schedule(A, d, t))
  }

  /** The rounds are two recurrences of order four: the eight registers are the last four terms of each. */
  lemma {:induction false} RoundsRecur<W>(A: Arith<W>, r: Regs<W>, d: Block, t: nat)
    requires t <= |A.k|
    ensures Rounds(A, r, d, t) == Regs(
      NewA(A, r, d, t + 3), NewA(A, r, d, t + 2), NewA(A, r, d, t + 1), NewA(A, r, d, t),
      NewE(A, r, d, t + 3), NewE(A, r, d, t + 2), NewE(A, r, d, t + 1), NewE(A, r, d, t))
  {
    if t > 0 {
      RoundsRecur(A, r, d, t - 1);
    }
  }

  ghost function Compress<W>(A: Arith<W>, r: Regs<W>, d: Block): Regs<W>
    requires |A.k| == 64
  {
    Plus(A, r, Rounds(A, r, d, 64))
  }

  /** The block function with its arithmetic fixed. */
  ghost function BlockFunction<W>(A: Arith<W>): (Regs<W>, Block) -> Regs<W>
    requires |A.k| == 64
  {
    (r: Regs<W>, d: Block) => Compress(A, r, d)
  }

  lemma OneCompress<W>(A: Arith<W>, r: Regs<W>, d: seq<byte>)
    requires |A.k| == 64 && |d| == 64
    ensures Blocks(BlockFunction(A), r, d) == BlockFunction(A)(r, d)
  {
    Hashing.OneBlock(BlockFunction(A), r, d);
  }

  /** The message with its padding, section 5.1.1 of FIPS 180-4; the length is kept in 64 bits. */
  function Padded(m: seq<byte>): (p: seq<byte>)
    ensures |p| % 64 == 0
  {
    m + Padding(|m|, Be64(BitLength(|m|)))
  }

  /** No two messages of fewer than 2^61 bytes are padded alike. */
  lemma {:induction false} PaddedInjective(m: seq<byte>, m': seq<byte>)
    requires |m| < 0x2000_0000_0000_0000 && |m'| < 0x2000_0000_0000_0000 && Padded(m) == Padded(m')
    ensures m == m'
  {
    var x, y := BitLength(|m|), BitLength(|m'|);
    PaddedAlike(m, m', Be64(x), Be64(y));
    LengthSpelled(x);
    LengthSpelled(y);
  }

  /** The final state for a message. */
  ghost function Digest<W>(A: Arith<W>, iv: Regs<W>, m: seq<byte>): Regs<W>
    requires |A.k| == 64
  {
    Blocks(BlockFunction(A), iv, Padded(m))
  }
}
