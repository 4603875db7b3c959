/** Messages padded to whole blocks and folded through a block function: what the three hashes compute. */
module Hashing {
  import opened ByteStrings
  import opened Limbs
  import opened LittleEndian

  type Block = d: seq<byte> | |d| == 64 witness seq(64, _ => 0)

  /** Folds whole blocks into a state. */
  ghost function Blocks<S>(f: (S, Block) -> S, st: S, m: seq<byte>): S
    requires |m| % 64 == 0
    decreases |m|
  {
    if |m| < 64 then st else Blocks(f, f(st, m[..64]), m[64..])
  }

  lemma BlocksStep<S>(f: (S, Block) -> S, st: S, m: seq<byte>)
    requires |m| % 64 == 0 && |m| >= 64
    ensures |m[64..]| % 64 == 0 && Blocks(f, st, m) == Blocks(f, f(st, m[..64]), m[64..])
  {
  }

  lemma {:induction false} BlocksConcat<S>(f: (S, Block) -> S, st: S, a: seq<byte>, b: seq<byte>)
    requires |a| % 64 == 0 && |b| % 64 == 0
    ensures |a + b| % 64 == 0 && Blocks(f, st, a + b) == Blocks(f, Blocks(f, st, a), b)
    decreases |a|
  {
    if |a| < 64 {
      assert a + b == b;
    } else {
      assert (a + b)[..64] == a[..64] && (a + b)[64..] == a[64..] + b;
      BlocksConcat(f, f(st, a[..64]), a[64..], b);
    }
  }

  lemma {:induction false} OneBlock<S>(f: (S, Block) -> S, st: S, b: seq<byte>)
    requires |b| == 64
    ensures Blocks(f, st, b) == f(st, b)
  {
    assert b[..64] == b;
  }

  /** st has taken all of m but its tail, which is shorter than a block. */
  ghost predicate Holds<S>(f: (S, Block) -> S, iv: S, m: seq<byte>, st: S, tail: seq<byte>) {
    && |tail| < 64 && |tail| <= |m| && (|m| - |tail|) % 64 == 0
    && m[|m| - |tail|..] == tail
    && st == Blocks(f, iv, m[..|m| - |tail|])
  }

  lemma HoldsNothing<S>(f: (S, Block) -> S, iv: S)
    ensures Holds(f, iv, [], iv, [])
  {
  }

  lemma TakeShort<S>(f: (S, Block) -> S, iv: S, m: seq<byte>, st: S, tail: seq<byte>, x: seq<byte>)
    requires Holds(f, iv, m, st, tail) && |tail| + |x| < 64
    ensures Holds(f, iv, m + x, st, tail + x)
  {
    assert (m + x)[..|m| - |tail|] == m[..|m| - |tail|];
    assert (m + x)[|m| - |tail|..] == m[|m| - |tail|..] + x;
  }

  lemma {:induction false} TakeWhole<S>(f: (S, Block) -> S, iv: S, m: seq<byte>, st: S, tail: seq<byte>, x: seq<byte>)
    requires Holds(f, iv, m, st, tail) && (|tail| + |x|) % 64 == 0
    ensures Holds(f, iv, m + x, Blocks(f, st, tail + x), [])
  {
    var body := m[..|m| - |tail|];
    assert m + x == body + (tail + x);
    BlocksConcat(f, iv, body, tail + x);
    assert (m + x)[..|m + x|] == m + x;
  }

  lemma Rejoin(m: seq<byte>, x: seq<byte>, k: nat)
    requires k <= |x|
    ensures m + x[..k] + x[k..] == m + x
  {
  }

  lemma TakeMany<S>(f: (S, Block) -> S, iv: S, m: seq<byte>, st: S, x: seq<byte>, n: nat)
    requires Holds(f, iv, m, st, []) && |x| == 64 * n
    ensures |x| % 64 == 0 && Holds(f, iv, m + x, Blocks(f, st, x), [])
  {
    assert |x| % 64 == 0;
    assert [] + x == x;
    TakeWhole(f, iv, m, st, [], x);
  }

  // ---- padding ----

  function Zeros(n: nat): (z: seq<byte>)
    ensures |z| == n && forall i :: 0 <= i < n ==> z[i] == 0
  {
    seq(n, _ => 0)
  }

  /** A one bit, zeros up to eight bytes before the end of a block, and the length. */
  function Padding(n: nat, length: seq<byte>): (p: seq<byte>)
    requires |length| == 8
    ensures (n + |p|) % 64 == 0
  {
    [0x80] + Zeros((119 - n % 64) % 64) + length
  }

  /** The tail, the one bit and the length fit in one block, or need two. */
  lemma {:induction false} PaddedOne<S>(
      f: (S, Block) -> S, iv: S, m: seq<byte>, st: S, tail: seq<byte>, length: seq<byte>)
    requires Holds(f, iv, m, st, tail) && |tail| < 56 && |length| == 8
    ensures |tail + [0x80] + Zeros(55 - |tail|) + length| == 64
    ensures Blocks(f, iv, m + Padding(|m|, length)) == f(st, tail + [0x80] + Zeros(55 - |tail|) + length)
  {
    TailLength(|m|, |tail|);
    var p := Padding(|m|, length);
    TakeWhole(f, iv, m, st, tail, p);
    assert tail + p == tail + [0x80] + Zeros(55 - |tail|) + length;
    OneBlock(f, st, tail + p);
    assert (m + p)[..|m + p|] == m + p;
  }

  lemma {:induction false} PaddedTwo<S>(
      f: (S, Block) -> S, iv: S, m: seq<byte>, st: S, tail: seq<byte>, length: seq<byte>)
    requires Holds(f, iv, m, st, tail) && |tail| >= 56 && |length| == 8
    ensures |tail + [0x80] + Zeros(63 - |tail|)| == 64 == |Zeros(56) + length|
    ensures Blocks(f, iv, m + Padding(|m|, length)) == f(f(st, tail + [0x80] + Zeros(63 - |tail|)), Zeros(56) + length)
  {
    TailLength(|m|, |tail|);
    var p := Padding(|m|, length);
    TakeWhole(f, iv, m, st, tail, p);
    var b, c := tail + [0x80] + Zeros(63 - |tail|), Zeros(56) + length;
    assert tail + p == b + c;
    BlocksConcat(f, st, b, c);
    OneBlock(f, st, b);
    OneBlock(f, f(st, b), c);
    assert (m + p)[..|m + p|] == m + p;
  }

  lemma TailLength(n: nat, t: nat)
    requires t < 64 && t <= n && (n - t) % 64 == 0
    ensures n % 64 == t
  {
  }

  // ---- lengths ----

  const TWO_64: nat := 0x1_0000_0000_0000_0000

  /** The length in bits as a 64-bit counter holds it. */
  function BitLength(n: nat): (bits: nat)
    ensures bits < TWO_64
    ensures n < 0x2000_0000_0000_0000 ==> bits == 8 * n
  {
    8 * n % TWO_64
  }

  /** The integer a byte string spells, most significant byte first. */
  ghost function BeVal(d: seq<byte>): nat {
    if d == [] then 0 else 256 * BeVal(d[..|d| - 1]) + d[|d| - 1] as int
  }

  /** n bytes of x, most significant first. */
  function BeBytes(x: nat, n: nat): (d: seq<byte>)
    ensures |d| == n
  {
    if n == 0 then [] else BeBytes(x / 256, n - 1) + [x % 256]
  }

  lemma {:induction false} BeBytesVal(x: nat, n: nat)
    requires x < Pow(256, n)
    ensures BeVal(BeBytes(x, n)) == x
  {
    if n > 0 {
      BeBytesVal(x / 256, n - 1);
      assert BeBytes(x, n)[..n - 1] == BeBytes(x / 256, n - 1);
    }
  }

  const LENGTH_BYTES: nat := 8

  function Be64(x: nat): (d: seq<byte>)
    ensures |d| == 8
  {
    BeBytes(x, LENGTH_BYTES)
  }

  function Le64(x: nat): (d: seq<byte>)
    ensures |d| == 8
  {
    LeBytes(x, LENGTH_BYTES)
  }

  lemma {:induction false} EightBytes()
    ensures Pow(256, LENGTH_BYTES) == TWO_64
  {
    assert Pow(256, 1) == 256;
    PowAdds(256, 1, 1);
    PowAdds(256, 2, 2);
    PowAdds(256, 4, 4);
  }

  /** Both spell a 64-bit number, from either end. */
  lemma {:induction false} LengthSpelled(x: nat)
    requires x < TWO_64
    ensures BeVal(Be64(x)) == x && LeVal(Le64(x)) == x
  {
    EightBytes();
    BeBytesVal(x, LENGTH_BYTES);
    LeBytesVal(x, LENGTH_BYTES);
  }

  /** A bit, zeros and the length, and no fewer than that fill the block. */
  lemma PaddingShape(n: nat, length: seq<byte>, k: nat)
    requires |length| == 8
    ensures var p := Padding(n, length);
      && 9 <= |p| && p[0] == 0x80 && (forall i :: 1 <= i < |p| - 8 ==> p[i] == 0) && p[|p| - 8..] == length
      && (k >= 9 && (n + k) % 64 == 0 ==> |p| <= k)
  {
  }

  /** Messages that are padded alike have the same length bytes, and are the same if they have the same length. */
  lemma {:induction false} PaddedAlike(m: seq<byte>, m': seq<byte>, l: seq<byte>, l': seq<byte>)
    requires |l| == |l'| == 8 && m + Padding(|m|, l) == m' + Padding(|m'|, l')
    ensures l == l' && (|m| == |m'| ==> m == m')
  {
    var p, p' := Padding(|m|, l), Padding(|m'|, l');
    PaddingShape(|m|, l, 0);
    PaddingShape(|m'|, l', 0);
    assert (m + p)[|m + p| - 8..] == l && (m' + p')[|m' + p'| - 8..] == l';
    if |m| == |m'| {
      assert (m + p)[..|m|] == m && (m' + p')[..|m'|] == m';
    }
  }

  /** The chunks of a message in order. */
  ghost function Joined(chunks: seq<seq<byte>>): seq<byte> {
    if chunks == [] then [] else Joined(chunks[..|chunks| - 1]) + chunks[|chunks| - 1]
  }
}
