/** SHA-256 with a rolling schedule of 16 words (external/blst/no_asm.h:1089-1171, external/blst/sha256.h). */
module Sha256Blst {
  import opened ByteStrings
  import opened Hashing
  import opened Sha256Spec

  /** The last 16 words of the schedule before word t, each at its number modulo 16. */
  ghost predicate Rolling<W>(A: Arith<W>, X: seq<W>, d: Block, t: nat) {
    |X| == 16 && forall j :: 0 <= j < t && t - 16 <= j ==> X[j % 16] == Schedule(A, d, j)
  }

  /** The eight variables after one round. */
  method TakeRound<W(!new)>(A: Arith<W>, r: Regs<W>, w: W, k: W) returns (r': Regs<W>)
    requires Lawful(A)
    ensures r' == Round(A, r, w, k)
  {
    var Regs(a, b, c, d, e, f, g, h) := r;
    var t1 := w;
    var x := A.add(A.add(A.add(h, A.sum1(e)), A.ch(e, f, g)), k);
    t1 := A.add(t1, x);
    Laws(A, w, x, w);
    var t2 := A.add(A.sum0(a), A.maj(a, b, c));
    h := g;
    g := f;
    f := e;
    e := A.add(d, t1);
    d := c;
    c := b;
    b := a;
    a := A.add(t1, t2);
    r' := Regs(a, b, c, d, e, f, g, h);
  }

  lemma RollingSet<W>(A: Arith<W>, X: seq<W>, d: Block, t: nat, w: W)
    requires Rolling(A, X, d, t) && w == Schedule(A, d, t)
    ensures Rolling(A, X[t % 16 := w], d, t + 1)
  {
    forall j | 0 <= j < t + 1 && t + 1 - 16 <= j
      ensures X[t % 16 := w][j % 16] == Schedule(A, d, j)
    {
      if j < t {
        Apart(j, t);
      }
    }
  }

  lemma Apart(j: nat, t: nat)
    requires t - 15 <= j < t
    ensures j % 16 != t % 16
  {
  }

  lemma Around(t: nat)
    requires t >= 16
    ensures (t - 16) % 16 == t % 16 && (t - 15) % 16 == (t + 1) % 16
    ensures (t - 2) % 16 == (t + 14) % 16 && (t - 7) % 16 == (t + 9) % 16
  {
  }

  /** The word that replaces the one sixteen rounds back. */
  lemma NextWord<W(!new)>(A: Arith<W>, X: seq<W>, d: Block, t: nat)
    requires t >= 16 && Rolling(A, X, d, t) && Lawful(A)
    ensures A.add(X[t % 16], A.add(A.add(A.mix0(X[(t + 1) % 16]), A.mix1(X[(t + 14) % 16])), X[(t + 9) % 16]))
        == Schedule(A, d, t)
  {
    Around(t);
    var x, m0, m1, y := Schedule(A, d, t - 16), A.mix0(Schedule(A, d, t - 15)), A.mix1(Schedule(A, d, t - 2)),
      Schedule(A, d, t - 7);
    Rearranged(A, x, m0, m1, y);
  }

  lemma Rearranged<W(!new)>(A: Arith<W>, x: W, m0: W, m1: W, y: W)
    requires Lawful(A)
    ensures A.add(x, A.add(A.add(m0, m1), y)) == A.add(A.add(A.add(m1, y), m0), x)
  {
    Laws(A, m0, m1, y);
    Laws(A, m0, A.add(m1, y), x);
    Laws(A, x, A.add(m0, A.add(m1, y)), x);
  }

  /** Rounds 0 to 15 take their words from the block. */
  method FirstRounds<W(!new)>(A: Arith<W>, r0: Regs<W>, d: Block, X: array<W>) returns (r: Regs<W>)
    requires Lawful(A) && X.Length == 16
    modifies X
    ensures r == Rounds(A, r0, d, 16) && Rolling(A, X[..], d, 16)
  {
    r := r0;
    for t := 0 to 16
      invariant r == Rounds(A, r0, d, t)
      invariant Rolling(A, X[..], d, t)
    {
      var l := WordAt(A, d, 4 * t);
      SetWord(A, X, d, t, l);
      r := TakeRound(A, r, l, A.k[t]);
    }
  }

  method SetWord<W>(A: Arith<W>, X: array<W>, d: Block, t: nat, w: W)
    requires X.Length == 16 && Rolling(A, X[..], d, t) && w == Schedule(A, d, t)
    modifies X
    ensures Rolling(A, X[..], d, t + 1)
  {
    RollingSet(A, X[..], d, t, w);
    ghost var X' := X[..][t % 16 := w];
    X[t % 16] := w;
    assert X[..] == X';
  }

  /** Rounds 16 to 63 make theirs from the last sixteen. */
  method LaterRounds<W(!new)>(A: Arith<W>, r0: Regs<W>, d: Block, X: array<W>, r16: Regs<W>) returns (r: Regs<W>)
    requires Lawful(A) && X.Length == 16 && r16 == Rounds(A, r0, d, 16) && Rolling(A, X[..], d, 16)
    modifies X
    ensures r == Rounds(A, r0, d, 64)
  {
    r := r16;
    for t := 16 to 64
      invariant r == Rounds(A, r0, d, t)
      invariant Rolling(A, X[..], d, t)
    {
      var w := MakeWord(A, X, d, t);
      SetWord(A, X, d, t, w);
      r := TakeRound(A, r, w, A.k[t]);
    }
  }

  method MakeWord<W(!new)>(A: Arith<W>, X: array<W>, d: Block, t: nat) returns (w: W)
    requires Lawful(A) && X.Length == 16 && t >= 16 && Rolling(A, X[..], d, t)
    ensures w == Schedule(A, d, t)
  {
    var s0 := A.mix0(X[(t + 1) % 16]);
    var s1 := A.mix1(X[(t + 14) % 16]);
    w := A.add(X[t % 16], A.add(A.add(s0, s1), X[(t + 9) % 16]));
    NextWord(A, X[..], d, t);
  }

  lemma PlusComm<W(!new)>(A: Arith<W>, x: Regs<W>, y: Regs<W>)
    requires Lawful(A)
    ensures Plus(A, x, y) == Plus(A, y, x)
  {
    Laws(A, x.a, y.a, x.a);
    Laws(A, x.b, y.b, x.b);
    Laws(A, x.c, y.c, x.c);
    Laws(A, x.d, y.d, x.d);
    Laws(A, x.e, y.e, x.e);
    Laws(A, x.f, y.f, x.f);
    Laws(A, x.g, y.g, x.g);
    Laws(A, x.h, y.h, x.h);
  }

  /** One pass of the loop over blocks: the eight variables stay loaded for the next. */
  method OneBlock<W(!new)>(A: Arith<W>, v: Regs<W>, d: Block) returns (v': Regs<W>)
    requires Lawful(A)
    ensures v' == Compress(A, v, d)
  {
    var w0 := WordAt(A, d, 0);
    var X := new W[16](_ => w0);
    var r := FirstRounds(A, v, d, X);
    r := LaterRounds(A, v, d, X, r);
    v' := Plus(A, r, v);
    PlusComm(A, r, v);
  }

  /** blst_sha256_block_data_order */
  method BlockDataOrder<W(!new)>(A: Arith<W>, v0: Regs<W>, inp: seq<byte>, blocks: nat) returns (v: Regs<W>)
    requires Lawful(A) && |inp| == 64 * blocks
    ensures v == Blocks(BlockFunction(A), v0, inp)
  {
    v := v0;
    var data := inp;
    ghost var all := Blocks(BlockFunction(A), v0, inp);
    for i := 0 to blocks
      invariant |data| == 64 * (blocks - i) && |data| % 64 == 0
      invariant Blocks(BlockFunction(A), v, data) == all
    {
      ghost var u := v;
      v := OneBlock(A, v, data[..64]);
      assert v == BlockFunction(A)(u, data[..64]);
      BlocksStep(BlockFunction(A), u, data);
      data := data[64..];
    }
  }
}
