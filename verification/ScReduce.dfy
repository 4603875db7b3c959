/** Reduction modulo the group order, in place (external/ref10/sc_reduce.c:35-275). */
module ScReduce {
  import opened ByteStrings
  import opened LittleEndian
  import opened Limbs
  import opened ScLimbs
  import opened ScBytes

  /** Lines 79-125: limbs 23 to 18 go down twelve places. */
  method FoldHigh(s: array<int>) returns (ghost t: int)
    requires s.Length == 24 && Within(s[..], 0, 23, 0x200000) && -0x20000000 <= s[23] <= 0x20000000
    modifies s
    ensures Within(s[..], 0, 6, 0x200000) && Within(s[..], 6, 17, 0x4000000000000) && -0x200000 <= s[17] <= 0x200000
    ensures forall j :: 18 <= j < 24 ==> s[j] == 0
    ensures ScVal(s[..]) == old(ScVal(s[..])) - L * t
  {
    t := 0;
    ghost var y;
    y := s[23] * Weight(11);
    Fold(s, 23, 6, 17, 0x200000, 0x20000000);
    t := t + y;
    y := s[22] * Weight(10);
    Fold(s, 22, 6, 17, 0x2000000200000, 0x200000);
    t := t + y;
    y := s[21] * Weight(9);
    Fold(s, 21, 6, 17, 0x2020000200000, 0x200000);
    t := t + y;
    y := s[20] * Weight(8);
    Fold(s, 20, 6, 17, 0x2040000200000, 0x200000);
    t := t + y;
    y := s[19] * Weight(7);
    Fold(s, 19, 6, 17, 0x2060000200000, 0x200000);
    t := t + y;
    y := s[18] * Weight(6);
    Fold(s, 18, 6, 17, 0x2080000200000, 0x200000);
    t := t + y;
  }

  /** Lines 140-186: limbs 17 to 12. */
  method FoldMiddle(s: array<int>) returns (ghost t: int)
    requires s.Length == 24 && Within(s[..], 0, 18, 0x80000000) && forall j :: 18 <= j < 24 ==> s[j] == 0
    modifies s
    ensures Within(s[..], 0, 11, 0x40000000000000) && -0x80000000 <= s[11] <= 0x80000000
    ensures forall j :: 12 <= j < 24 ==> s[j] == 0
    ensures ScVal(s[..]) == old(ScVal(s[..])) - L * t
  {
    t := 0;
    ghost var y;
    y := s[17] * Weight(5);
    Fold(s, 17, 0, 11, 0x80000000, 0x80000000);
    t := t + y;
    y := s[16] * Weight(4);
    Fold(s, 16, 0, 11, 0x8000080000000, 0x80000000);
    t := t + y;
    y := s[15] * Weight(3);
    Fold(s, 15, 0, 11, 0x10000080000000, 0x80000000);
    t := t + y;
    y := s[14] * Weight(2);
    Fold(s, 14, 0, 11, 0x18000080000000, 0x80000000);
    t := t + y;
    y := s[13] * Weight(1);
    Fold(s, 13, 0, 11, 0x20000080000000, 0x80000000);
    t := t + y;
    y := s[12] * Weight(0);
    Fold(s, 12, 0, 11, 0x28000080000000, 0x80000000);
    t := t + y;
  }

  /** Lines 127-138: carries rounded to nearest out of limbs 6 to 16, even ones first. */
  method CarryMiddle(s: array<int>)
    requires s.Length == 24 && Within(s[..], 0, 6, 0x200000) && Within(s[..], 6, 17, 0x4000000000000)
    requires -0x200000 <= s[17] <= 0x200000
    modifies s
    ensures Within(s[..], 0, 18, 0x80000000)
    ensures forall j :: 18 <= j < 24 ==> s[j] == old(s[j])
    ensures ScVal(s[..]) == old(ScVal(s[..]))
  {
    EvenMiddle(s);
    OddMiddle(s);
  }

  method EvenMiddle(s: array<int>)
    requires s.Length == 24 && Within(s[..], 6, 17, 0x4000000000000) && -0x200000 <= s[17] <= 0x200000
    modifies s
    ensures forall i :: 6 <= i < 17 && i % 2 == 0 ==> -0x100000 <= s[i] <= 0x100000
    ensures Within(s[..], 6, 17, 0x8000000000000) && -0x40000000 <= s[17] <= 0x40000000
    ensures forall j :: 0 <= j < 6 || 18 <= j < 24 ==> s[j] == old(s[j])
    ensures ScVal(s[..]) == old(ScVal(s[..]))
  {
    RoundCarry(s, 6, 0x4000000000000);
    RoundCarry(s, 8, 0x4000000000000);
    RoundCarry(s, 10, 0x4000000000000);
    RoundCarry(s, 12, 0x4000000000000);
    RoundCarry(s, 14, 0x4000000000000);
    RoundCarry(s, 16, 0x4000000000000);
  }

  method OddMiddle(s: array<int>)
    requires s.Length == 24 && Within(s[..], 6, 17, 0x8000000000000)
    requires forall i :: 6 <= i < 17 && i % 2 == 0 ==> -0x100000 <= s[i] <= 0x100000
    modifies s
    ensures Within(s[..], 6, 17, 0x80000000)
    ensures forall j :: 0 <= j < 6 || 17 <= j < 24 ==> s[j] == old(s[j])
    ensures ScVal(s[..]) == old(ScVal(s[..]))
  {
    RoundCarry(s, 7, 0x8000000000000);
    RoundCarry(s, 9, 0x8000000000000);
    RoundCarry(s, 11, 0x8000000000000);
    RoundCarry(s, 13, 0x8000000000000);
    RoundCarry(s, 15, 0x8000000000000);
  }

  /** Lines 188-193. */
  method EvenLow(s: array<int>)
    requires s.Length == 24 && Within(s[..], 0, 11, 0x40000000000000) && -0x80000000 <= s[11] <= 0x80000000
    modifies s
    ensures forall i :: 0 <= i < 11 && i % 2 == 0 ==> -0x100000 <= s[i] <= 0x100000
    ensures Within(s[..], 0, 11, 0x80000000000000) && -0x400000000 <= s[11] <= 0x400000000
    ensures forall j :: 12 <= j < 24 ==> s[j] == old(s[j])
    ensures ScVal(s[..]) == old(ScVal(s[..]))
  {
    RoundCarry(s, 0, 0x40000000000000);
    RoundCarry(s, 2, 0x40000000000000);
    RoundCarry(s, 4, 0x40000000000000);
    RoundCarry(s, 6, 0x40000000000000);
    RoundCarry(s, 8, 0x40000000000000);
    RoundCarry(s, 10, 0x40000000000000);
  }

  /** Lines 195-200: limb 11 is left within 2^20, and limb 12 holds what it gives up. */
  method OddLow(s: array<int>)
    requires s.Length == 24 && Within(s[..], 0, 11, 0x80000000000000) && -0x400000000 <= s[11] <= 0x400000000
    requires s[12] == 0
    requires forall i :: 0 <= i < 11 && i % 2 == 0 ==> -0x100000 <= s[i] <= 0x100000
    modifies s
    ensures Within(s[..], 0, 11, 0x1000000000) && -0x100000 <= s[11] <= 0x100000 && -0x10000 <= s[12] <= 0x10000
    ensures forall j :: 13 <= j < 24 ==> s[j] == old(s[j])
    ensures ScVal(s[..]) == old(ScVal(s[..]))
  {
    RoundCarry(s, 1, 0x80000000000000);
    RoundCarry(s, 3, 0x80000000000000);
    RoundCarry(s, 5, 0x80000000000000);
    RoundCarry(s, 7, 0x80000000000000);
    RoundCarry(s, 9, 0x80000000000000);
    RoundCarry(s, 11, 0x400000000);
  }

  /** Lines 210-221: the carries of the first floor chain; every limb but the topmost ends in its range. */
  method FloorChain(s: array<int>)
    requires s.Length == 24 && Within(s[..], 0, 12, 0x100000000000000) && s[12] == 0
    modifies s
    ensures forall i :: 0 <= i < 12 ==> 0 <= s[i] < R
    ensures forall j :: 13 <= j < 24 ==> s[j] == old(s[j])
    ensures ScVal(s[..]) == old(ScVal(s[..]))
  {
    FloorCarry(s, 0, 0x200000000000000);
    FloorCarry(s, 1, 0x200000000000000);
    FloorCarry(s, 2, 0x200000000000000);
    FloorCarry(s, 3, 0x200000000000000);
    FloorCarry(s, 4, 0x200000000000000);
    FloorCarry(s, 5, 0x200000000000000);
    FloorCarry(s, 6, 0x200000000000000);
    FloorCarry(s, 7, 0x200000000000000);
    FloorCarry(s, 8, 0x200000000000000);
    FloorCarry(s, 9, 0x200000000000000);
    FloorCarry(s, 10, 0x200000000000000);
    FloorCarry(s, 11, 0x200000000000000);
  }

  /** Lines 231-241: the second one stops below limb 11. */
  method LastChain(s: array<int>)
    requires s.Length == 24 && Within(s[..], 0, 12, 0x400000)
    modifies s
    ensures forall i :: 0 <= i < 11 ==> 0 <= s[i] < R
    ensures forall j :: 12 <= j < 24 ==> s[j] == old(s[j])
    ensures ScVal(s[..]) == old(ScVal(s[..]))
  {
    FloorCarry(s, 0, 0x800000);
    FloorCarry(s, 1, 0x800000);
    FloorCarry(s, 2, 0x800000);
    FloorCarry(s, 3, 0x800000);
    FloorCarry(s, 4, 0x800000);
    FloorCarry(s, 5, 0x800000);
    FloorCarry(s, 6, 0x800000);
    FloorCarry(s, 7, 0x800000);
    FloorCarry(s, 8, 0x800000);
    FloorCarry(s, 9, 0x800000);
    FloorCarry(s, 10, 0x800000);
  }

  // ---- what the limbs amount to ----

  lemma {:induction false} ZeroAbove(s: seq<int>, n: nat, k: nat)
    requires n <= k <= |s| && forall j :: n <= j < k ==> s[j] == 0
    ensures Low(s, k) == Low(s, n)
    decreases k
  {
    if n < k {
      ZeroAbove(s, n, k - 1);
    }
  }

  lemma {:induction false} LowInRange(s: seq<int>, n: nat)
    requires n <= |s| && forall i :: 0 <= i < n ==> 0 <= s[i] < R
    ensures 0 <= Low(s, n) < Weight(n)
  {
    if n > 0 {
      LowInRange(s, n - 1);
      var w := Weight(n - 1);
      MulMono(0, s[n - 1], w);
      MulMono(s[n - 1] + 1, R, w);
      Distribute(s[n - 1], 1, w);
    }
  }

  /** Limbs within m weigh at most 2*m times the topmost weight. */
  lemma {:induction false} LowWithin(s: seq<int>, n: nat, m: int)
    requires 0 < n <= |s| && m >= 0 && Within(s, 0, n, m)
    ensures -2 * (m * Weight(n - 1)) <= Low(s, n) <= 2 * (m * Weight(n - 1))
  {
    var w := Weight(n - 1);
    WeightPositive(n - 1);
    MulMono(s[n - 1], m, w);
    MulMono(-m, s[n - 1], w);
    if n == 1 {
      assert Low(s, 1) == s[0] * Weight(0);
    } else {
      var v := Weight(n - 2);
      LowWithin(s, n - 1, m);
      Associate(m, v, R);
      WeightPositive(n - 2);
      MulMono(0, m, v);
    }
  }

  lemma {:induction false} WeightPositive(i: nat)
    ensures Weight(i) > 0
  {
    if i > 0 {
      WeightPositive(i - 1);
    }
  }

  /** Before the first floor chain the value lies strictly between -2^252 and 2^252. */
  lemma SmallValue(s: seq<int>)
    requires |s| == 24 && Within(s, 0, 11, 0x2000000000) && -0x100000 <= s[11] <= 0x100000
    requires forall j :: 12 <= j < 24 ==> s[j] == 0
    ensures -TWO_252 < ScVal(s) < TWO_252
  {
    ZeroAbove(s, 12, 24);
    LowWithin(s, 11, 0x2000000000);
    SmallWeights();
    assert Low(s, 12) == Low(s, 11) + s[11] * Weight(11);
  }

  /** After it, the topmost limb is the floor of the value by 2^252: -1 or 0. */
  lemma TopLimb(s: seq<int>)
    requires |s| == 24 && (forall i :: 0 <= i < 12 ==> 0 <= s[i] < R) && (forall j :: 13 <= j < 24 ==> s[j] == 0)
    requires -TWO_252 < ScVal(s) < TWO_252
    ensures s[12] == -1 || s[12] == 0
    ensures 0 <= ScVal(s) - L * s[12] < L
  {
    ZeroAbove(s, 13, 24);
    LowInRange(s, 12);
    SmallWeights();
    assert Low(s, 13) == Low(s, 12) + s[12] * Weight(12);
  }

  /** At the end limb 11 is not negative, and the twelve limbs spell the value. */
  lemma LastLimb(s: seq<int>)
    requires |s| == 24 && (forall i :: 0 <= i < 11 ==> 0 <= s[i] < R) && (forall j :: 12 <= j < 24 ==> s[j] == 0)
    requires 0 <= ScVal(s) < L
    ensures 0 <= s[11] < 0x400000 && ScVal(s) == Low(s, 12)
  {
    ZeroAbove(s, 12, 24);
    LowInRange(s, 11);
    SmallWeights();
    assert Low(s, 12) == Low(s, 11) + s[11] * Weight(11);
  }

  // ---- the bytes ----

  /** Lines 243-274. */
  method Store(d: array<byte>, s: seq<int>)
    requires d.Length == 64 && |s| == 24 && (forall i :: 0 <= i < 11 ==> 0 <= s[i] < R) && 0 <= s[11] < 0x400000
    modifies d
    ensures LeVal(d[..32]) == Low(s, 12) && d[32..] == old(d[32..])
  {
    StoreFour(d, 0, s[0], s[1], s[2], s[3]);
    ghost var d1 := d[..];
    StoreRest(d, 10, s[3] / 0x20000, s[4], s[5], s[6], s[7]);
    ghost var d2 := d[..];
    StoreFour(d, 21, s[8], s[9], s[10], s[11]);
    d[31] := s[11] / 0x20000;
    StoredValue(d[..32], s);
  }

  ghost predicate Stored(d: seq<byte>, s: seq<int>)
    requires |s| == 24 && (forall i :: 0 <= i < 11 ==> 0 <= s[i] < R) && 0 <= s[11] < 0x400000
  {
    && |d| == 32
    && FourBytes(d, s[0], s[1], s[2], s[3])
    && RestBytes(d[10..], s[3] / 0x20000, s[4], s[5], s[6], s[7])
    && FourBytes(d[21..], s[8], s[9], s[10], s[11])
    && d[31] == s[11] / 0x20000
  }

  lemma StoredValue(d: seq<byte>, s: seq<int>)
    requires |s| == 24 && (forall i :: 0 <= i < 11 ==> 0 <= s[i] < R) && 0 <= s[11] < 0x400000 && Stored(d, s)
    ensures LeVal(d) == Low(s, 12)
  {
    FourBytesValue(d, s[0], s[1], s[2], s[3]);
    RestBytesValue(d[10..], s[3] / 0x20000, s[4], s[5], s[6], s[7]);
    FourBytesValue(d[21..], s[8], s[9], s[10], s[11]);
    BytesSum(d);
    LowSum12(s);
  }

  lemma BytesSum(d: seq<byte>)
    requires |d| == 32
    ensures LeVal(d)
        == Le10(d) + 0x100000000000000000000 * Le11(d[10..])
        + 0x1000000000000000000000000000000000000000000 * (Le10(d[21..]) + 0x100000000000000000000 * d[31] as int)
  {
    TwentyOne(d);
    Ten(d[21..]);
    LeTail(d[31..]);
    assert d[21..][10..] == d[31..];
    assert LeVal(d[31..][1..]) == 0;
  }

  lemma LowSum12(s: seq<int>)
    requires |s| == 24
    ensures Low(s, 12)
        == s[0] * 0x1 + s[1] * 0x200000 + s[2] * 0x40000000000 + s[3] * 0x8000000000000000
        + s[4] * 0x1000000000000000000000 + s[5] * 0x200000000000000000000000000
        + s[6] * 0x40000000000000000000000000000000 + s[7] * 0x8000000000000000000000000000000000000
        + s[8] * 0x1000000000000000000000000000000000000000000
        + s[9] * 0x200000000000000000000000000000000000000000000000
        + s[10] * 0x40000000000000000000000000000000000000000000000000000
        + s[11] * 0x8000000000000000000000000000000000000000000000000000000000
  {
    SmallWeights();
    assert Low(s, 1) == Low(s, 0) + s[0] * 0x1;
    assert Low(s, 2) == Low(s, 1) + s[1] * 0x200000;
    assert Low(s, 3) == Low(s, 2) + s[2] * 0x40000000000;
    assert Low(s, 4) == Low(s, 3) + s[3] * 0x8000000000000000;
    assert Low(s, 5) == Low(s, 4) + s[4] * 0x1000000000000000000000;
    assert Low(s, 6) == Low(s, 5) + s[5] * 0x200000000000000000000000000;
    assert Low(s, 7) == Low(s, 6) + s[6] * 0x40000000000000000000000000000000;
    assert Low(s, 8) == Low(s, 7) + s[7] * 0x8000000000000000000000000000000000000;
    assert Low(s, 9) == Low(s, 8) + s[8] * 0x1000000000000000000000000000000000000000000;
    assert Low(s, 10) == Low(s, 9) + s[9] * 0x200000000000000000000000000000000000000000000000;
    assert Low(s, 11) == Low(s, 10) + s[10] * 0x40000000000000000000000000000000000000000000000000000;
    assert Low(s, 12) == Low(s, 11) + s[11] * 0x8000000000000000000000000000000000000000000000000000000000;
  }

  // ---- sc_reduce ----

  /** Lines 79-200. */
  method Shrink(s: array<int>) returns (ghost t: int)
    requires s.Length == 24 && Within(s[..], 0, 23, 0x200000) && -0x20000000 <= s[23] <= 0x20000000
    modifies s
    ensures Within(s[..], 0, 11, 0x1000000000) && -0x100000 <= s[11] <= 0x100000 && -0x10000 <= s[12] <= 0x10000
    ensures forall j :: 13 <= j < 24 ==> s[j] == 0
    ensures ScVal(s[..]) == old(ScVal(s[..])) - L * t
  {
    t := FoldHigh(s);
    CarryMiddle(s);
    ghost var u := FoldMiddle(s);
    t := t + u;
    EvenLow(s);
    OddLow(s);
  }

  /** Lines 202-241: the value ends between 0 and l. */
  method Settle(s: array<int>) returns (ghost t: int)
    requires s.Length == 24 && Within(s[..], 0, 11, 0x1000000000) && -0x100000 <= s[11] <= 0x100000
    requires -0x10000 <= s[12] <= 0x10000
    requires forall j :: 13 <= j < 24 ==> s[j] == 0
    modifies s
    ensures (forall i :: 0 <= i < 11 ==> 0 <= s[i] < R) && 0 <= s[11] < 0x400000
    ensures 0 <= Low(s[..], 12) < L && Low(s[..], 12) == old(ScVal(s[..])) - L * t
  {
    t := s[12] * Weight(0);
    Fold(s, 12, 0, 6, 0x1000000000, 0x10000);
    SmallValue(s[..]);
    FloorChain(s);
    TopLimb(s[..]);
    ghost var y := s[12];
    assert y * Weight(0) == y;
    Fold(s, 12, 0, 6, 0x200000, 1);
    t := t + y;
    LastChain(s);
    LastLimb(s[..]);
  }

  /** sc_reduce: the first 32 bytes become the remainder of all 64 by l. */
  method ScReduce(d: array<byte>)
    requires d.Length == 64
    modifies d
    ensures LeVal(d[..32]) == old(LeVal(d[..])) % L
    ensures d[32..] == old(d[32..])
  {
    ghost var v := LeVal(d[..]);
    LoadedValue(d[..]);
    var l := Loaded(d[..]);
    var s := new int[24](i requires 0 <= i < 24 => l[i]);
    assert s[..] == l;
    ghost var t := Shrink(s);
    ghost var u := Settle(s);
    Store(d, s[..]);
    QuotRem(v, L, t + u, LeVal(d[..32]));
  }
}
