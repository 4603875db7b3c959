/** Field elements modulo 2^255 - 19 and their encoding (external/ref10/fe_tobytes.c, external/ref10/fe_frombytes.c). */
module FeBytes {
  import opened ByteStrings
  import opened LittleEndian
  import opened Limbs
  import opened BytePacking

  const P: nat := 57896044618658097711785492504343953926634992332820282019728792003956564819949
  const TWO_255: nat := 57896044618658097711785492504343953926634992332820282019728792003956564819968
  const TWO_231: int := 3450873173395281893717377931138512726225554486085193277581262111899648
  const E26: int := 0x4000000
  const E25: int := 0x2000000

  /** The bounds under which fe_tobytes is promised: 1.1 times 2^26 and 2^25. */
  ghost predicate Reducible(h: seq<int>) {
    && |h| == 10
    && (forall i :: 0 <= i < 10 && i % 2 == 0 ==> 10 * -h[i] <= 11 * E26 && 10 * h[i] <= 11 * E26)
    && (forall i :: 0 <= i < 10 && i % 2 == 1 ==> 10 * -h[i] <= 11 * E25 && 10 * h[i] <= 11 * E25)
  }

  /** A value that crypto_int32 holds. */
  function I32(x: int): int
    requires -0x8000_0000 <= x < 0x8000_0000
  {
    x
  }

  /** The radix of limb i, and its weight. */
  function Radix(i: nat): int {
    if i % 2 == 0 then E26 else E25
  }

  ghost function Weight(i: nat): int {
    if i == 0 then 1 else Weight(i - 1) * Radix(i - 1)
  }

  ghost function Low(h: seq<int>, n: nat): int
    requires n <= |h|
  {
    if n == 0 then 0 else Low(h, n - 1) + Weight(n - 1) * h[n - 1]
  }

  /** Ten limbs of alternately 26 and 25 bits, signed. */
  ghost function FeVal(h: seq<int>): int
    requires |h| == 10
  {
    Low(h, 10)
  }

  lemma Weights()
    ensures Weight(0) == 0x1
    ensures Weight(1) == 0x4000000
    ensures Weight(2) == 0x8000000000000
    ensures Weight(3) == 0x20000000000000000000
    ensures Weight(4) == 0x40000000000000000000000000
    ensures Weight(5) == 0x100000000000000000000000000000000
    ensures Weight(6) == 0x200000000000000000000000000000000000000
    ensures Weight(7) == 0x800000000000000000000000000000000000000000000
    ensures Weight(8) == 0x1000000000000000000000000000000000000000000000000000
    ensures Weight(9) == 0x4000000000000000000000000000000000000000000000000000000000
    ensures Weight(10) == 0x8000000000000000000000000000000000000000000000000000000000000000
  {
    assert Weight(3) == Weight(2) * E26;
    assert Weight(6) == Weight(5) * E25;
    assert Weight(9) == Weight(8) * E26;
  }

  lemma FeValSum(h: seq<int>)
    requires |h| == 10
    ensures FeVal(h) ==
      h[0] * 0x1 + h[1] * 0x4000000 + h[2] * 0x8000000000000
      + h[3] * 0x20000000000000000000 + h[4] * 0x40000000000000000000000000 + h[5] * 0x100000000000000000000000000000000
      + h[6] * 0x200000000000000000000000000000000000000 + h[7] * 0x800000000000000000000000000000000000000000000
      + h[8] * 0x1000000000000000000000000000000000000000000000000000
        + h[9] * 0x4000000000000000000000000000000000000000000000000000000000
  {
    Weights();
    assert Low(h, 1) == Low(h, 0) + 0x1 * h[0];
    assert Low(h, 2) == Low(h, 1) + 0x4000000 * h[1];
    assert Low(h, 3) == Low(h, 2) + 0x8000000000000 * h[2];
    assert Low(h, 4) == Low(h, 3) + 0x20000000000000000000 * h[3];
    assert Low(h, 5) == Low(h, 4) + 0x40000000000000000000000000 * h[4];
    assert Low(h, 6) == Low(h, 5) + 0x100000000000000000000000000000000 * h[5];
    assert Low(h, 7) == Low(h, 6) + 0x200000000000000000000000000000000000000 * h[6];
    assert Low(h, 8) == Low(h, 7) + 0x800000000000000000000000000000000000000000000 * h[7];
    assert Low(h, 9) == Low(h, 8) + 0x1000000000000000000000000000000000000000000000000000 * h[8];
    assert Low(h, 10) == Low(h, 9) + 0x4000000000000000000000000000000000000000000000000000000000 * h[9];
  }

  lemma {:induction false} WeightPositive(i: nat)
    ensures Weight(i) > 0
  {
    if i > 0 {
      WeightPositive(i - 1);
    }
  }

  ghost predicate FloorsTo(h: seq<int>, i: nat, q: int, q': int)
    requires i < |h|
  {
    q' == (h[i] + q) / Radix(i)
  }

  ghost predicate Chain(h: seq<int>, qs: seq<int>) {
    |qs| == |h| + 1 && forall i :: 0 <= i < |h| ==> FloorsTo(h, i, qs[i], qs[i + 1])
  }

  ghost predicate Bracketed(m: int, q: int, x: int) {
    m * q <= x < m * (q + 1)
  }

  /** One floor of a chain keeps the bracket, at any weight. */
  lemma ChainStep(low: int, q: int, m: int, h: int, r: int, q': int)
    requires m > 0 && r > 0 && Bracketed(m, q, low) && q' == (h + q) / r
    ensures Bracketed(m * r, q', low + m * h)
  {
    assert r * q' <= h + q <= r * q' + r - 1;
    MulMono(r * q', h + q, m);
    MulMono(h + q + 1, r * q' + r, m);
    Associate(m, r, q');
    Associate(m, r, q' + 1);
    Distribute(h, q, m);
    Distribute(h, q + 1, m);
    Distribute(r * q', r, m);
    Distribute(r * q', r, 1);
  }

  /** Nested floors as one. */
  lemma {:induction false} ChainBounds(h: seq<int>, qs: seq<int>, n: nat)
    requires Chain(h, qs) && n <= |h|
    ensures Bracketed(Weight(n), qs[n], Low(h, n) + qs[0])
  {
    if n > 0 {
      ChainBounds(h, qs, n - 1);
      WeightPositive(n - 1);
      assert FloorsTo(h, n - 1, qs[n - 1], qs[n]);
      ChainStep(Low(h, n - 1) + qs[0], qs[n - 1], Weight(n - 1), h[n - 1], Radix(n - 1), qs[n]);
      assert Low(h, n) + qs[0] == Low(h, n - 1) + qs[0] + Weight(n - 1) * h[n - 1];
    }
  }

  /** One line of 53-62. */
  method FloorStep(h: seq<int>, i: nat, q: int) returns (q': int)
    requires Reducible(h) && i < 10 && -64 <= q <= 64
    ensures FloorsTo(h, i, q, q') && -2 <= q' <= 2
  {
    q' := I32(h[i] + q) / Radix(i);
  }

  method FirstFloor(h: seq<int>) returns (q: int)
    requires Reducible(h)
    ensures q == Correction(h) && -64 <= q <= 64
  {
    q := I32(19 * h[9] + 0x1000000) / E25;
  }

  function Correction(h: seq<int>): int
    requires |h| == 10
  {
    (19 * h[9] + 0x1000000) / E25
  }

  /** Lines 52-62: floor((h + c) / 2^255) for the small correction c. */
  method Quotient(h: seq<int>) returns (q: int, ghost c: int)
    requires Reducible(h)
    ensures E25 * c <= 19 * h[9] + 0x1000000 < E25 * (c + 1)
    ensures TWO_255 * q <= FeVal(h) + c < TWO_255 * (q + 1)
    ensures -2 <= q <= 2
  {
    ghost var qs;
    q, qs := QuotientSteps(h);
    c := qs[0];
    ChainBounds(h, qs, 10);
    Weights();
  }

  method QuotientSteps(h: seq<int>) returns (q: int, ghost qs: seq<int>)
    requires Reducible(h)
    ensures Chain(h, qs) && qs[0] == Correction(h) && q == qs[10] && -2 <= q <= 2
  {
    var q0 := FirstFloor(h);
    var q1 := FloorStep(h, 0, q0);
    var q2 := FloorStep(h, 1, q1);
    var q3 := FloorStep(h, 2, q2);
    var q4 := FloorStep(h, 3, q3);
    var q5 := FloorStep(h, 4, q4);
    var q6 := FloorStep(h, 5, q5);
    var q7 := FloorStep(h, 6, q6);
    var q8 := FloorStep(h, 7, q7);
    var q9 := FloorStep(h, 8, q8);
    var q10 := FloorStep(h, 9, q9);
    q := q10;
    qs := [q0, q1, q2, q3, q4, q5, q6, q7, q8, q9, q10];
  }

  lemma Bounds(h: seq<int>)
    requires Reducible(h)
    ensures -73819750 <= h[0] <= 73819750
    ensures -36909875 <= h[1] <= 36909875
    ensures -73819750 <= h[2] <= 73819750
    ensures -36909875 <= h[3] <= 36909875
    ensures -73819750 <= h[4] <= 73819750
    ensures -36909875 <= h[5] <= 36909875
    ensures -73819750 <= h[6] <= 73819750
    ensures -36909875 <= h[7] <= 36909875
    ensures -73819750 <= h[8] <= 73819750
    ensures -36909875 <= h[9] <= 36909875
  {
  }

  /** Why the correction makes the quotient exact (the basic claim at lines 7-25, for all of the stated bounds). */
  lemma QuotientExact(v: int, h9: int, c: int, q: int)
    requires E25 * c <= 19 * h9 + 0x1000000 < E25 * (c + 1)
    requires TWO_255 * q <= v + c < TWO_255 * (q + 1)
    requires -TWO_231 < v - h9 * 0x4000000000000000000000000000000000000000000000000000000000 < TWO_231
    requires -36909875 <= h9 <= 36909875
    ensures 0 <= v - P * q < P
  {
    var k := v / P;
    var r := v - P * k;
    assert 0 <= r < P;
    assert -3 <= k <= 3;
    assert TWO_255 * (r - 19 * k + c) > 0 - TWO_255;
    assert TWO_255 * (r - 19 * k + c) < TWO_255 * TWO_255;
    assert 0 <= r - 19 * k + c < TWO_255;
    assert k == q;
  }

  lemma SmallLow(h: seq<int>)
    requires Reducible(h)
    ensures -TWO_231 < FeVal(h) - h[9] * 0x4000000000000000000000000000000000000000000000000000000000 < TWO_231
  {
    Bounds(h);
    FeValSum(h);
  }

  /** Each limb takes the carry from below and gives one upwards. */
  ghost predicate Passes(h: seq<int>, i: nat, c: int, low: int, carry: int)
    requires i < |h|
  {
    low == h[i] + c - carry * Radix(i)
  }

  predicate InRange(x: int, i: nat) {
    0 <= x < Radix(i)
  }

  ghost predicate Carried(h: seq<int>, g: seq<int>, cs: seq<int>) {
    && |g| == |h| && |cs| == |h| + 1
    && forall i :: 0 <= i < |h| ==> Passes(h, i, cs[i], g[i], cs[i + 1])
  }

  lemma {:induction false} CarriedLow(h: seq<int>, g: seq<int>, cs: seq<int>, n: nat)
    requires Carried(h, g, cs) && n <= |h|
    ensures Low(g, n) + Weight(n) * cs[n] == Low(h, n) + cs[0]
  {
    if n > 0 {
      CarriedLow(h, g, cs, n - 1);
      CarryTerms(Weight(n - 1), h[n - 1], cs[n - 1], cs[n], Radix(n - 1));
    }
  }

  lemma CarryTerms(w: int, h: int, c: int, c': int, r: int)
    ensures w * (h + c - c' * r) + (w * r) * c' == w * h + w * c
  {
  }

  lemma LeftOver(v: int, g: int, c: int, q: int)
    requires g + TWO_255 * c == v + 19 * q && 0 <= g < TWO_255 && 0 <= v - P * q < P
    ensures g == v - P * q
  {
  }

  /** Nothing is left over but q. */
  lemma CarriedFe(h: seq<int>, g: seq<int>, cs: seq<int>, q: int)
    requires |h| == 10 && Carried(h, g, cs) && cs[0] == 19 * q && 0 <= FeVal(h) - P * q < P
    requires forall i :: 0 <= i < 10 ==> InRange(g[i], i)
    ensures FeVal(g) == FeVal(h) - P * q
  {
    CarriedLow(h, g, cs, 10);
    Weights();
    SmallFe(g);
    LeftOver(FeVal(h), FeVal(g), cs[10], q);
  }

  /** Lines 65-77: the carries move h + 19*q into the ranges of the limbs. */
  method Normalise(h: seq<int>, q: int) returns (g: seq<int>)
    requires Reducible(h) && -2 <= q <= 2 && 0 <= FeVal(h) - P * q < P
    ensures |g| == 10 && (forall i :: 0 <= i < 10 ==> InRange(g[i], i))
    ensures FeVal(g) == FeVal(h) - P * q
  {
    ghost var cs;
    g, cs := Carries(h, q);
    CarriedFe(h, g, cs, q);
  }

  method Carries(h: seq<int>, q: int) returns (g: seq<int>, ghost cs: seq<int>)
    requires Reducible(h) && -2 <= q <= 2
    ensures Carried(h, g, cs) && cs[0] == 19 * q
    ensures forall i :: 0 <= i < 10 ==> InRange(g[i], i)
  {
    var g0, carry0 := CarryOut(h, 0, 19 * q);
    var g1, carry1 := CarryOut(h, 1, carry0);
    var g2, carry2 := CarryOut(h, 2, carry1);
    var g3, carry3 := CarryOut(h, 3, carry2);
    var g4, carry4 := CarryOut(h, 4, carry3);
    var g5, carry5 := CarryOut(h, 5, carry4);
    var g6, carry6 := CarryOut(h, 6, carry5);
    var g7, carry7 := CarryOut(h, 7, carry6);
    var g8, carry8 := CarryOut(h, 8, carry7);
    var g9, carry9 := CarryOut(h, 9, carry8);
    g := [g0, g1, g2, g3, g4, g5, g6, g7, g8, g9];
    cs := [19 * q, carry0, carry1, carry2, carry3, carry4, carry5, carry6, carry7, carry8, carry9];
  }

  /** A limb that takes one carry from below and gives one upwards. */
  method CarryOut(h: seq<int>, i: nat, c: int) returns (low: int, carry: int)
    requires Reducible(h) && i < 10 && -64 <= c <= 64
    ensures Passes(h, i, c, low, carry) && InRange(low, i) && -2 <= carry <= 2
  {
    low := I32(h[i] + c);
    carry := low / Radix(i);
    low := I32(low - carry * Radix(i));
  }

  lemma SmallFe(g: seq<int>)
    requires |g| == 10 && forall i :: 0 <= i < 10 ==> InRange(g[i], i)
    ensures 0 <= FeVal(g) < TWO_255
  {
    FeValSum(g);
    assert forall i :: 0 <= i < 10 ==> 0 <= g[i] < Radix(i);
    assert 0 <= g[0] < E26;
    assert 0 <= g[1] < E25;
    assert 0 <= g[2] < E26;
    assert 0 <= g[3] < E25;
    assert 0 <= g[4] < E26;
    assert 0 <= g[5] < E25;
    assert 0 <= g[6] < E26;
    assert 0 <= g[7] < E25;
    assert 0 <= g[8] < E26;
    assert 0 <= g[9] < E25;
  }

  // ---- bytes ----

  /** The value of the first 16 bytes. */
  ghost function Le16(d: seq<byte>): int
    requires |d| >= 16
  {
    d[0] as int * 0x1 + d[1] as int * 0x100 + d[2] as int * 0x10000 + d[3] as int * 0x1000000
    + d[4] as int * 0x100000000 + d[5] as int * 0x10000000000 + d[6] as int * 0x1000000000000
      + d[7] as int * 0x100000000000000
    + d[8] as int * 0x10000000000000000 + d[9] as int * 0x1000000000000000000 + d[10] as int * 0x100000000000000000000
      + d[11] as int * 0x10000000000000000000000
    + d[12] as int * 0x1000000000000000000000000 + d[13] as int * 0x100000000000000000000000000
      + d[14] as int * 0x10000000000000000000000000000 + d[15] as int * 0x1000000000000000000000000000000
  }

  lemma {:induction false} Sixteen(d: seq<byte>)
    requires |d| >= 16
    ensures LeVal(d) == Le16(d) + 0x100000000000000000000000000000000 * LeVal(d[16..])
  {
    Four(d);
    Four(d[4..]);
    Four(d[8..]);
    Four(d[12..]);
    assert d[4..][4..] == d[8..] && d[8..][4..] == d[12..] && d[12..][4..] == d[16..];
  }

  lemma ThirtyTwo(d: seq<byte>)
    requires |d| == 32
    ensures LeVal(d) == Le16(d) + 0x100000000000000000000000000000000 * Le16(d[16..])
  {
    Sixteen(d);
    Sixteen(d[16..]);
    assert LeVal(d[16..][16..]) == 0;
  }

  /** Bytes 0 to 15 from limbs 0 to 4. */
  method StoreLow(s: array<byte>, g: seq<int>)
    requires s.Length == 32 && |g| == 10 && forall i :: 0 <= i < 10 ==> InRange(g[i], i)
    modifies s
    ensures s[16..] == old(s[16..])
    ensures PackedLow(g, s[..16])
  {
    Ranges(g);
    s[0] := Mid(g[0], 1);
    s[1] := Mid(g[0], 0x100);
    s[2] := Mid(g[0], 0x10000);
    s[3] := Join(g[0] / 0x1000000, g[1], 4);
    s[4] := Mid(g[1], 0x40);
    s[5] := Mid(g[1], 0x4000);
    s[6] := Join(g[1] / 0x400000, g[2], 8);
    s[7] := Mid(g[2], 0x20);
    s[8] := Mid(g[2], 0x2000);
    s[9] := Join(g[2] / 0x200000, g[3], 32);
    s[10] := Mid(g[3], 0x8);
    s[11] := Mid(g[3], 0x800);
    s[12] := Join(g[3] / 0x80000, g[4], 64);
    s[13] := Mid(g[4], 0x4);
    s[14] := Mid(g[4], 0x400);
    s[15] := g[4] / 0x40000;
  }

  ghost predicate PackedLow(g: seq<int>, b: seq<byte>)
    requires |g| == 10 && forall i :: 0 <= i < 10 ==> InRange(g[i], i)
  {
    Ranges(g);
    && |b| == 16
    && b[0] == Mid(g[0], 1) && b[1] == Mid(g[0], 0x100) && b[2] == Mid(g[0], 0x10000)
    && b[3] == Join(g[0] / 0x1000000, g[1], 4) && b[4] == Mid(g[1], 0x40) && b[5] == Mid(g[1], 0x4000)
    && b[6] == Join(g[1] / 0x400000, g[2], 8) && b[7] == Mid(g[2], 0x20) && b[8] == Mid(g[2], 0x2000)
    && b[9] == Join(g[2] / 0x200000, g[3], 32) && b[10] == Mid(g[3], 0x8) && b[11] == Mid(g[3], 0x800)
    && b[12] == Join(g[3] / 0x80000, g[4], 64) && b[13] == Mid(g[4], 0x4) && b[14] == Mid(g[4], 0x400)
    && b[15] == g[4] / 0x40000
  }

  ghost predicate PartsLow(g: seq<int>, b: seq<byte>)
    requires |g| == 10
  {
    && |b| == 16
    && b[0] == g[0] % 256 && b[1] == g[0] / 0x100 % 256 && b[2] == g[0] / 0x10000 % 256
    && b[3] == g[0] / 0x1000000 + 4 * (g[1] % 64) && b[4] == g[1] / 0x40 % 256 && b[5] == g[1] / 0x4000 % 256
    && b[6] == g[1] / 0x400000 + 8 * (g[2] % 32) && b[7] == g[2] / 0x20 % 256 && b[8] == g[2] / 0x2000 % 256
    && b[9] == g[2] / 0x200000 + 32 * (g[3] % 8) && b[10] == g[3] / 0x8 % 256 && b[11] == g[3] / 0x800 % 256
    && b[12] == g[3] / 0x80000 + 64 * (g[4] % 4) && b[13] == g[4] / 0x4 % 256 && b[14] == g[4] / 0x400 % 256
    && b[15] == g[4] / 0x40000
  }

  lemma PackedLowParts(g: seq<int>, b: seq<byte>)
    requires |g| == 10 && (forall i :: 0 <= i < 10 ==> InRange(g[i], i)) && PackedLow(g, b)
    ensures PartsLow(g, b)
  {
    Ranges(g);
    JoinParts(g[0] / 0x1000000, g[1], 4, 64);
    JoinParts(g[1] / 0x400000, g[2], 8, 32);
    JoinParts(g[2] / 0x200000, g[3], 32, 8);
    JoinParts(g[3] / 0x80000, g[4], 64, 4);
  }

  lemma PackedLowValue(g: seq<int>, b: seq<byte>)
    requires |g| == 10 && (forall i :: 0 <= i < 10 ==> g[i] >= 0) && PartsLow(g, b)
    ensures Le16(b)
        == g[0] * 0x1 + g[1] * 0x4000000 + g[2] * 0x8000000000000 + g[3] * 0x20000000000000000000
        + g[4] * 0x40000000000000000000000000
  {
    Cut(g[0], 256);
    Cut(g[1], 64);
    Cut(g[2], 32);
    Cut(g[3], 8);
    Cut(g[4], 4);
  }

  /** Bytes 16 to 31 from limbs 5 to 9. */
  method StoreHigh(s: array<byte>, g: seq<int>)
    requires s.Length == 32 && |g| == 10 && forall i :: 0 <= i < 10 ==> InRange(g[i], i)
    modifies s
    ensures s[..16] == old(s[..16])
    ensures PackedHigh(g, s[16..])
  {
    Ranges(g);
    s[16] := Mid(g[5], 1);
    s[17] := Mid(g[5], 0x100);
    s[18] := Mid(g[5], 0x10000);
    s[19] := Join(g[5] / 0x1000000, g[6], 2);
    s[20] := Mid(g[6], 0x80);
    s[21] := Mid(g[6], 0x8000);
    s[22] := Join(g[6] / 0x800000, g[7], 8);
    s[23] := Mid(g[7], 0x20);
    s[24] := Mid(g[7], 0x2000);
    s[25] := Join(g[7] / 0x200000, g[8], 16);
    s[26] := Mid(g[8], 0x10);
    s[27] := Mid(g[8], 0x1000);
    s[28] := Join(g[8] / 0x100000, g[9], 64);
    s[29] := Mid(g[9], 0x4);
    s[30] := Mid(g[9], 0x400);
    s[31] := g[9] / 0x40000;
  }

  ghost predicate PackedHigh(g: seq<int>, b: seq<byte>)
    requires |g| == 10 && forall i :: 0 <= i < 10 ==> InRange(g[i], i)
  {
    Ranges(g);
    && |b| == 16
    && b[0] == Mid(g[5], 1) && b[1] == Mid(g[5], 0x100) && b[2] == Mid(g[5], 0x10000)
    && b[3] == Join(g[5] / 0x1000000, g[6], 2) && b[4] == Mid(g[6], 0x80) && b[5] == Mid(g[6], 0x8000)
    && b[6] == Join(g[6] / 0x800000, g[7], 8) && b[7] == Mid(g[7], 0x20) && b[8] == Mid(g[7], 0x2000)
    && b[9] == Join(g[7] / 0x200000, g[8], 16) && b[10] == Mid(g[8], 0x10) && b[11] == Mid(g[8], 0x1000)
    && b[12] == Join(g[8] / 0x100000, g[9], 64) && b[13] == Mid(g[9], 0x4) && b[14] == Mid(g[9], 0x400)
    && b[15] == g[9] / 0x40000
  }

  ghost predicate PartsHigh(g: seq<int>, b: seq<byte>)
    requires |g| == 10
  {
    && |b| == 16
    && b[0] == g[5] % 256 && b[1] == g[5] / 0x100 % 256 && b[2] == g[5] / 0x10000 % 256
    && b[3] == g[5] / 0x1000000 + 2 * (g[6] % 128) && b[4] == g[6] / 0x80 % 256 && b[5] == g[6] / 0x8000 % 256
    && b[6] == g[6] / 0x800000 + 8 * (g[7] % 32) && b[7] == g[7] / 0x20 % 256 && b[8] == g[7] / 0x2000 % 256
    && b[9] == g[7] / 0x200000 + 16 * (g[8] % 16) && b[10] == g[8] / 0x10 % 256 && b[11] == g[8] / 0x1000 % 256
    && b[12] == g[8] / 0x100000 + 64 * (g[9] % 4) && b[13] == g[9] / 0x4 % 256 && b[14] == g[9] / 0x400 % 256
    && b[15] == g[9] / 0x40000
  }

  lemma PackedHighParts(g: seq<int>, b: seq<byte>)
    requires |g| == 10 && (forall i :: 0 <= i < 10 ==> InRange(g[i], i)) && PackedHigh(g, b)
    ensures PartsHigh(g, b)
  {
    Ranges(g);
    JoinParts(g[5] / 0x1000000, g[6], 2, 128);
    JoinParts(g[6] / 0x800000, g[7], 8, 32);
    JoinParts(g[7] / 0x200000, g[8], 16, 16);
    JoinParts(g[8] / 0x100000, g[9], 64, 4);
  }

  lemma PackedHighValue(g: seq<int>, b: seq<byte>)
    requires |g| == 10 && (forall i :: 0 <= i < 10 ==> g[i] >= 0) && PartsHigh(g, b)
    ensures Le16(b)
        == g[5] * 0x1 + g[6] * 0x2000000 + g[7] * 0x8000000000000 + g[8] * 0x10000000000000000000
        + g[9] * 0x40000000000000000000000000
  {
    Cut(g[5], 256);
    Cut(g[6], 128);
    Cut(g[7], 32);
    Cut(g[8], 16);
    Cut(g[9], 4);
  }

  lemma Ranges(g: seq<int>)
    requires |g| == 10 && forall i :: 0 <= i < 10 ==> InRange(g[i], i)
    ensures 0 <= g[0] < E26
    ensures 0 <= g[1] < E25
    ensures 0 <= g[2] < E26
    ensures 0 <= g[3] < E25
    ensures 0 <= g[4] < E26
    ensures 0 <= g[5] < E25
    ensures 0 <= g[6] < E26
    ensures 0 <= g[7] < E25
    ensures 0 <= g[8] < E26
    ensures 0 <= g[9] < E25
  {
    assert forall i :: 0 <= i < 10 ==> 0 <= g[i] < Radix(i);
  }

  lemma StoredValue(g: seq<int>, d: seq<byte>)
    requires |g| == 10 && (forall i :: 0 <= i < 10 ==> InRange(g[i], i))
    requires |d| == 32 && PackedLow(g, d[..16]) && PackedHigh(g, d[16..])
    ensures LeVal(d) == FeVal(g)
  {
    Ranges(g);
    PackedLowParts(g, d[..16]);
    PackedLowValue(g, d[..16]);
    PackedHighParts(g, d[16..]);
    PackedHighValue(g, d[16..]);
    ThirtyTwo(d);
    assert Le16(d) == Le16(d[..16]);
    FeValSum(g);
  }

  /** 32 bytes that spell the representative in [0, 2^255 - 19), as section 5.1.2 of RFC 8032 asks. */
  ghost predicate Encodes(s: seq<byte>, h: seq<int>)
    requires |h| == 10
  {
    |s| == 32 && LeVal(s) == FeVal(h) % P
  }

  /** fe_tobytes */
  method FeToBytes(s: array<byte>, h: seq<int>)
    requires s.Length == 32 && Reducible(h)
    modifies s
    ensures Encodes(s[..], h)
  {
    var q, c := Quotient(h);
    SmallLow(h);
    Bounds(h);
    QuotientExact(FeVal(h), h[9], c, q);
    var g := Normalise(h, q);
    StoreLow(s, g);
    ghost var low := s[..16];
    StoreHigh(s, g);
    assert s[..][..16] == low && s[..][16..] == s[16..];
    StoredValue(g, s[..]);
    QuotRem(FeVal(h), P, q, FeVal(g));
  }
}
