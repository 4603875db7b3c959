/** Bytes to limbs of 21 bits and back (external/ref10/sc_reduce.c:37-60, 243-274). */
module ScBytes {
  import opened ByteStrings
  import opened LittleEndian
  import opened Limbs
  import opened BytePacking
  import opened ScLimbs

  /** Eight limbs from 21 bytes at o. */
  function Group(d: seq<byte>, o: nat): (s: seq<int>)
    requires o + 21 <= |d|
    ensures |s| == 8 && forall i :: 0 <= i < 8 ==> 0 <= s[i] < R
  {
    [Load3(d, o + 0) % R, Load4(d, o + 2) / 32 % R, Load3(d, o + 5) / 4 % R,
     Load4(d, o + 7) / 128 % R, Load4(d, o + 10) / 16 % R, Load3(d, o + 13) / 2 % R,
     Load4(d, o + 15) / 64 % R, Load3(d, o + 18) / 8 % R]
  }

  lemma Limb0(b0: byte, b1: byte, b2: byte)
    ensures (b0 as int + 0x100 * b1 + 0x10000 * b2) % R == b0 + 0x100 * b1 + 0x10000 * (b2 % 32)
  {
    QuotRem(b0 as int + 0x100 * b1 as int + 0x10000 * b2 as int, R, b2 / 32, b0 + 0x100 * b1 + 0x10000 * (b2 % 32));
  }

  lemma Limb1(b0: byte, b1: byte, b2: byte, b3: byte)
    ensures (b0 as int + 0x100 * b1 + 0x10000 * b2 + 0x1000000 * b3) / 32 % R
        == b0 / 32 + 0x8 * b1 + 0x800 * b2 + 0x80000 * (b3 % 4)
  {
    QuotRem(b0 as int + 0x100 * b1 + 0x10000 * b2 + 0x1000000 * b3, 32,
      b0 as int / 32 + 0x8 * b1 as int + 0x800 * b2 as int + 0x80000 * b3 as int, b0 % 32);
    QuotRem(b0 as int / 32 + 0x8 * b1 as int + 0x800 * b2 as int + 0x80000 * b3 as int, R, b3 / 4,
      b0 / 32 + 0x8 * b1 + 0x800 * b2 + 0x80000 * (b3 % 4));
  }

  lemma Limb2(b0: byte, b1: byte, b2: byte)
    ensures (b0 as int + 0x100 * b1 + 0x10000 * b2) / 4 % R == b0 / 4 + 0x40 * b1 + 0x4000 * (b2 % 128)
  {
    QuotRem(b0 as int + 0x100 * b1 + 0x10000 * b2, 4, b0 as int / 4 + 0x40 * b1 as int + 0x4000 * b2 as int, b0 % 4);
    QuotRem(b0 as int / 4 + 0x40 * b1 as int + 0x4000 * b2 as int, R, b2 / 128,
      b0 / 4 + 0x40 * b1 + 0x4000 * (b2 % 128));
  }

  lemma Limb3(b0: byte, b1: byte, b2: byte, b3: byte)
    ensures (b0 as int + 0x100 * b1 + 0x10000 * b2 + 0x1000000 * b3) / 128 % R
        == b0 / 128 + 0x2 * b1 + 0x200 * b2 + 0x20000 * (b3 % 16)
  {
    QuotRem(b0 as int + 0x100 * b1 + 0x10000 * b2 + 0x1000000 * b3, 128,
      b0 as int / 128 + 0x2 * b1 as int + 0x200 * b2 as int + 0x20000 * b3 as int, b0 % 128);
    QuotRem(b0 as int / 128 + 0x2 * b1 as int + 0x200 * b2 as int + 0x20000 * b3 as int, R, b3 / 16,
      b0 / 128 + 0x2 * b1 + 0x200 * b2 + 0x20000 * (b3 % 16));
  }

  lemma Limb4(b0: byte, b1: byte, b2: byte, b3: byte)
    ensures (b0 as int + 0x100 * b1 + 0x10000 * b2 + 0x1000000 * b3) / 16 % R
        == b0 / 16 + 0x10 * b1 + 0x1000 * b2 + 0x100000 * (b3 % 2)
  {
    QuotRem(b0 as int + 0x100 * b1 + 0x10000 * b2 + 0x1000000 * b3, 16,
      b0 as int / 16 + 0x10 * b1 as int + 0x1000 * b2 as int + 0x100000 * b3 as int, b0 % 16);
    QuotRem(b0 as int / 16 + 0x10 * b1 as int + 0x1000 * b2 as int + 0x100000 * b3 as int, R, b3 / 2,
      b0 / 16 + 0x10 * b1 + 0x1000 * b2 + 0x100000 * (b3 % 2));
  }

  lemma Limb5(b0: byte, b1: byte, b2: byte)
    ensures (b0 as int + 0x100 * b1 + 0x10000 * b2) / 2 % R == b0 / 2 + 0x80 * b1 + 0x8000 * (b2 % 64)
  {
    QuotRem(b0 as int + 0x100 * b1 + 0x10000 * b2, 2, b0 as int / 2 + 0x80 * b1 as int + 0x8000 * b2 as int, b0 % 2);
    QuotRem(b0 as int / 2 + 0x80 * b1 as int + 0x8000 * b2 as int, R, b2 / 64, b0 / 2 + 0x80 * b1 + 0x8000 * (b2 % 64));
  }

  lemma Limb6(b0: byte, b1: byte, b2: byte, b3: byte)
    ensures (b0 as int + 0x100 * b1 + 0x10000 * b2 + 0x1000000 * b3) / 64 % R
        == b0 / 64 + 0x4 * b1 + 0x400 * b2 + 0x40000 * (b3 % 8)
  {
    QuotRem(b0 as int + 0x100 * b1 + 0x10000 * b2 + 0x1000000 * b3, 64,
      b0 as int / 64 + 0x4 * b1 as int + 0x400 * b2 as int + 0x40000 * b3 as int, b0 % 64);
    QuotRem(b0 as int / 64 + 0x4 * b1 as int + 0x400 * b2 as int + 0x40000 * b3 as int, R, b3 / 8,
      b0 / 64 + 0x4 * b1 + 0x400 * b2 + 0x40000 * (b3 % 8));
  }

  lemma Limb7(b0: byte, b1: byte, b2: byte)
    ensures (b0 as int + 0x100 * b1 + 0x10000 * b2) / 8 % R == b0 / 8 + 0x20 * b1 + 0x2000 * b2
  {
    QuotRem(b0 as int + 0x100 * b1 + 0x10000 * b2, 8, b0 as int / 8 + 0x20 * b1 as int + 0x2000 * b2 as int, b0 % 8);
  }

  ghost function Le10(d: seq<byte>): int
    requires |d| >= 10
  {
    d[0] as int * 0x1 + d[1] as int * 0x100 + d[2] as int * 0x10000 + d[3] as int * 0x1000000
    + d[4] as int * 0x100000000 + d[5] as int * 0x10000000000 + d[6] as int * 0x1000000000000
      + d[7] as int * 0x100000000000000
    + d[8] as int * 0x10000000000000000 + d[9] as int * 0x1000000000000000000
  }

  ghost function Le11(d: seq<byte>): int
    requires |d| >= 11
  {
    d[0] as int * 0x1 + d[1] as int * 0x100 + d[2] as int * 0x10000 + d[3] as int * 0x1000000
    + d[4] as int * 0x100000000 + d[5] as int * 0x10000000000 + d[6] as int * 0x1000000000000
      + d[7] as int * 0x100000000000000
    + d[8] as int * 0x10000000000000000 + d[9] as int * 0x1000000000000000000 + d[10] as int * 0x100000000000000000000
  }

  lemma {:induction false} Ten(d: seq<byte>)
    requires |d| >= 10
    ensures LeVal(d) == Le10(d) + 0x100000000000000000000 * LeVal(d[10..])
  {
    Four(d);
    Four(d[4..]);
    LeTail(d[8..]);
    LeTail(d[9..]);
    assert d[4..][4..] == d[8..] && d[8..][1..] == d[9..] && d[9..][1..] == d[10..];
  }

  lemma {:induction false} Eleven(d: seq<byte>)
    requires |d| >= 11
    ensures LeVal(d) == Le11(d) + 0x10000000000000000000000 * LeVal(d[11..])
  {
    Ten(d);
    LeTail(d[10..]);
    assert d[10..][1..] == d[11..];
  }

  lemma {:induction false} TwentyOne(d: seq<byte>)
    requires |d| >= 21
    ensures LeVal(d)
        == Le10(d) + 0x100000000000000000000 * Le11(d[10..])
        + 0x1000000000000000000000000000000000000000000 * LeVal(d[21..])
  {
    Ten(d);
    Eleven(d[10..]);
    assert d[10..][11..] == d[21..];
  }

  lemma FirstFour(d: seq<byte>)
    requires |d| >= 21
    ensures Low(Group(d, 0), 4) == Le10(d) + 0x100000000000000000000 * (d[10] as int % 16)
  {
    var g := Group(d, 0);
    LowSum4(g);
    FirstParts(d);
    FirstSum(d, g, d[2] % 32, d[2] / 32, d[5] % 4, d[5] / 4, d[7] % 128, d[7] / 128, d[10] % 16);
  }

  lemma FirstParts(d: seq<byte>)
    requires |d| >= 21
    ensures var g := Group(d, 0);
      && g[0] == d[0] as int + 0x100 * d[1] as int + 0x10000 * (d[2] as int % 32)
      && g[1] == d[2] as int / 32 + 8 * d[3] as int + 0x800 * d[4] as int + 0x80000 * (d[5] as int % 4)
      && g[2] == d[5] as int / 4 + 0x40 * d[6] as int + 0x4000 * (d[7] as int % 128)
      && g[3] == d[7] as int / 128 + 2 * d[8] as int + 0x200 * d[9] as int + 0x20000 * (d[10] as int % 16)
  {
    Limb0(d[0], d[1], d[2]);
    Limb1(d[2], d[3], d[4], d[5]);
    Limb2(d[5], d[6], d[7]);
    Limb3(d[7], d[8], d[9], d[10]);
  }

  lemma FirstSum(d: seq<byte>, g: seq<int>, l2: int, h2: int, l5: int, h5: int, l7: int, h7: int, l10: int)
    requires |d| >= 11 && |g| == 8 && d[2] == l2 + 32 * h2 && d[5] == l5 + 4 * h5 && d[7] == l7 + 128 * h7
    requires g[0] == d[0] as int + 0x100 * d[1] as int + 0x10000 * l2
    requires g[1] == h2 + 8 * d[3] as int + 0x800 * d[4] as int + 0x80000 * l5
    requires g[2] == h5 + 0x40 * d[6] as int + 0x4000 * l7
    requires g[3] == h7 + 2 * d[8] as int + 0x200 * d[9] as int + 0x20000 * l10
    ensures g[0] * 0x1 + g[1] * 0x200000 + g[2] * 0x40000000000 + g[3] * 0x8000000000000000
        == Le10(d) + 0x100000000000000000000 * l10
  {
  }

  lemma LastFour(d: seq<byte>)
    requires |d| >= 21
    ensures 16 * Low(Group(d, 0)[4..], 4) + d[10] as int % 16 == Le11(d[10..])
  {
    var g := Group(d, 0)[4..];
    LowSum4(g);
    LastParts(d);
    LastSum(d[10..], g, d[10] % 16, d[10] / 16, d[13] % 2, d[13] / 2, d[15] % 64, d[15] / 64, d[18] % 8, d[18] / 8);
  }

  lemma LastParts(d: seq<byte>)
    requires |d| >= 21
    ensures var g := Group(d, 0);
      && g[4] == d[10] as int / 16 + 0x10 * d[11] as int + 0x1000 * d[12] as int + 0x100000 * (d[13] as int % 2)
      && g[5] == d[13] as int / 2 + 0x80 * d[14] as int + 0x8000 * (d[15] as int % 64)
      && g[6] == d[15] as int / 64 + 4 * d[16] as int + 0x400 * d[17] as int + 0x40000 * (d[18] as int % 8)
      && g[7] == d[18] as int / 8 + 0x20 * d[19] as int + 0x2000 * d[20] as int
  {
    Limb4(d[10], d[11], d[12], d[13]);
    Limb5(d[13], d[14], d[15]);
    Limb6(d[15], d[16], d[17], d[18]);
    Limb7(d[18], d[19], d[20]);
  }

  lemma LastSum(d: seq<byte>, g: seq<int>, l0: int, h0: int, l3: int, h3: int, l5: int, h5: int, l8: int, h8: int)
    requires |d| >= 11 && |g| == 4 && d[0] == l0 + 16 * h0 && d[3] == l3 + 2 * h3 && d[5] == l5 + 64 * h5
    requires d[8] == l8 + 8 * h8
    requires g[0] == h0 + 0x10 * d[1] as int + 0x1000 * d[2] as int + 0x100000 * l3
    requires g[1] == h3 + 0x80 * d[4] as int + 0x8000 * l5
    requires g[2] == h5 + 4 * d[6] as int + 0x400 * d[7] as int + 0x40000 * l8
    requires g[3] == h8 + 0x20 * d[9] as int + 0x2000 * d[10] as int
    ensures 16 * (g[0] * 0x1 + g[1] * 0x200000 + g[2] * 0x40000000000 + g[3] * 0x8000000000000000) + l0 == Le11(d)
  {
  }

  lemma GroupLe(d: seq<byte>)
    requires |d| >= 21
    ensures LeVal(d) == Low(Group(d, 0), 8) + 0x1000000000000000000000000000000000000000000 * LeVal(d[21..])
  {
    var g := Group(d, 0);
    FirstFour(d);
    LastFour(d);
    assert g == g[..4] + g[4..];
    LowConcat(g[..4], g[4..], 4);
    LowFrame(g, g[..4], 4);
    SmallWeights();
    TwentyOne(d);
  }

  lemma LowSum4(s: seq<int>)
    requires |s| >= 4
    ensures Low(s, 4) == s[0] * 0x1 + s[1] * 0x200000 + s[2] * 0x40000000000 + s[3] * 0x8000000000000000
  {
    SmallWeights();
    assert Low(s, 1) == Low(s, 0) + s[0] * 0x1;
    assert Low(s, 2) == Low(s, 1) + s[1] * 0x200000;
    assert Low(s, 3) == Low(s, 2) + s[2] * 0x40000000000;
    assert Low(s, 4) == Low(s, 3) + s[3] * 0x8000000000000000;
  }

  lemma {:induction false} LowConcat(a: seq<int>, b: seq<int>, n: nat)
    requires n <= |b|
    ensures Low(a + b, |a| + n) == Low(a, |a|) + Weight(|a|) * Low(b, n)
  {
    if n == 0 {
      LowFrame(a + b, a, |a|);
    } else {
      LowConcat(a, b, n - 1);
      WeightAdd(|a|, n - 1);
      assert (a + b)[|a| + n - 1] == b[n - 1];
      var u, v, x := Weight(|a|), Weight(n - 1), b[n - 1];
      assert x * (u * v) == u * (x * v);
      Distribute(Low(b, n - 1), x * v, u);
    }
  }

  lemma {:induction false} LowFrame(s: seq<int>, t: seq<int>, n: nat)
    requires n <= |s| && n <= |t| && forall i :: 0 <= i < n ==> s[i] == t[i]
    ensures Low(s, n) == Low(t, n)
  {
    if n > 0 {
      LowFrame(s, t, n - 1);
    }
  }

  /** The 24 limbs of lines 37-60; the last one is not masked and takes byte 63 too. */
  function Loaded(d: seq<byte>): (s: seq<int>)
    requires |d| == 64
    ensures |s| == 24 && (forall i :: 0 <= i < 23 ==> 0 <= s[i] < R) && 0 <= s[23] < 0x20000000
  {
    Group(d, 0) + Group(d, 21) + Group(d, 42)[..7] + [Load4(d, 60) / 8]
  }

  lemma GroupShift(d: seq<byte>, o: nat)
    requires o + 21 <= |d|
    ensures Group(d, o) == Group(d[o..], 0)
  {
  }

  /** The last group: byte 63 counts at weight 2^168. */
  lemma LastGroup(d: seq<byte>)
    requires |d| == 22
    ensures Low(Group(d, 0)[..7] + [Load4(d, 18) / 8], 8) == LeVal(d)
  {
    var g := Group(d, 0);
    var x := Load4(d, 18) / 8;
    assert g[..7] + [x] == g[7 := x];
    LowUpdate(g, 8, 7, x);
    SmallWeights();
    GroupLe(d);
    LeTail(d[21..]);
    assert LeVal(d[21..][1..]) == 0;
    Limb7(d[18], d[19], d[20]);
    QuotRem(Load4(d, 18), 8, d[18] as int / 8 + 0x20 * d[19] as int + 0x2000 * d[20] as int + 0x200000 * d[21] as int,
      d[18] % 8);
  }

  lemma LoadedValue(d: seq<byte>)
    requires |d| == 64
    ensures ScVal(Loaded(d)) == LeVal(d)
  {
    var d1, d2 := d[21..], d[42..];
    assert d1[21..] == d2;
    var g0, g1, g2 := Group(d, 0), Group(d1, 0), Group(d2, 0)[..7] + [Load4(d2, 18) / 8];
    GroupShift(d, 21);
    GroupShift(d, 42);
    assert Loaded(d) == g0 + (g1 + g2);
    LowConcat(g0, g1 + g2, 16);
    LowConcat(g1, g2, 8);
    SmallWeights();
    GroupLe(d);
    GroupLe(d1);
    LastGroup(d2);
  }

  // ---- stores ----

  /** Ten bytes from four limbs, without the bits of the last one from 2^17 on. */
  ghost predicate FourBytes(d: seq<byte>, a: nat, b: nat, c: nat, e: nat)
    requires a < R && b < R && c < R
  {
    && |d| >= 10
    && d[0] == Mid(a, 1)
    && d[1] == Mid(a, 0x100)
    && d[2] == Join(a / 0x10000, b, 32)
    && d[3] == Mid(b, 8)
    && d[4] == Mid(b, 0x800)
    && d[5] == Join(b / 0x80000, c, 4)
    && d[6] == Mid(c, 64)
    && d[7] == Join(c / 0x4000, e, 128)
    && d[8] == Mid(e, 2)
    && d[9] == Mid(e, 0x200)
  }

  /** Eleven bytes from those bits of a limb and the four limbs above it. */
  ghost predicate RestBytes(d: seq<byte>, top: nat, a: nat, b: nat, c: nat, e: nat)
    requires top < 16 && a < R && b < R && c < R && e < R
  {
    && |d| >= 11
    && d[0] == Join(top, a, 16)
    && d[1] == Mid(a, 16)
    && d[2] == Mid(a, 0x1000)
    && d[3] == Join(a / 0x100000, b, 2)
    && d[4] == Mid(b, 128)
    && d[5] == Join(b / 0x8000, c, 64)
    && d[6] == Mid(c, 4)
    && d[7] == Mid(c, 0x400)
    && d[8] == Join(c / 0x40000, e, 8)
    && d[9] == Mid(e, 32)
    && d[10] == Mid(e, 0x2000)
  }

  method StoreFour(s: array<byte>, o: nat, a: nat, b: nat, c: nat, e: nat)
    requires o + 10 <= s.Length && a < R && b < R && c < R
    modifies s
    ensures FourBytes(s[o..], a, b, c, e)
    ensures forall j :: 0 <= j < s.Length && !(o <= j < o + 10) ==> s[j] == old(s[j])
  {
    s[o] := Mid(a, 1);
    s[o + 1] := Mid(a, 0x100);
    s[o + 2] := Join(a / 0x10000, b, 32);
    s[o + 3] := Mid(b, 8);
    s[o + 4] := Mid(b, 0x800);
    s[o + 5] := Join(b / 0x80000, c, 4);
    s[o + 6] := Mid(c, 64);
    s[o + 7] := Join(c / 0x4000, e, 128);
    s[o + 8] := Mid(e, 2);
    s[o + 9] := Mid(e, 0x200);
  }

  method StoreRest(s: array<byte>, o: nat, top: nat, a: nat, b: nat, c: nat, e: nat)
    requires o + 11 <= s.Length && top < 16 && a < R && b < R && c < R && e < R
    modifies s
    ensures RestBytes(s[o..], top, a, b, c, e)
    ensures forall j :: 0 <= j < s.Length && !(o <= j < o + 11) ==> s[j] == old(s[j])
  {
    s[o] := Join(top, a, 16);
    s[o + 1] := Mid(a, 16);
    s[o + 2] := Mid(a, 0x1000);
    s[o + 3] := Join(a / 0x100000, b, 2);
    s[o + 4] := Mid(b, 128);
    s[o + 5] := Join(b / 0x8000, c, 64);
    s[o + 6] := Mid(c, 4);
    s[o + 7] := Mid(c, 0x400);
    s[o + 8] := Join(c / 0x40000, e, 8);
    s[o + 9] := Mid(e, 32);
    s[o + 10] := Mid(e, 0x2000);
  }

  lemma FourBytesValue(d: seq<byte>, a: nat, b: nat, c: nat, e: nat)
    requires a < R && b < R && c < R && FourBytes(d, a, b, c, e)
    ensures Le10(d) + 0x100000000000000000000 * (e / 0x20000)
        == a + b * 0x200000 + c * 0x40000000000 + e * 0x8000000000000000
  {
    JoinParts(a / 0x10000, b, 32, 8);
    JoinParts(b / 0x80000, c, 4, 64);
    JoinParts(c / 0x4000, e, 128, 2);
    FourBytesSum(d, a, b, c, e);
  }

  lemma FourBytesSum(d: seq<byte>, a: nat, b: nat, c: nat, e: nat)
    requires |d| >= 10
    requires d[0] == a % 256 && d[1] == a / 0x100 % 256 && d[2] == a / 0x10000 + 32 * (b % 8)
    requires d[3] == b / 8 % 256 && d[4] == b / 0x800 % 256 && d[5] == b / 0x80000 + 4 * (c % 64)
    requires d[6] == c / 64 % 256 && d[7] == c / 0x4000 + 128 * (e % 2)
    requires d[8] == e / 2 % 256 && d[9] == e / 0x200 % 256
    ensures Le10(d) + 0x100000000000000000000 * (e / 0x20000)
        == a + b * 0x200000 + c * 0x40000000000 + e * 0x8000000000000000
  {
    Cut(a, 1);
    Cut(b, 8);
    CutOne(c, 64);
    Cut(e, 2);
  }

  lemma RestBytesValue(d: seq<byte>, top: nat, a: nat, b: nat, c: nat, e: nat)
    requires top < 16 && a < R && b < R && c < R && e < R && RestBytes(d, top, a, b, c, e)
    ensures Le11(d) == top + a * 0x10 + b * 0x2000000 + c * 0x400000000000 + e * 0x80000000000000000
  {
    RestBytesParts(d, top, a, b, c, e);
    Cut(a, 16);
    CutOne(b, 128);
    Cut(c, 4);
    CutOne(e, 32);
    RestBytesSum(d, top, a % 16, a / 0x100000, b % 128, b / 0x8000, c % 4, c / 0x40000, e % 32);
  }

  lemma RestBytesParts(d: seq<byte>, top: nat, a: nat, b: nat, c: nat, e: nat)
    requires top < 16 && a < R && b < R && c < R && e < R && RestBytes(d, top, a, b, c, e)
    ensures d[0] == top + 16 * (a % 16) && d[3] == a / 0x100000 + 2 * (b % 128)
    ensures d[5] == b / 0x8000 + 64 * (c % 4) && d[8] == c / 0x40000 + 8 * (e % 32) && d[10] == e / 0x2000
  {
    JoinParts(top, a, 16, 16);
    JoinParts(a / 0x100000, b, 2, 128);
    JoinParts(b / 0x8000, c, 64, 4);
    JoinParts(c / 0x40000, e, 8, 32);
    LastByte(e);
  }

  lemma LastByte(e: nat)
    requires e < R
    ensures e / 0x2000 % 256 == e / 0x2000
  {
  }

  lemma RestBytesSum(d: seq<byte>, top: int, a0: int, a3: int, b0: int, b2: int, c0: int, c3: int, e0: int)
    requires |d| >= 11 && d[0] == top + 16 * a0 && d[3] == a3 + 2 * b0 && d[5] == b2 + 64 * c0 && d[8] == c3 + 8 * e0
    ensures Le11(d) == top
      + 0x10 * (a0 + 16 * d[1] as int + 0x1000 * d[2] as int + 0x100000 * a3)
      + 0x2000000 * (b0 + 128 * d[4] as int + 0x8000 * b2)
      + 0x400000000000 * (c0 + 4 * d[6] as int + 0x400 * d[7] as int + 0x40000 * c3)
      + 0x80000000000000000 * (e0 + 32 * d[9] as int + 0x2000 * d[10] as int)
  {
  }
}
