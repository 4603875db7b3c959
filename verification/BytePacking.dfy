/** Bytes cut from limbs and limbs put together from bytes, as external/ref10 does it. */
module BytePacking {
  import opened ByteStrings
  import opened LittleEndian
  import opened Limbs

  /** The shifted bytes have no bit in common, so that the or is a sum. */
  function Load3(d: seq<byte>, o: nat): nat
    requires o + 3 <= |d|
  {
    d[o] as int + 0x100 * d[o + 1] as int + 0x10000 * d[o + 2] as int
  }

  function Load4(d: seq<byte>, o: nat): nat
    requires o + 4 <= |d|
  {
    d[o] as int + 0x100 * d[o + 1] as int + 0x10000 * d[o + 2] as int + 0x1000000 * d[o + 3] as int
  }

  /** A value that crypto_int64 holds. */
  function I64(x: int): int
    requires -0x8000_0000_0000_0000 <= x < 0x8000_0000_0000_0000
  {
    x
  }

  lemma {:induction false} Four(d: seq<byte>)
    requires |d| >= 4
    ensures LeVal(d)
        == d[0] as int + 0x100 * d[1] as int + 0x10000 * d[2] as int + 0x1000000 * d[3] as int
        + 0x100000000 * LeVal(d[4..])
  {
    LeTail(d);
    LeTail(d[1..]);
    LeTail(d[2..]);
    LeTail(d[3..]);
    assert d[1..][1..] == d[2..] && d[2..][1..] == d[3..] && d[3..][1..] == d[4..];
  }

  /** (unsigned char)(x >> n) for d = 2^n */
  function Mid(x: nat, d: nat): byte
    requires d > 0
  {
    x / d % 256
  }

  /** (unsigned char)(top | (x << n)) for m = 2^n; below m the two have no bit in common, so that the or is a sum. */
  function Join(top: nat, x: nat, m: nat): byte
    requires top < m
  {
    (top + x * m) % 256
  }

  lemma JoinParts(top: nat, x: nat, m: nat, k: nat)
    requires m * k == 256 && top < m
    ensures k > 0 && Join(top, x, m) == top + m * (x % k)
  {
    HiLo(k, x);
    var q, r := x / k, x % k;
    Distribute(r, q * k, m);
    Associate(q, k, m);
    MulMono(r + 1, k, m);
    Distribute(r, 1, m);
    QuotRem(top + x * m, 256, q, top + m * r);
  }

  /** Cuts a limb: its low part, two bytes, and the rest. */
  lemma Cut(x: nat, m: nat)
    requires m > 0
    ensures x == x % m + m * (x / m % 256) + (256 * m) * (x / (256 * m) % 256) + (65536 * m) * (x / (65536 * m))
  {
    DivDiv(x, m, 256);
    DivDiv(x, m, 65536);
    assert m * 256 == 256 * m && m * 65536 == 65536 * m;
    HiLo(m, x);
    CutQuotient(x / m, m);
  }

  lemma CutQuotient(y: nat, m: nat)
    ensures y * m == m * (y % 256) + (256 * m) * (y / 256 % 256) + (65536 * m) * (y / 65536)
  {
    ThreeBytes(y);
    var a, b, c := y % 256, y / 256 % 256, y / 65536;
    Distribute(a + 256 * b, 65536 * c, m);
    Distribute(a, 256 * b, m);
    Associate(m, 256, b);
    Associate(m, 65536, c);
  }

  lemma ThreeBytes(y: nat)
    ensures y == y % 256 + 256 * (y / 256 % 256) + 65536 * (y / 65536)
  {
  }

  /** The same with a single byte in the middle. */
  lemma CutOne(x: nat, m: nat)
    requires m > 0
    ensures x == x % m + m * (x / m % 256) + (256 * m) * (x / (256 * m))
  {
    DivDiv(x, m, 256);
    assert m * 256 == 256 * m;
    var y := x / m;
    HiLo(m, x);
    assert y == y % 256 + 256 * (y / 256);
    Distribute(y % 256, 256 * (y / 256), m);
    Associate(m, 256, y / 256);
  }
}
