/** Bitwise operations on words of 32 bits, as functions of their bits. */
module WordBits {
  import opened Limbs
  import opened LittleEndian

  const WIDTH: nat := 32
  const TWO_32: int := 0x1_0000_0000

  type Word = x: int | 0 <= x < TWO_32

  function Bit(b: bool): nat {
    if b then 1 else 0
  }

  /** Combines n bits of x and y, the lowest first. */
  function Bits(f: (bool, bool) -> bool, n: nat, x: nat, y: nat): nat {
    if n == 0 then 0 else Bit(f(x % 2 == 1, y % 2 == 1)) + 2 * Bits(f, n - 1, x / 2, y / 2)
  }

  lemma {:induction false} BitsBound(f: (bool, bool) -> bool, n: nat, x: nat, y: nat)
    ensures Bits(f, n, x, y) < Pow(2, n)
  {
    if n > 0 {
      BitsBound(f, n - 1, x / 2, y / 2);
    }
  }

  lemma TwoTo32()
    ensures Pow(2, WIDTH) == TWO_32
  {
    Pow256(4);
    assert Pow(256, 4) == 256 * Pow(256, 3);
  }

  const AND: (bool, bool) -> bool := (a, b) => a && b
  const OR: (bool, bool) -> bool := (a, b) => a || b
  const XOR: (bool, bool) -> bool := (a, b) => a != b
  const ANDNOT: (bool, bool) -> bool := (a, b) => !a && b

  lemma {:induction false} BitsTail(f: (bool, bool) -> bool, n: nat, x: nat, y: nat)
    requires n > 0
    ensures var r := Bits(f, n, x, y);
        (r % 2 == 1 <==> f(x % 2 == 1, y % 2 == 1)) && r / 2 == Bits(f, n - 1, x / 2, y / 2)
  {
  }

  /** (x & (y ^ z)) ^ z and (x & y) ^ (~x & z) */
  lemma {:induction false} ChBits(n: nat, x: nat, y: nat, z: nat)
    ensures Bits(XOR, n, Bits(AND, n, x, Bits(XOR, n, y, z)), z)
        == Bits(XOR, n, Bits(AND, n, x, y), Bits(ANDNOT, n, x, z))
  {
    if n > 0 {
      ChBits(n - 1, x / 2, y / 2, z / 2);
      var yz := Bits(XOR, n, y, z);
      BitsTail(XOR, n, y, z);
      BitsTail(AND, n, x, yz);
      BitsTail(AND, n, x, y);
      BitsTail(ANDNOT, n, x, z);
    }
  }

  /** (x & (y | z)) | (y & z) and (x & y) ^ (x & z) ^ (y & z) */
  lemma {:induction false} MajBits(n: nat, x: nat, y: nat, z: nat)
    ensures Bits(OR, n, Bits(AND, n, x, Bits(OR, n, y, z)), Bits(AND, n, y, z))
         == Bits(XOR, n, Bits(XOR, n, Bits(AND, n, x, y), Bits(AND, n, x, z)), Bits(AND, n, y, z))
  {
    if n > 0 {
      MajBits(n - 1, x / 2, y / 2, z / 2);
      BitsTail(OR, n, y, z);
      BitsTail(AND, n, x, Bits(OR, n, y, z));
      BitsTail(AND, n, y, z);
      BitsTail(AND, n, x, y);
      BitsTail(AND, n, x, z);
      BitsTail(XOR, n, Bits(AND, n, x, y), Bits(AND, n, x, z));
    }
  }

  // ---- words ----

  function Bitwise(f: (bool, bool) -> bool, x: Word, y: Word): Word {
    TwoTo32();
    BitsBound(f, WIDTH, x, y);
    Bits(f, WIDTH, x, y)
  }

  function Xor3(x: Word, y: Word, z: Word): Word {
    Bitwise(XOR, Bitwise(XOR, x, y), z)
  }

  function Add(x: Word, y: Word): Word {
    (x + y) % TWO_32
  }

  lemma AddLaws(x: Word, y: Word, z: Word)
    ensures Add(Add(x, y), z) == Add(x, Add(y, z)) && Add(x, y) == Add(y, x)
  {
    AddOnce(x + y, z);
    AddOnce(y + z, x);
  }

  lemma AddOnce(a: nat, c: nat)
    ensures (a % TWO_32 + c) % TWO_32 == (a + c) % TWO_32
  {
  }

  /** The two parts of a turned word. */
  lemma {:induction false} Parts(x: Word, n: nat)
    requires n <= WIDTH
    ensures Pow(2, n) > 0 && Pow(2, WIDTH - n) > 0
    ensures 0 <= x / Pow(2, n) < Pow(2, WIDTH - n) && 0 <= x % Pow(2, n) < Pow(2, n)
    ensures Pow(2, n) * Pow(2, WIDTH - n) == TWO_32
  {
    TwoTo32();
    PowAdds(2, n, WIDTH - n);
    PowPositive(2, n);
    PowPositive(2, WIDTH - n);
    QuotientBelow(x, Pow(2, n), Pow(2, WIDTH - n));
  }

  lemma QuotientBelow(x: nat, m: nat, k: nat)
    requires m > 0 && x < m * k
    ensures 0 <= x / m < k && 0 <= x % m < m
  {
    HiLo(m, x);
    if k <= x / m {
      MulMono(k, x / m, m);
    }
  }

  lemma SumBelow(lo: nat, hi: nat, m: nat, k: nat)
    requires lo < k && hi < m
    ensures 0 <= lo + hi * k < m * k
  {
    MulMono(hi, m - 1, k);
    DistributeSub(m, 1, k);
    MulMono(0, hi, k);
  }

  /** A word turned right by n bits: the two parts have no bit in common, so that the or is a sum. */
  function Rotr(x: Word, n: nat): Word
    requires n <= WIDTH
  {
    Parts(x, n);
    SumBelow(x / Pow(2, n), x % Pow(2, n), Pow(2, n), Pow(2, WIDTH - n));
    x / Pow(2, n) + (x % Pow(2, n)) * Pow(2, WIDTH - n)
  }

  function Shr(x: Word, n: nat): Word
    requires n <= WIDTH
  {
    Parts(x, n);
    SumBelow(x / Pow(2, n), 0, Pow(2, n), Pow(2, WIDTH - n));
    x / Pow(2, n)
  }

  function Sum0(x: Word): Word {
    Xor3(Rotr(x, 2), Rotr(x, 13), Rotr(x, 22))
  }

  function Sum1(x: Word): Word {
    Xor3(Rotr(x, 6), Rotr(x, 11), Rotr(x, 25))
  }

  function Mix0(x: Word): Word {
    Xor3(Rotr(x, 7), Rotr(x, 18), Shr(x, 3))
  }

  function Mix1(x: Word): Word {
    Xor3(Rotr(x, 17), Rotr(x, 19), Shr(x, 10))
  }

  function Ch(x: Word, y: Word, z: Word): Word {
    Bitwise(XOR, Bitwise(AND, x, y), Bitwise(ANDNOT, x, z))
  }

  function Maj(x: Word, y: Word, z: Word): Word {
    Xor3(Bitwise(AND, x, y), Bitwise(AND, x, z), Bitwise(AND, y, z))
  }

  /** The forms of external/sha256/hash_sha256_cp.c:74-75. */
  function ChShort(x: Word, y: Word, z: Word): Word {
    Bitwise(XOR, Bitwise(AND, x, Bitwise(XOR, y, z)), z)
  }

  function MajShort(x: Word, y: Word, z: Word): Word {
    Bitwise(OR, Bitwise(AND, x, Bitwise(OR, y, z)), Bitwise(AND, y, z))
  }

  lemma ChSame(x: Word, y: Word, z: Word)
    ensures ChShort(x, y, z) == Ch(x, y, z)
  {
    ChBits(WIDTH, x, y, z);
  }

  lemma MajSame(x: Word, y: Word, z: Word)
    ensures MajShort(x, y, z) == Maj(x, y, z)
  {
    MajBits(WIDTH, x, y, z);
  }

  // ---- single bits ----

  /** Bit i of x. */
  predicate BitAt(x: nat, i: nat) {
    x / Pow2(i) % 2 == 1
  }

  function Pow2(i: nat): (p: nat)
    ensures p > 0
  {
    PowPositive(2, i);
    Pow(2, i)
  }

  lemma {:induction false} BitZero(x: nat)
    ensures BitAt(x, 0) <==> x % 2 == 1
  {
    assert Pow(2, 0) == 1;
  }

  lemma {:induction false} BitNext(x: nat, i: nat)
    ensures BitAt(x, i + 1) <==> BitAt(x / 2, i)
  {
    PowPositive(2, i);
    DivDiv(x, 2, Pow(2, i));
  }

  lemma {:induction false} BitOfBits(f: (bool, bool) -> bool, n: nat, x: nat, y: nat, i: nat)
    requires i < n
    ensures BitAt(Bits(f, n, x, y), i) == f(BitAt(x, i), BitAt(y, i))
  {
    BitsTail(f, n, x, y);
    if i == 0 {
      BitZero(x);
      BitZero(y);
      BitZero(Bits(f, n, x, y));
    } else {
      BitOfBits(f, n - 1, x / 2, y / 2, i - 1);
      BitNext(x, i - 1);
      BitNext(y, i - 1);
      BitNext(Bits(f, n, x, y), i - 1);
    }
  }

  lemma {:induction false} BitOfQuotient(x: nat, n: nat, i: nat)
    ensures Pow(2, n) > 0 && BitAt(x / Pow(2, n), i) == BitAt(x, i + n)
  {
    PowPositive(2, n);
    PowPositive(2, i);
    PowAdds(2, n, i);
    DivDiv(x, Pow(2, n), Pow(2, i));
  }

  /** lo below 2^n does not reach the bits of hi*2^n. */
  lemma {:induction false} BitOfSum(lo: nat, hi: nat, n: nat, i: nat)
    requires lo < Pow(2, n)
    ensures BitAt(lo + hi * Pow(2, n), i) == if i < n then BitAt(lo, i) else BitAt(hi, i - n)
  {
    if i < n {
      var P, H := Pow(2, i), Pow(2, n - 1 - i);
      PowPositive(2, i);
      PowAdds(2, i, n - i);
      assert Pow(2, n - i) == 2 * H;
      assert Pow(2, n) == P * (2 * H);
      EvenAbove(lo, hi, P, H);
    } else {
      QuotRem(lo + hi * Pow(2, n), Pow(2, n), hi, lo);
      BitOfQuotient(lo + hi * Pow(2, n), n, i - n);
    }
  }

  lemma EvenAbove(lo: nat, hi: nat, P: nat, H: nat)
    requires P > 0
    ensures (lo + hi * (P * (2 * H))) / P % 2 == lo / P % 2
  {
    var q, r := lo / P, lo % P;
    var k := hi * H;
    Associate(hi, P, 2 * H);
    Associate(P, hi, 2 * H);
    Associate(hi, 2, H);
    assert hi * (P * (2 * H)) == P * (2 * k);
    Distribute(q, 2 * k, P);
    QuotRem(lo + hi * (P * (2 * H)), P, q + 2 * k, r);
  }

  /** Exchanging the low n bits with the m above them. */
  lemma {:induction false} ExchangedBit(q: nat, r: nat, n: nat, m: nat, i: nat)
    requires q < Pow(2, m) && r < Pow(2, n) && i < m + n
    ensures BitAt(q + r * Pow(2, m), i) == BitAt(r + q * Pow(2, n), if i < m then i + n else i - m)
  {
    BitOfSum(q, r, m, i);
    BitOfSum(r, q, n, if i < m then i + n else i - m);
  }

  lemma Around(i: nat, n: nat)
    requires n <= WIDTH && i < WIDTH
    ensures (i + n) % WIDTH == if i < WIDTH - n then i + n else i - (WIDTH - n)
  {
  }

  /** Bit i of a word turned right by n is bit i + n, counted around. */
  lemma {:induction false} RotrBit(x: Word, n: nat, i: nat)
    requires n <= WIDTH && i < WIDTH
    ensures BitAt(Rotr(x, n), i) == BitAt(x, (i + n) % WIDTH)
  {
    Parts(x, n);
    HiLo(Pow(2, n), x);
    ExchangedBit(x / Pow(2, n), x % Pow(2, n), n, WIDTH - n, i);
    Around(i, n);
  }

  lemma {:induction false} ShrBit(x: Word, n: nat, i: nat)
    requires n <= WIDTH && i < WIDTH
    ensures BitAt(Shr(x, n), i) <==> i + n < WIDTH && BitAt(x, i + n)
  {
    BitOfQuotient(x, n, i);
    if i + n >= WIDTH {
      HighBit(x, i + n);
    }
  }

  lemma {:induction false} HighBit(x: Word, i: nat)
    requires i >= WIDTH
    ensures !BitAt(x, i)
  {
    TwoTo32();
    BitOfSum(x, 0, WIDTH, i);
    BitOfNothing(i - WIDTH);
  }

  lemma BitOfNothing(i: nat)
    ensures !BitAt(0, i)
  {
  }

  lemma BitOfBitwise(f: (bool, bool) -> bool, x: Word, y: Word, i: nat)
    requires i < WIDTH
    ensures BitAt(Bitwise(f, x, y), i) == f(BitAt(x, i), BitAt(y, i))
  {
    BitOfBits(f, WIDTH, x, y, i);
  }

  lemma BitOfXor3(x: Word, y: Word, z: Word, i: nat)
    requires i < WIDTH
    ensures BitAt(Xor3(x, y, z), i) == ((BitAt(x, i) != BitAt(y, i)) != BitAt(z, i))
  {
    BitOfBitwise(XOR, x, y, i);
    BitOfBitwise(XOR, Bitwise(XOR, x, y), z, i);
  }

  // ---- the functions of section 4.1.2 of FIPS 180-4, bit by bit ----

  ghost predicate Turned(x: Word, i: nat, n: nat) {
    BitAt(x, (i + n) % WIDTH)
  }

  lemma {:induction false} Sum0Bits(x: Word, i: nat)
    requires i < WIDTH
    ensures BitAt(Sum0(x), i) == ((Turned(x, i, 2) != Turned(x, i, 13)) != Turned(x, i, 22))
  {
    RotrBit(x, 2, i);
    RotrBit(x, 13, i);
    RotrBit(x, 22, i);
    BitOfXor3(Rotr(x, 2), Rotr(x, 13), Rotr(x, 22), i);
  }

  lemma {:induction false} Sum1Bits(x: Word, i: nat)
    requires i < WIDTH
    ensures BitAt(Sum1(x), i) == ((Turned(x, i, 6) != Turned(x, i, 11)) != Turned(x, i, 25))
  {
    RotrBit(x, 6, i);
    RotrBit(x, 11, i);
    RotrBit(x, 25, i);
    BitOfXor3(Rotr(x, 6), Rotr(x, 11), Rotr(x, 25), i);
  }

  lemma {:induction false} Mix0Bits(x: Word, i: nat)
    requires i < WIDTH
    ensures BitAt(Mix0(x), i) == ((Turned(x, i, 7) != Turned(x, i, 18)) != (i + 3 < WIDTH && BitAt(x, i + 3)))
  {
    RotrBit(x, 7, i);
    RotrBit(x, 18, i);
    ShrBit(x, 3, i);
    BitOfXor3(Rotr(x, 7), Rotr(x, 18), Shr(x, 3), i);
  }

  lemma {:induction false} Mix1Bits(x: Word, i: nat)
    requires i < WIDTH
    ensures BitAt(Mix1(x), i) == ((Turned(x, i, 17) != Turned(x, i, 19)) != (i + 10 < WIDTH && BitAt(x, i + 10)))
  {
    RotrBit(x, 17, i);
    RotrBit(x, 19, i);
    ShrBit(x, 10, i);
    BitOfXor3(Rotr(x, 17), Rotr(x, 19), Shr(x, 10), i);
  }

  /** Ch chooses between y and z, and Maj takes what two of the three have. */
  lemma {:induction false} ChoiceBits(x: Word, y: Word, z: Word, i: nat)
    requires i < WIDTH
    ensures BitAt(Ch(x, y, z), i) == if BitAt(x, i) then BitAt(y, i) else BitAt(z, i)
    ensures BitAt(Maj(x, y, z), i) == if BitAt(x, i) == BitAt(y, i) then BitAt(x, i) else BitAt(z, i)
  {
    BitOfBitwise(AND, x, y, i);
    BitOfBitwise(AND, x, z, i);
    BitOfBitwise(AND, y, z, i);
    BitOfBitwise(ANDNOT, x, z, i);
    BitOfBitwise(XOR, Bitwise(AND, x, y), Bitwise(ANDNOT, x, z), i);
    BitOfXor3(Bitwise(AND, x, y), Bitwise(AND, x, z), Bitwise(AND, y, z), i);
  }
}
