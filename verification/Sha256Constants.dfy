/** The constants of SHA-256 are what sections 4.2.2 and 5.3.3 of FIPS 180-4 say they are: roots of primes. */
module Sha256Constants {
  import opened Limbs
  import opened Sha256Spec
  import opened WordBits

  /** The constant of round t. */
  function Constant(t: nat): Word
    requires t < 64
  {
    match t
    case 0 => 0x428a2f98 case 1 => 0x71374491 case 2 => 0xb5c0fbcf case 3 => 0xe9b5dba5
    case 4 => 0x3956c25b case 5 => 0x59f111f1 case 6 => 0x923f82a4 case 7 => 0xab1c5ed5
    case 8 => 0xd807aa98 case 9 => 0x12835b01 case 10 => 0x243185be case 11 => 0x550c7dc3
    case 12 => 0x72be5d74 case 13 => 0x80deb1fe case 14 => 0x9bdc06a7 case 15 => 0xc19bf174
    case 16 => 0xe49b69c1 case 17 => 0xefbe4786 case 18 => 0x0fc19dc6 case 19 => 0x240ca1cc
    case 20 => 0x2de92c6f case 21 => 0x4a7484aa case 22 => 0x5cb0a9dc case 23 => 0x76f988da
    case 24 => 0x983e5152 case 25 => 0xa831c66d case 26 => 0xb00327c8 case 27 => 0xbf597fc7
    case 28 => 0xc6e00bf3 case 29 => 0xd5a79147 case 30 => 0x06ca6351 case 31 => 0x14292967
    case 32 => 0x27b70a85 case 33 => 0x2e1b2138 case 34 => 0x4d2c6dfc case 35 => 0x53380d13
    case 36 => 0x650a7354 case 37 => 0x766a0abb case 38 => 0x81c2c92e case 39 => 0x92722c85
    case 40 => 0xa2bfe8a1 case 41 => 0xa81a664b case 42 => 0xc24b8b70 case 43 => 0xc76c51a3
    case 44 => 0xd192e819 case 45 => 0xd6990624 case 46 => 0xf40e3585 case 47 => 0x106aa070
    case 48 => 0x19a4c116 case 49 => 0x1e376c08 case 50 => 0x2748774c case 51 => 0x34b0bcb5
    case 52 => 0x391c0cb3 case 53 => 0x4ed8aa4a case 54 => 0x5b9cca4f case 55 => 0x682e6ff3
    case 56 => 0x748f82ee case 57 => 0x78a5636f case 58 => 0x84c87814 case 59 => 0x8cc70208
    case 60 => 0x90befffa case 61 => 0xa4506ceb case 62 => 0xbef9a3f7 case _ => 0xc67178f2
  }

  function Constants(n: nat): (k: seq<Word>)
    requires n <= 64
    ensures |k| == n && forall t :: 0 <= t < n ==> k[t] == Constant(t)
  {
    if n == 0 then [] else Constants(n - 1) + [Constant(n - 1)]
  }

  const ROUNDS: nat := 64
  const K: seq<Word> := Constants(ROUNDS)

  const INITIAL: Regs<Word> :=
    Regs(0x6a09e667, 0xbb67ae85, 0x3c6ef372, 0xa54ff53a, 0x510e527f, 0x9b05688c, 0x1f83d9ab, 0x5be0cd19)

  /** The first 64 primes. */
  function Prime(t: nat): nat
    requires t < 64
  {
    match t
    case 0 => 2 case 1 => 3 case 2 => 5 case 3 => 7 case 4 => 11 case 5 => 13 case 6 => 17
    case 7 => 19 case 8 => 23 case 9 => 29 case 10 => 31 case 11 => 37 case 12 => 41 case 13 => 43
    case 14 => 47 case 15 => 53 case 16 => 59 case 17 => 61 case 18 => 67 case 19 => 71 case 20 => 73
    case 21 => 79 case 22 => 83 case 23 => 89 case 24 => 97 case 25 => 101 case 26 => 103 case 27 => 107
    case 28 => 109 case 29 => 113 case 30 => 127 case 31 => 131 case 32 => 137 case 33 => 139 case 34 => 149
    case 35 => 151 case 36 => 157 case 37 => 163 case 38 => 167 case 39 => 173 case 40 => 179 case 41 => 181
    case 42 => 191 case 43 => 193 case 44 => 197 case 45 => 199 case 46 => 211 case 47 => 223 case 48 => 227
    case 49 => 229 case 50 => 233 case 51 => 239 case 52 => 241 case 53 => 251 case 54 => 257 case 55 => 263
    case 56 => 269 case 57 => 271 case 58 => 277 case 59 => 281 case 60 => 283 case 61 => 293 case 62 => 307
    case _ => 311
  }

  // ---- primes ----

  ghost predicate IsPrime(q: nat) {
    q >= 2 && forall d: nat :: 2 <= d < q ==> !Divides(d, q)
  }

  ghost predicate Divides(d: nat, q: nat) {
    exists k: nat :: k * d == q
  }

  /** The sieve for numbers below 19*19. */
  predicate Sifted(q: nat) {
    && q >= 2
    && (q % 2 == 0 ==> q == 2) && (q % 3 == 0 ==> q == 3) && (q % 5 == 0 ==> q == 5) && (q % 7 == 0 ==> q == 7)
    && (q % 11 == 0 ==> q == 11) && (q % 13 == 0 ==> q == 13) && (q % 17 == 0 ==> q == 17)
  }

  lemma DividesByMod(d: nat, q: nat)
    requires d > 0
    ensures Divides(d, q) <==> q % d == 0
  {
    if Divides(d, q) {
      var k: nat :| k * d == q;
      QuotRem(q, d, k, 0);
    } else if q % d == 0 {
      HiLo(d, q);
    }
  }

  lemma NotByMultiple(d: nat, q: nat)
    requires 1 < d < q && q % d == 0
    ensures !IsPrime(q)
  {
    DividesByMod(d, q);
  }

  lemma ModOfMultiple(q: nat, d: nat, s: nat)
    requires d > 0 && s > 0 && q % d == 0 && d % s == 0
    ensures q % s == 0
  {
    var k, l := q / d, d / s;
    HiLo(d, q);
    HiLo(s, d);
    Associate(k, l, s);
    QuotRem(q, s, k * l, 0);
  }

  /** The least prime factor of a number below 19. */
  function LeastFactor(d: nat): (s: nat)
    requires 2 <= d < 19
    ensures s in {2, 3, 5, 7, 11, 13, 17} && s <= d && d % s == 0
  {
    if d % 2 == 0 then 2 else if d % 3 == 0 then 3 else if d % 5 == 0 then 5 else d
  }

  /** A number that the sieve lets through has no smaller divisor up to 18. */
  lemma SmallDivisor(q: nat, d: nat)
    requires Sifted(q) && 2 <= d < 19 && d < q
    ensures !Divides(d, q)
  {
    DividesByMod(d, q);
    if q % d == 0 {
      ModOfMultiple(q, d, LeastFactor(d));
    }
  }

  lemma SiftedIsPrime(q: nat)
    requires Sifted(q) && q < 361
    ensures IsPrime(q)
  {
    forall d: nat | 2 <= d < q
      ensures !Divides(d, q)
    {
      if Divides(d, q) {
        var k: nat :| k * d == q;
        CoDivisor(q, d, k);
        assert Divides(k, q) by { assert d * k == q; }
        SmallDivisor(q, if d < 19 then d else k);
      }
    }
  }

  lemma CoDivisor(q: nat, d: nat, k: nat)
    requires k * d == q && 2 <= d < q < 361
    ensures 2 <= k < q && (d < 19 || k < 19)
  {
    if k >= 19 && d >= 19 {
      MulMono(19, k, d);
      MulMono(19, d, 19);
    }
    if k < 2 {
      MulMono(k, 1, d);
    }
    MulMono(2, d, k);
  }

  lemma PrimeIsSifted(q: nat)
    requires IsPrime(q)
    ensures Sifted(q)
  {
    forall s | s in {2, 3, 5, 7, 11, 13, 17} && q % s == 0
      ensures q == s
    {
      if s < q {
        NotByMultiple(s, q);
      }
    }
  }

  /** Nothing between p and q passes the sieve. */
  predicate NoneBetween(p: nat, q: nat)
    decreases q - p
  {
    p + 1 >= q || (!Sifted(p + 1) && NoneBetween(p + 1, q))
  }

  lemma {:induction false} NoneIsNone(p: nat, q: nat, x: nat)
    requires NoneBetween(p, q) && p < x < q
    ensures !Sifted(x)
    decreases q - p
  {
    if x > p + 1 {
      NoneIsNone(p + 1, q, x);
    }
  }

  /** q is the next prime after p. */
  ghost predicate NextPrime(p: nat, q: nat) {
    p < q && IsPrime(q) && forall x: nat :: p < x < q ==> !IsPrime(x)
  }

  lemma NextIsPrime(p: nat, q: nat)
    requires p < q < 361 && Sifted(q) && NoneBetween(p, q)
    ensures NextPrime(p, q)
  {
    SiftedIsPrime(q);
    forall x: nat | p < x < q
      ensures !IsPrime(x)
    {
      NoneIsNone(p, q, x);
      if IsPrime(x) {
        PrimeIsSifted(x);
      }
    }
  }

  // ---- roots ----

  const TWO_64: nat := 0x1_0000_0000_0000_0000
  const TWO_96: nat := 0x1_0000_0000_0000_0000_0000_0000

  /** c + w/2^32 is the cube root of q, cut off after 32 bits. */
  predicate CubeRootOf(q: nat, c: nat, w: Word) {
    var x := c * TWO_32 + w;
    x * x * x <= q * TWO_96 < (x + 1) * (x + 1) * (x + 1)
  }

  /** c + w/2^32 is the square root of q, cut off after 32 bits. */
  predicate SquareRootOf(q: nat, c: nat, w: Word) {
    var x := c * TWO_32 + w;
    x * x <= q * TWO_64 < (x + 1) * (x + 1)
  }

  /** The t-th prime follows the one before it, or 1, and the t-th constant is the fraction of its cube root. */
  ghost predicate Entry(t: nat)
    requires t < 64
  {
    NextPrime(if t == 0 then 1 else Prime(t - 1), Prime(t)) && exists c: nat :: CubeRootOf(Prime(t), c, Constant(t))
  }

  /** What there is to compute for an entry. */
  lemma EntryHolds(t: nat, p: nat, q: nat, c: nat)
    requires t < 64 && p == (if t == 0 then 1 else Prime(t - 1)) && q == Prime(t)
    requires p < q < 361 && Sifted(q) && NoneBetween(p, q) && CubeRootOf(q, c, Constant(t))
    ensures Entry(t)
  {
    NextIsPrime(p, q);
  }

  lemma Entries0(t: nat)
    requires 0 <= t < 8
    ensures Entry(t)
  {
    match t
    case 0 => EntryHolds(0, 1, 2, 1);
    case 1 => EntryHolds(1, 2, 3, 1);
    case 2 => EntryHolds(2, 3, 5, 1);
    case 3 => EntryHolds(3, 5, 7, 1);
    case 4 => EntryHolds(4, 7, 11, 2);
    case 5 => EntryHolds(5, 11, 13, 2);
    case 6 => EntryHolds(6, 13, 17, 2);
    case _ => EntryHolds(7, 17, 19, 2);
  }

  lemma Entries1(t: nat)
    requires 8 <= t < 16
    ensures Entry(t)
  {
    match t
    case 8 => EntryHolds(8, 19, 23, 2);
    case 9 => EntryHolds(9, 23, 29, 3);
    case 10 => EntryHolds(10, 29, 31, 3);
    case 11 => EntryHolds(11, 31, 37, 3);
    case 12 => EntryHolds(12, 37, 41, 3);
    case 13 => EntryHolds(13, 41, 43, 3);
    case 14 => EntryHolds(14, 43, 47, 3);
    case _ => EntryHolds(15, 47, 53, 3);
  }

  lemma Entries2(t: nat)
    requires 16 <= t < 24
    ensures Entry(t)
  {
    match t
    case 16 => EntryHolds(16, 53, 59, 3);
    case 17 => EntryHolds(17, 59, 61, 3);
    case 18 => EntryHolds(18, 61, 67, 4);
    case 19 => EntryHolds(19, 67, 71, 4);
    case 20 => EntryHolds(20, 71, 73, 4);
    case 21 => EntryHolds(21, 73, 79, 4);
    case 22 => EntryHolds(22, 79, 83, 4);
    case _ => EntryHolds(23, 83, 89, 4);
  }

  lemma Entries3(t: nat)
    requires 24 <= t < 32
    ensures Entry(t)
  {
    match t
    case 24 => EntryHolds(24, 89, 97, 4);
    case 25 => EntryHolds(25, 97, 101, 4);
    case 26 => EntryHolds(26, 101, 103, 4);
    case 27 => EntryHolds(27, 103, 107, 4);
    case 28 => EntryHolds(28, 107, 109, 4);
    case 29 => EntryHolds(29, 109, 113, 4);
    case 30 => EntryHolds(30, 113, 127, 5);
    case _ => EntryHolds(31, 127, 131, 5);
  }

  lemma Entries4(t: nat)
    requires 32 <= t < 40
    ensures Entry(t)
  {
    match t
    case 32 => EntryHolds(32, 131, 137, 5);
    case 33 => EntryHolds(33, 137, 139, 5);
    case 34 => EntryHolds(34, 139, 149, 5);
    case 35 => EntryHolds(35, 149, 151, 5);
    case 36 => EntryHolds(36, 151, 157, 5);
    case 37 => EntryHolds(37, 157, 163, 5);
    case 38 => EntryHolds(38, 163, 167, 5);
    case _ => EntryHolds(39, 167, 173, 5);
  }

  lemma Entries5(t: nat)
    requires 40 <= t < 48
    ensures Entry(t)
  {
    match t
    case 40 => EntryHolds(40, 173, 179, 5);
    case 41 => EntryHolds(41, 179, 181, 5);
    case 42 => EntryHolds(42, 181, 191, 5);
    case 43 => EntryHolds(43, 191, 193, 5);
    case 44 => EntryHolds(44, 193, 197, 5);
    case 45 => EntryHolds(45, 197, 199, 5);
    case 46 => EntryHolds(46, 199, 211, 5);
    case _ => EntryHolds(47, 211, 223, 6);
  }

  lemma Entries6(t: nat)
    requires 48 <= t < 56
    ensures Entry(t)
  {
    match t
    case 48 => EntryHolds(48, 223, 227, 6);
    case 49 => EntryHolds(49, 227, 229, 6);
    case 50 => EntryHolds(50, 229, 233, 6);
    case 51 => EntryHolds(51, 233, 239, 6);
    case 52 => EntryHolds(52, 239, 241, 6);
    case 53 => EntryHolds(53, 241, 251, 6);
    case 54 => EntryHolds(54, 251, 257, 6);
    case _ => EntryHolds(55, 257, 263, 6);
  }

  lemma Entries7(t: nat)
    requires 56 <= t < 64
    ensures Entry(t)
  {
    match t
    case 56 => EntryHolds(56, 263, 269, 6);
    case 57 => EntryHolds(57, 269, 271, 6);
    case 58 => EntryHolds(58, 271, 277, 6);
    case 59 => EntryHolds(59, 277, 281, 6);
    case 60 => EntryHolds(60, 281, 283, 6);
    case 61 => EntryHolds(61, 283, 293, 6);
    case 62 => EntryHolds(62, 293, 307, 6);
    case _ => EntryHolds(63, 307, 311, 6);
  }

  /** K[t] is the first 32 bits of the fraction of the cube root of the t-th prime. */
  lemma {:induction false} KFromPrimes(t: nat)
    requires t < 64
    ensures NextPrime(if t == 0 then 1 else Prime(t - 1), Prime(t))
    ensures |K| == 64 && exists c: nat :: CubeRootOf(Prime(t), c, K[t])
  {
    if t < 8 {
      Entries0(t);
    } else if t < 16 {
      Entries1(t);
    } else if t < 24 {
      Entries2(t);
    } else if t < 32 {
      Entries3(t);
    } else if t < 40 {
      Entries4(t);
    } else if t < 48 {
      Entries5(t);
    } else if t < 56 {
      Entries6(t);
    } else {
      Entries7(t);
    }
  }

  /** The initial state: the first 32 bits of the fractions of the square roots of the first eight primes. */
  lemma {:induction false} InitialFromPrimes()
    ensures exists c: nat :: SquareRootOf(Prime(0), c, INITIAL.a)
    ensures exists c: nat :: SquareRootOf(Prime(1), c, INITIAL.b)
    ensures exists c: nat :: SquareRootOf(Prime(2), c, INITIAL.c)
    ensures exists c: nat :: SquareRootOf(Prime(3), c, INITIAL.d)
    ensures exists c: nat :: SquareRootOf(Prime(4), c, INITIAL.e)
    ensures exists c: nat :: SquareRootOf(Prime(5), c, INITIAL.f)
    ensures exists c: nat :: SquareRootOf(Prime(6), c, INITIAL.g)
    ensures exists c: nat :: SquareRootOf(Prime(7), c, INITIAL.h)
  {
    assert SquareRootOf(Prime(0), 1, INITIAL.a);
    assert SquareRootOf(Prime(1), 1, INITIAL.b);
    assert SquareRootOf(Prime(2), 2, INITIAL.c);
    assert SquareRootOf(Prime(3), 2, INITIAL.d);
    assert SquareRootOf(Prime(4), 3, INITIAL.e);
    assert SquareRootOf(Prime(5), 3, INITIAL.f);
    assert SquareRootOf(Prime(6), 4, INITIAL.g);
    assert SquareRootOf(Prime(7), 4, INITIAL.h);
  }
}
