/**
 * The two Ed25519 scalar multiplications: external/ref10/ge_double_scalarmult.c:47-96
 * and external/ref10/ge_scalarmult_base.c:34-105.
 */
module EdMult {
  import opened ByteStrings
  import opened Limbs
  import opened LittleEndian
  import opened Groups
  import opened Slide

  // ---- aA + bB ----

  /** Odd multiples: P, 3P, 5P, ..., 15P. */
  ghost predicate OddTable<T>(G: Group<T>, table: seq<T>, P: T) {
    |table| == 8 && forall j :: 0 <= j < 8 ==> table[j] == Mul(G, 2 * j + 1, P)
  }

  method OddMultiples<T(!new)>(G: Group<T>, A: T) returns (table: seq<T>)
    requires Abelian(G)
    ensures OddTable(G, table, A)
  {
    MulOne(G, A);
    MulAdds(G, 1, 1, A);
    var A2 := G.add(A, A);
    table := [A];
    for j := 0 to 7
      invariant |table| == j + 1 && forall k :: 0 <= k <= j ==> table[k] == Mul(G, 2 * k + 1, A)
    {
      MulAdds(G, 2, 2 * j + 1, A);
      table := table + [G.add(A2, table[j])];
    }
  }

  /** t + d*P, by adding or subtracting a table entry. */
  method AddDigit<T(!new)>(G: Group<T>, t: T, table: seq<T>, d: int, ghost P: T) returns (r: T)
    requires Abelian(G) && OddTable(G, table, P) && IsDigit(d)
    ensures r == G.add(t, Mul(G, d, P))
  {
    MulOne(G, P);
    Laws(G, t, t, t);
    r := t;
    if d > 0 {
      r := G.add(r, table[d / 2]);
    } else if d < 0 {
      MulNegates(G, -d, P);
      r := G.add(r, G.neg(table[(-d) / 2]));
    }
  }

  /** One doubling and the two digits of position i. */
  lemma {:induction false} DoubleAndAdd<T(!new)>(G: Group<T>, A: T, B: T, x: int, y: int, da: int, db: int)
    requires Abelian(G)
    ensures var r := G.add(Mul(G, x, A), Mul(G, y, B));
            G.add(G.add(G.add(r, r), Mul(G, da, A)), Mul(G, db, B))
              == G.add(Mul(G, da + 2 * x, A), Mul(G, db + 2 * y, B))
  {
    var u, v := Mul(G, x, A), Mul(G, y, B);
    var p, q := Mul(G, da, A), Mul(G, db, B);
    Exchange(G, u, v, u, v);
    MulAdds(G, x, x, A);
    MulAdds(G, y, y, B);
    MulAdds(G, 2 * x, da, A);
    MulAdds(G, 2 * y, db, B);
    var uu, vv := Mul(G, 2 * x, A), Mul(G, 2 * y, B);
    Laws(G, G.add(uu, vv), p, q);
    Exchange(G, uu, vv, p, q);
  }

  /** The number that slide makes of a scalar: the scalar, less 2^256 where a carry leaves the top. */
  ghost function Taken(a: seq<byte>): int
    requires |a| == 32
  {
    LeVal(a) - Leaves(LeVal(a), BITS) * Pow(2, 256)
  }

  method SlideDigits(a: seq<byte>) returns (r: seq<int>)
    requires |a| == 32
    ensures |r| == 256 && Horner(r, 0) == Taken(a) && forall k :: 0 <= k < 256 ==> IsDigit(r[k])
  {
    var s := Recode(a);
    r := s[..];
    HornerIsSVal(r, 0);
    assert Pow(2, 0) == 1;
  }

  /** A scalar below 2^255 is taken in full. */
  lemma {:induction false} WholeScalar(a: seq<byte>)
    requires |a| == 32 && a[31] <= 127
    ensures Taken(a) == LeVal(a)
  {
    TopBitClear(a);
    LeavesNothing(LeVal(a), BITS - 1);
  }

  /** ge_double_scalarmult_vartime: a*A + b*B. A scalar whose top bit is clear is taken in full. */
  method DoubleScalarMult<T(!new)>(G: Group<T>, a: seq<byte>, A: T, b: seq<byte>, B: T, Bi: seq<T>) returns (r: T)
    requires Abelian(G) && |a| == 32 && |b| == 32 && OddTable(G, Bi, B)
    ensures r == G.add(Mul(G, Taken(a), A), Mul(G, Taken(b), B))
    ensures a[31] <= 127 && b[31] <= 127 ==> r == G.add(Mul(G, LeVal(a), A), Mul(G, LeVal(b), B))
  {
    var aslide := SlideDigits(a);
    var bslide := SlideDigits(b);
    var Ai := OddMultiples(G, A);
    var top := HighestDigit(aslide, bslide);
    r := FromTop(G, aslide, Ai, bslide, Bi, top, A, B);
    if a[31] <= 127 && b[31] <= 127 {
      WholeScalar(a);
      WholeScalar(b);
    }
  }

  /** The loop of lines 70-72: above the returned position all digits are zero. */
  method HighestDigit(aslide: seq<int>, bslide: seq<int>) returns (i: int)
    requires |aslide| == |bslide| == 256
    ensures -1 <= i < 256 && Horner(aslide, i + 1) == 0 && Horner(bslide, i + 1) == 0
  {
    i := 255;
    while i >= 0
      invariant -1 <= i <= 255
      invariant forall k :: i < k < 256 ==> aslide[k] == 0 && bslide[k] == 0
    {
      if aslide[i] != 0 || bslide[i] != 0 {
        break;
      }
      i := i - 1;
    }
    HornerZero(aslide, i + 1);
    HornerZero(bslide, i + 1);
  }

  /** The main loop, lines 74-95. */
  method FromTop<T(!new)>(
      G: Group<T>, aslide: seq<int>, Ai: seq<T>, bslide: seq<int>, Bi: seq<T>, top: int, ghost A: T, ghost B: T)
      returns (r: T)
    requires Abelian(G) && |aslide| == |bslide| == 256 && OddTable(G, Ai, A) && OddTable(G, Bi, B) && -1 <= top < 256
    requires forall k :: 0 <= k < 256 ==> IsDigit(aslide[k]) && IsDigit(bslide[k])
    requires Horner(aslide, top + 1) == 0 && Horner(bslide, top + 1) == 0
    ensures r == G.add(Mul(G, Horner(aslide, 0), A), Mul(G, Horner(bslide, 0), B))
  {
    r := G.zero;
    Laws(G, G.zero, G.zero, G.zero);
    var i := top;
    while i >= 0
      invariant -1 <= i <= 255
      invariant r == G.add(Mul(G, Horner(aslide, i + 1), A), Mul(G, Horner(bslide, i + 1), B))
    {
      DoubleAndAdd(G, A, B, Horner(aslide, i + 1), Horner(bslide, i + 1), aslide[i], bslide[i]);
      var t := G.add(r, r);
      t := AddDigit(G, t, Ai, aslide[i], A);
      r := AddDigit(G, t, Bi, bslide[i], B);
      i := i - 1;
    }
  }

  // ---- aB with precomputed multiples ----

  /** The integer that signed digits spell in base 16. */
  ghost function EVal(e: seq<int>, n: nat): int
    requires n <= |e|
  {
    if n == 0 then 0 else EVal(e, n - 1) + e[n - 1] * Pow(16, n - 1)
  }

  lemma {:induction false} EValFrame(e: seq<int>, f: seq<int>, n: nat)
    requires n <= |e| && n <= |f| && forall k :: 0 <= k < n ==> e[k] == f[k]
    ensures EVal(e, n) == EVal(f, n)
  {
    if n > 0 {
      EValFrame(e, f, n - 1);
    }
  }

  lemma {:induction false} EValUpdate(e: seq<int>, i: nat, x: int, n: nat)
    requires i < n <= |e|
    ensures EVal(e[i := x], n) == EVal(e, n) + (x - e[i]) * Pow(16, i)
  {
    if n - 1 == i {
      EValFrame(e, e[i := x], i);
      DistributeSub(x, e[i], Pow(16, i));
    } else {
      EValUpdate(e, i, x, n - 1);
    }
  }

  lemma {:induction false} Pow16Even(o: nat)
    ensures Pow(16, 2 * o) == Pow(256, o) && Pow(16, 2 * o + 1) == 16 * Pow(256, o)
  {
    if o > 0 {
      Pow16Even(o - 1);
      assert Pow(16, 2 * o) == 16 * Pow(16, 2 * (o - 1) + 1);
    }
  }

  /** Lines 74-77: two digits for each byte. */
  method Nibbles(a: seq<byte>) returns (e: array<int>)
    requires |a| == 32
    ensures fresh(e) && e.Length == 64 && (forall k :: 0 <= k < 64 ==> 0 <= e[k] <= 15)
    ensures e[63] == a[31] as int / 16 && EVal(e[..], 64) == LeVal(a)
  {
    e := new int[64](_ => 0);
    assert LeVal(a[..0]) == 0;
    for i := 0 to 32
      invariant forall k :: 0 <= k < 2 * i ==> 0 <= e[k] <= 15
      invariant i == 32 ==> e[63] == a[31] as int / 16
      invariant EVal(e[..], 2 * i) == LeVal(a[..i])
    {
      ghost var was := e[..];
      var x := a[i] as int;
      e[2 * i] := x % 16;
      e[2 * i + 1] := x / 16;
      EValFrame(was, e[..], 2 * i);
      LeAppend(a, i);
      Pow16Even(i);
      TwoNibbles(x, Pow(256, i));
      assert EVal(e[..], 2 * i + 1) == EVal(e[..], 2 * i) + e[2 * i] * Pow(16, 2 * i);
      assert EVal(e[..], 2 * i + 2) == EVal(e[..], 2 * i + 1) + e[2 * i + 1] * Pow(16, 2 * i + 1);
    }
    assert a[..32] == a;
  }

  lemma TwoNibbles(x: int, P: int)
    ensures x % 16 * P + x / 16 * (16 * P) == x * P
  {
    Associate(x / 16, 16, P);
    Distribute(x % 16, x / 16 * 16, P);
  }

  /** The signed radix-16 digits, lines 80-89: each in [-8, 8] when a[31] <= 127. */
  method Radix16(a: seq<byte>) returns (e: array<int>)
    requires |a| == 32
    ensures fresh(e) && e.Length == 64 && EVal(e[..], 64) == LeVal(a)
    ensures forall k :: 0 <= k < 63 ==> -8 <= e[k] < 8
    ensures 0 <= e[63] && (a[31] <= 127 ==> e[63] <= 8)
  {
    e := Nibbles(a);
    var carry := 0;
    for i := 0 to 63
      invariant 0 <= carry <= 1 && (forall k :: 0 <= k < i ==> -8 <= e[k] < 8)
      invariant (forall k :: i <= k < 64 ==> 0 <= e[k] <= 15)
      invariant e[63] == a[31] as int / 16
      invariant EVal(e[..], 64) + carry * Pow(16, i) == LeVal(a)
    {
      ghost var was := e[..];
      e[i] := e[i] + carry;
      carry := (e[i] + 8) / 16;
      e[i] := e[i] - carry * 16;
      assert e[..] == was[i := e[i]];
      EValUpdate(was, i, e[i], 64);
      CarryUp(e[i] - was[i], carry, Pow(16, i));
    }
    ghost var was := e[..];
    EValUpdate(was, 63, e[63] + carry, 64);
    e[63] := e[63] + carry;
    assert e[..] == was[63 := e[63]];
  }

  lemma CarryUp(d: int, carry: int, P: int)
    ensures d * P + carry * (16 * P) == (d + 16 * carry) * P
  {
    Associate(carry, 16, P);
    Distribute(d, 16 * carry, P);
  }

  /** base[i][j] = (j+1)*256^i*B */
  ghost predicate BaseTable<T>(G: Group<T>, base: seq<seq<T>>, B: T) {
    |base| == 32 && forall i, j :: 0 <= i < 32 && 0 <= j < 8 ==>
      |base[i]| == 8 && base[i][j] == Mul(G, (j + 1) * Pow(256, i), B)
  }

  /** select: b*256^pos*B for a digit b in [-8, 8]. */
  method SelectMultiple<T(!new)>(G: Group<T>, base: seq<seq<T>>, pos: nat, b: int, ghost B: T) returns (t: T)
    requires Abelian(G) && BaseTable(G, base, B) && pos < 32 && -8 <= b <= 8
    ensures t == Mul(G, b * Pow(256, pos), B)
  {
    var bnegative := b < 0;
    var babs := if bnegative then -b else b;
    t := G.zero;
    assert forall j :: 0 <= j < 8 ==> |base[pos]| == 8 && base[pos][j] == Mul(G, (j + 1) * Pow(256, pos), B);
    assert |base[pos]| == 8 by { assert base[pos][0] == Mul(G, (0 + 1) * Pow(256, pos), B); }
    for j := 0 to 8
      invariant t == if 1 <= babs <= j then Mul(G, babs * Pow(256, pos), B) else G.zero
    {
      if babs == j + 1 {
        t := base[pos][j];
      }
    }
    MulOne(G, B);
    if bnegative {
      DistributeSub(0, b, Pow(256, pos));
      MulNegates(G, babs * Pow(256, pos), B);
      t := G.neg(t);
    }
  }

  /** The digits of one parity, as a number in base 256. */
  ghost function Half(e: seq<int>, parity: nat, m: nat): int
    requires parity <= 1 && 2 * m <= |e|
  {
    if m == 0 then 0 else Half(e, parity, m - 1) + e[2 * (m - 1) + parity] * Pow(256, m - 1)
  }

  lemma {:induction false} HalvesMakeWhole(e: seq<int>, m: nat)
    requires 2 * m <= |e|
    ensures EVal(e, 2 * m) == 16 * Half(e, 1, m) + Half(e, 0, m)
  {
    if m > 0 {
      HalvesMakeWhole(e, m - 1);
      Pow16Even(m - 1);
      var P := Pow(256, m - 1);
      assert EVal(e, 2 * m - 1) == EVal(e, 2 * m - 2) + e[2 * m - 2] * P;
      assert EVal(e, 2 * m) == EVal(e, 2 * m - 1) + e[2 * m - 1] * (16 * P);
      Associate(e[2 * m - 1], 16, P);
      Associate(16, e[2 * m - 1], P);
    }
  }

  /** One of the two accumulation loops, lines 92-95 and 102-105. */
  method Accumulate<T(!new)>(
      G: Group<T>, base: seq<seq<T>>, e: seq<int>, parity: nat, acc: T, ghost x: int, ghost B: T) returns (h: T)
    requires Abelian(G) && BaseTable(G, base, B) && |e| == 64 && parity <= 1
    requires (forall k :: 0 <= k < 64 ==> -8 <= e[k] <= 8) && acc == Mul(G, x, B)
    ensures h == Mul(G, x + Half(e, parity, 32), B)
  {
    h := acc;
    ghost var m := 0;
    var i := parity;
    while i < 64
      invariant 0 <= m <= 32 && i == 2 * m + parity
      invariant h == Mul(G, x + Half(e, parity, m), B)
    {
      h := AddSelected(G, base, h, i / 2, e[i], x + Half(e, parity, m), B);
      i, m := i + 2, m + 1;
    }
  }

  method AddSelected<T(!new)>(
      G: Group<T>, base: seq<seq<T>>, acc: T, pos: nat, b: int, ghost y: int, ghost B: T) returns (h: T)
    requires Abelian(G) && BaseTable(G, base, B) && pos < 32 && -8 <= b <= 8 && acc == Mul(G, y, B)
    ensures h == Mul(G, y + b * Pow(256, pos), B)
  {
    var t := SelectMultiple(G, base, pos, b, B);
    MulAdds(G, y, b * Pow(256, pos), B);
    h := G.add(acc, t);
  }

  /** Four doublings, lines 97-100. */
  method Times16<T(!new)>(G: Group<T>, acc: T, ghost x: int, ghost B: T) returns (h: T)
    requires Abelian(G) && acc == Mul(G, x, B)
    ensures h == Mul(G, 16 * x, B)
  {
    MulAdds(G, x, x, B);
    h := G.add(acc, acc);
    MulAdds(G, 2 * x, 2 * x, B);
    h := G.add(h, h);
    MulAdds(G, 4 * x, 4 * x, B);
    h := G.add(h, h);
    MulAdds(G, 8 * x, 8 * x, B);
    h := G.add(h, h);
  }

  /** ge_scalarmult_base: a*B for every scalar with a[31] <= 127. */
  method ScalarMultBase<T(!new)>(G: Group<T>, a: seq<byte>, base: seq<seq<T>>, ghost B: T) returns (h: T)
    requires Abelian(G) && BaseTable(G, base, B) && |a| == 32 && a[31] <= 127
    ensures h == Mul(G, LeVal(a), B)
  {
    var digits := Radix16(a);
    var e := digits[..];
    MulOne(G, B);
    h := Accumulate(G, base, e, 1, G.zero, 0, B);
    h := Times16(G, h, Half(e, 1, 32), B);
    h := Accumulate(G, base, e, 0, h, 16 * Half(e, 1, 32), B);
    HalvesMakeWhole(e, 32);
  }
}
