/** Signed sliding windows (external/ref10/ge_double_scalarmult.c:3-34). */
module Slide {
  import opened ByteStrings
  import opened Limbs
  import opened LittleEndian
  import opened BoothDigits

  /** The integer that signed digits spell in base 2. */
  ghost function SVal(r: seq<int>, n: nat): int
    requires n <= |r|
  {
    if n == 0 then 0 else SVal(r, n - 1) + r[n - 1] * Pow(2, n - 1)
  }

  lemma {:induction false} SValFrame(r: seq<int>, s: seq<int>, n: nat)
    requires n <= |r| && n <= |s| && forall k :: 0 <= k < n ==> r[k] == s[k]
    ensures SVal(r, n) == SVal(s, n)
  {
    if n > 0 {
      SValFrame(r, s, n - 1);
    }
  }

  /** Changing one digit changes the sum by that much at its place. */
  lemma {:induction false} SValUpdate(r: seq<int>, i: nat, x: int, n: nat)
    requires i < n <= |r|
    ensures SVal(r[i := x], n) == SVal(r, n) + (x - r[i]) * Pow(2, i)
  {
    if n - 1 == i {
      SValFrame(r, r[i := x], i);
      DistributeSub(x, r[i], Pow(2, i));
    } else {
      SValUpdate(r, i, x, n - 1);
    }
  }

  // ---- the bits of the scalar ----

  /** Lines 9-10. */
  method Unpack(a: seq<byte>) returns (r: array<int>)
    requires |a| == 32
    ensures fresh(r) && r.Length == 256 && (forall k :: 0 <= k < 256 ==> 0 <= r[k] <= 1)
    ensures SVal(r[..], 256) == LeVal(a)
  {
    r := new int[256](_ => 0);
    assert LeVal(a[..0]) == 0;
    for i := 0 to 256
      invariant forall k :: 0 <= k < i ==> 0 <= r[k] <= 1
      invariant SVal(r[..], i) == LeVal(a[..i / 8]) + PartOfByte(a, i)
    {
      ghost var was := r[..];
      BitAt(a, i);
      r[i] := Shr(a[i / 8] as int, i % 8) % 2;
      SValFrame(was, r[..], i);
    }
    assert a[..32] == a;
  }

  /** The low i%8 bits of the byte that bit i belongs to, at their place. */
  ghost function PartOfByte(a: seq<byte>, i: nat): nat {
    if i / 8 < |a| then LowOf(a[i / 8] as int, i % 8) * Pow(256, i / 8) else 0
  }

  ghost function LowOf(x: nat, m: nat): nat {
    PowPositive(2, m);
    HiLo(Pow(2, m), x);
    x % Pow(2, m)
  }

  lemma {:induction false} BitAt(a: seq<byte>, i: nat)
    requires |a| == 32 && i < 256
    ensures 0 <= Shr(a[i / 8] as int, i % 8) % 2 <= 1
    ensures LeVal(a[..i / 8]) + PartOfByte(a, i) + Shr(a[i / 8] as int, i % 8) % 2 * Pow(2, i)
            == LeVal(a[..(i + 1) / 8]) + PartOfByte(a, i + 1)
  {
    var o, m := i / 8, i % 8;
    var x: nat, Q := a[o] as int, Pow(256, o);
    Pow256(o);
    PowAdds(2, m, 8 * o);
    assert Pow(2, i) == Pow(2, m) * Q;
    NextBit(x, m);
    var bit := Shr(x, m) % 2;
    Associate(bit, Pow(2, m), Q);
    Distribute(LowOf(x, m), bit * Pow(2, m), Q);
    if m == 7 {
      SmallPowers();
      assert LowOf(x, 8) == x by { QuotRem(x, 256, 0, x); }
      LeAppend(a, o);
      assert (i + 1) / 8 == o + 1 && (i + 1) % 8 == 0;
      assert Pow(2, 0) == 1;
      assert PartOfByte(a, i + 1) == 0;
    } else {
      assert (i + 1) / 8 == o && (i + 1) % 8 == m + 1;
    }
  }

  lemma {:induction false} NextBit(x: nat, m: nat)
    ensures LowOf(x, m + 1) == LowOf(x, m) + Shr(x, m) % 2 * Pow(2, m)
  {
    var P := Pow(2, m);
    PowPositive(2, m);
    var q, r := x / P, x % P;
    HiLo(P, x);
    var q', b := q / 2, q % 2;
    Distribute(2 * q', b, P);
    Associate(q', 2, P);
    assert x == q' * (2 * P) + (b * P + r);
    QuotRem(x, 2 * P, q', b * P + r);
  }

  // ---- recoding ----

  /** Adds 1 at position |start| of the binary digits from there on, lines 20-26. */
  method Carry(r: array<int>, start: nat) returns (ghost lost: int)
    requires r.Length == 256 && start < 256 && (forall k :: start <= k < 256 ==> 0 <= r[k] <= 1) && r[start] == 1
    modifies r
    ensures forall k :: 0 <= k < start ==> r[k] == old(r[k])
    ensures (forall k :: start <= k < 256 ==> 0 <= r[k] <= 1) && r[start] == 0
    ensures SVal(r[..], 256) + lost * Pow(2, 256) == old(SVal(r[..], 256)) + Pow(2, start)
    ensures lost == 0 || (lost == 1 && forall k :: start <= k < 256 ==> r[k] == 0)
  {
    ghost var r0 := r[..];
    var k := start;
    while k < 256
      invariant start <= k <= 256
      invariant forall j :: 0 <= j < start ==> r[j] == r0[j]
      invariant forall j :: start <= j < k ==> r[j] == 0
      invariant forall j :: k <= j < 256 ==> r[j] == r0[j]
      invariant SVal(r[..], 256) + Pow(2, k) == SVal(r0, 256) + Pow(2, start)
    {
      ghost var was := r[..];
      if r[k] == 0 {
        SValUpdate(was, k, 1, 256);
        r[k] := 1;
        assert r[..] == was[k := 1];
        return 0;
      }
      SValUpdate(was, k, 0, 256);
      r[k] := 0;
      assert r[..] == was[k := 0];
      k := k + 1;
    }
    return 1;
  }

  ghost predicate IsDigit(x: int) {
    x == 0 || (x % 2 == 1 && -15 <= x <= 15)
  }

  /** Nonzero digits are at least five positions apart. */
  ghost predicate Sparse(r: seq<int>, i: nat) {
    forall j, k :: 0 <= j < i && j < k < j + 5 && k < |r| && j < |r| && r[j] != 0 ==> r[k] == 0
  }

  /** |x| is less than half of 2^lim. */
  ghost predicate Small(x: int, lim: nat) {
    2 * x < Pow(2, lim) && -2 * x < Pow(2, lim)
  }

  /** Nothing was carried out at the top, or the scalar had its top bit set. */
  ghost predicate Keeps(r: seq<int>, a: int, lost: int) {
    && |r| == 256 && SVal(r, 256) + lost * Pow(2, 256) == a
    && (lost == 0 || (lost == 1 && a >= Pow(2, 255)))
  }

  /** The first i positions are recoded; the others are still bits, zero up to position |lim|. */
  ghost predicate Recoded(r: seq<int>, i: nat, lim: nat, a: int, lost: int) {
    && Keeps(r, a, lost) && i <= 256
    && (forall k :: 0 <= k < i ==> IsDigit(r[k]))
    && (forall k :: i <= k < 256 ==> 0 <= r[k] <= 1)
    && (forall k :: i <= k < lim && k < 256 ==> r[k] == 0)
    && (lost == 1 ==> forall k :: i <= k < 256 ==> r[k] == 0)
    && Sparse(r, i)
    && Small(SVal(r, i), lim)
    && TopDigits(r, i, lost)
  }

  /** A digit within the last four positions is positive, and then nothing is lost. */
  ghost predicate TopDigits(r: seq<int>, i: nat, lost: int) {
    forall k :: 252 <= k < i && k < |r| && r[k] != 0 ==> r[k] > 0 && lost == 0
  }

  /** What the inner loop has made of the window at i after looking at positions below i+b. */
  ghost predicate Inner(r: seq<int>, r0: seq<int>, i: nat, b: nat, a: int, lost: int) {
    && Keeps(r, a, lost) && |r0| == 256 && i < 256 && 1 <= b
    && (forall k :: 0 <= k < i ==> r[k] == r0[k])
    && (forall k :: i < k < 256 ==> 0 <= r[k] <= 1)
    && (forall k :: i < k < i + b && k < i + 5 && k < 256 ==> r[k] == 0)
    && r[i] % 2 == 1 && -15 <= r[i] <= 15
    && (b <= 4 ==> lost == 0 && 1 <= r[i] < Pow(2, b))
    && (lost == 1 ==> forall k :: i < k < 256 ==> r[k] == 0)
  }

  /** Absorbing the bit at i+b, 1 <= b <= 3. */
  lemma {:induction false} Absorb(r: seq<int>, r0: seq<int>, i: nat, b: nat, a: int, lost: int)
    requires Inner(r, r0, i, b, a, lost) && b <= 3 && i + b < 256 && r[i + b] == 1
    ensures r[i] + Pow(2, b) <= 15
    ensures Inner(r[i := r[i] + Pow(2, b)][i + b := 0], r0, i, b + 1, a, lost)
  {
    SmallPowers();
    AbsorbValue(r, i, b);
  }

  lemma {:induction false} AbsorbValue(r: seq<int>, i: nat, b: nat)
    requires 1 <= b && i + b < |r| && r[i + b] == 1
    ensures SVal(r[i := r[i] + Pow(2, b)][i + b := 0], |r|) == SVal(r, |r|)
  {
    var s := r[i := r[i] + Pow(2, b)];
    SValUpdate(r, i, r[i] + Pow(2, b), |r|);
    SValUpdate(s, i + b, 0, |r|);
    PowAdds(2, b, i);
  }

  /** At b = 4 the window is full: 16 is taken off and carried. */
  lemma {:induction false} Subtract16(
      r: seq<int>, r0: seq<int>, i: nat, a: int, lost: int, s: seq<int>, lost': int, lim: nat)
    requires Inner(r, r0, i, 4, a, lost) && i + 4 < 256 && r[i + 4] == 1
    requires Small(SVal(r0, i), lim) && lim <= i
    requires |s| == 256 && s[i + 4] == 0 && s[i] == r[i] - 16
    requires forall k :: 0 <= k < i + 4 && k != i ==> s[k] == r[k]
    requires forall k :: i + 4 <= k < 256 ==> 0 <= s[k] <= 1
    requires SVal(s, 256) + lost' * Pow(2, 256) == SVal(r[i := r[i] - 16], 256) + Pow(2, i + 4)
    requires lost' == 0 || (lost' == 1 && forall k :: i + 4 <= k < 256 ==> s[k] == 0)
    ensures Inner(s, r0, i, 5, a, lost')
  {
    SmallPowers();
    SValUpdate(r, i, r[i] - 16, 256);
    PowAdds(2, 4, i);
    assert SVal(s, 256) + lost' * Pow(2, 256) == a;
    if lost' == 1 {
      LostMeansLarge(r0, s, i, a, lim);
    }
  }

  lemma {:induction false} LostMeansLarge(r0: seq<int>, s: seq<int>, i: nat, a: int, lim: nat)
    requires |s| == |r0| == 256 && i + 4 < 256 && lim <= i
    requires Small(SVal(r0, i), lim)
    requires (forall k :: 0 <= k < i ==> s[k] == r0[k]) && s[i] >= -15
    requires forall k :: i < k < 256 ==> s[k] == 0
    requires SVal(s, 256) + Pow(2, 256) == a
    ensures a >= Pow(2, 255)
  {
    ZeroTail(s, i + 1, 256);
    SValFrame(r0, s, i);
    Pow2Up(lim, i);
    Pow2Up(i + 4, 255);
    SmallPowers();
    PowAdds(2, 4, i);
    MulMono(-15, s[i], Pow(2, i));
    assert Pow(2, 256) == 2 * Pow(2, 255);
  }

  lemma {:induction false} ZeroTail(s: seq<int>, m: nat, n: nat)
    requires m <= n <= |s| && forall k :: m <= k < n ==> s[k] == 0
    ensures SVal(s, n) == SVal(s, m)
    decreases n
  {
    if m < n {
      ZeroTail(s, m, n - 1);
    }
  }

  lemma FiveApart(r: seq<int>, i: nat, j: nat)
    requires Sparse(r, i) && j < i < |r| && r[j] != 0 && r[i] != 0
    ensures i >= j + 5
  {
  }

  /** A finished window extends the recoded part. */
  lemma {:induction false} WindowDone(
      r0: seq<int>, r: seq<int>, i: nat, lim: nat, a: int, lost0: int, lost: int, b: nat)
    requires Recoded(r0, i, lim, a, lost0) && lim <= i && i < |r0| && r0[i] != 0 && Inner(r, r0, i, b, a, lost)
    requires i + b <= 256 && (b >= 5 || i + b == 256)
    ensures Recoded(r, i + 1, i + 5, a, lost)
  {
    SValFrame(r0, r, i);
    Pow2Up(lim, i);
    SmallPowers();
    PowAdds(2, 5, i);
    MulMono(-15, r[i], Pow(2, i));
    MulMono(r[i], 15, Pow(2, i));
    forall j, k | 0 <= j < i + 1 && j < k < j + 5 && k < 256 && r[j] != 0
      ensures r[k] == 0
    {
      if j < i {
        FiveApart(r0, i, j);
      }
    }
  }

  /** The inner loop of lines 14-31 for a nonzero position i. */
  method SlideAt(r: array<int>, i: nat, ghost lim: nat, ghost a: int, ghost lost0: int) returns (ghost lost: int)
    requires r.Length == 256 && i < 256 && Recoded(r[..], i, lim, a, lost0) && r[i] != 0
    modifies r
    ensures Recoded(r[..], i + 1, i + 5, a, lost)
  {
    ghost var r0 := r[..];
    lost := lost0;
    assert Pow(2, 1) == 2;
    var b := 1;
    while b <= 6 && i + b < 256
      invariant 1 <= b <= 7 && i + b <= 256 && Inner(r[..], r0, i, b, a, lost)
    {
      if r[i + b] != 0 {
        var stop;
        stop, lost := LookAt(r, i, b, r0, lim, a, lost);
        if stop {
          break;
        }
      }
      b := b + 1;
    }
    WindowDone(r0, r[..], i, lim, a, lost0, lost, b);
  }

  /** A nonzero bit at i+b: absorb it, or take it off and carry, or leave the loop. */
  method LookAt(r: array<int>, i: nat, b: nat, ghost r0: seq<int>, ghost lim: nat, ghost a: int, ghost lost0: int)
      returns (stop: bool, ghost lost: int)
    requires r.Length == 256 && b <= 6 && i + b < 256 && Inner(r[..], r0, i, b, a, lost0) && r[i + b] == 1
    requires lim <= i && Small(SVal(r0, i), lim)
    modifies r
    ensures if stop then b >= 5 && Inner(r[..], r0, i, b, a, lost) else Inner(r[..], r0, i, b + 1, a, lost)
  {
    ghost var was := r[..];
    WindowFits(r[i], b);
    stop, lost := false, lost0;
    if r[i] + r[i + b] * Pow(2, b) <= 15 {
      Absorb(was, r0, i, b, a, lost0);
      r[i] := r[i] + r[i + b] * Pow(2, b);
      r[i + b] := 0;
      assert r[..] == was[i := was[i] + Pow(2, b)][i + b := 0];
    } else if r[i] - r[i + b] * Pow(2, b) >= -15 {
      lost := TakeOff(r, i, r0, lim, a, lost0);
    } else {
      stop := true;
    }
  }

  /** Which of the three cases it is depends on b alone. */
  lemma WindowFits(x: int, b: nat)
    requires 1 <= b <= 6 && -15 <= x <= 15 && (b <= 4 ==> 1 <= x < Pow(2, b))
    ensures x + Pow(2, b) <= 15 <==> b <= 3
    ensures b == 4 ==> Pow(2, b) == 16 && x - Pow(2, b) >= -15
    ensures b >= 5 ==> x - Pow(2, b) < -15
  {
    SmallPowers();
  }

  method TakeOff(
      r: array<int>, i: nat, ghost r0: seq<int>, ghost lim: nat, ghost a: int, ghost lost0: int)
      returns (ghost lost: int)
    requires r.Length == 256 && i + 4 < 256 && Inner(r[..], r0, i, 4, a, lost0) && r[i + 4] == 1
    requires lim <= i && Small(SVal(r0, i), lim)
    modifies r
    ensures Inner(r[..], r0, i, 5, a, lost)
  {
    ghost var was := r[..];
    r[i] := r[i] - r[i + 4] * 16;
    ghost var mid := r[..];
    assert mid == was[i := was[i] - 16];
    lost := Carry(r, i + 4);
    Subtract16(was, r0, i, a, lost0, r[..], lost, lim);
  }

  // ---- what is lost at the top ----

  /** The digits from position i on, read as a number of their own. */
  ghost function Horner(r: seq<int>, i: nat): int
    requires i <= |r|
    decreases |r| - i
  {
    if i == |r| then 0 else r[i] + 2 * Horner(r, i + 1)
  }

  lemma {:induction false} HornerIsSVal(r: seq<int>, i: nat)
    requires i <= |r|
    ensures SVal(r, |r|) == SVal(r, i) + Horner(r, i) * Pow(2, i)
    decreases |r| - i
  {
    if i < |r| {
      HornerIsSVal(r, i + 1);
      Distribute(r[i], 2 * Horner(r, i + 1), Pow(2, i));
      Associate(2, Horner(r, i + 1), Pow(2, i));
      Associate(Horner(r, i + 1), 2, Pow(2, i));
    }
  }

  lemma {:induction false} HornerZero(r: seq<int>, i: nat)
    requires i <= |r| && forall k :: i <= k < |r| ==> r[k] == 0
    ensures Horner(r, i) == 0
    decreases |r| - i
  {
    if i < |r| {
      HornerZero(r, i + 1);
    }
  }

  const BITS: nat := 256

  /** The carry out of n bits when x is recoded from below: an odd rest is rounded to a multiple of 32. */
  function Leaves(x: nat, n: nat): nat {
    if n == 0 then x
    else if x % 2 == 0 then Leaves(x / 2, n - 1)
    else if n <= 4 then 0
    else Leaves((x + 16) / 32, n - 5)
  }

  /** The digits from i on, and what was lost above them. */
  ghost function Rest(r: seq<int>, i: nat, lost: int): int
    requires i <= |r|
  {
    Horner(r, i) + lost * Pow(2, |r| - i)
  }

  lemma {:induction false} RestStep(r: seq<int>, i: nat, lost: int)
    requires i < |r|
    ensures Rest(r, i, lost) == r[i] + 2 * Rest(r, i + 1, lost)
  {
    Associate(lost, 2, Pow(2, |r| - i - 1));
    Associate(2, lost, Pow(2, |r| - i - 1));
  }

  lemma {:induction false} RestWindow(r: seq<int>, i: nat, lost: int)
    requires i + 5 <= |r| && forall k :: i < k < i + 5 ==> r[k] == 0
    ensures Rest(r, i, lost) == r[i] + 32 * Rest(r, i + 5, lost)
  {
    RestStep(r, i, lost);
    RestStep(r, i + 1, lost);
    RestStep(r, i + 2, lost);
    RestStep(r, i + 3, lost);
    RestStep(r, i + 4, lost);
  }

  lemma LeavesEven(y: nat, n: nat)
    requires n > 0
    ensures Leaves(2 * y, n) == Leaves(y, n - 1)
  {
  }

  lemma LeavesOdd(d: int, y: int, n: nat)
    requires d % 2 == 1 && -15 <= d <= 15 && n > 4 && d + 32 * y >= 0
    ensures y >= 0 && Leaves(d + 32 * y, n) == Leaves(y, n - 5)
  {
    assert (d + 32 * y + 16) / 32 == y;
  }

  /** Sparse odd digits determine the carry that was lost. */
  lemma {:induction false} LostIsLeaves(r: seq<int>, i: nat, lost: int)
    requires |r| == BITS && i <= BITS && 0 <= lost <= 1 && Sparse(r, BITS) && TopDigits(r, BITS, lost)
    requires (forall k :: 0 <= k < BITS ==> IsDigit(r[k])) && Rest(r, i, lost) >= 0
    ensures Leaves(Rest(r, i, lost), BITS - i) == lost
    decreases BITS - i
  {
    if i == BITS {
      assert Pow(2, 0) == 1;
    } else if r[i] == 0 {
      RestStep(r, i, lost);
      LeavesEven(Rest(r, i + 1, lost), BITS - i);
      LostIsLeaves(r, i + 1, lost);
    } else if BITS - i <= 4 {
      HornerZero(r, i + 1);
      RestStep(r, i, lost);
    } else {
      assert IsDigit(r[i]);
      RestWindow(r, i, lost);
      LeavesOdd(r[i], Rest(r, i + 5, lost), BITS - i);
      LostIsLeaves(r, i + 5, lost);
    }
  }

  lemma {:induction false} LeavesShift(x: nat, n: nat, k: nat)
    ensures Leaves(x * Pow(2, k), n + k) == Leaves(x, n)
  {
    if k > 0 {
      var y := x * Pow(2, k - 1);
      Associate(x, 2, Pow(2, k - 1));
      Associate(2, x, Pow(2, k - 1));
      LeavesEven(y, n + k);
      LeavesShift(x, n, k - 1);
    }
  }

  /** Nothing leaves when the top bit is clear. */
  lemma {:induction false} LeavesNothing(x: nat, n: nat)
    requires x <= Pow(2, n)
    ensures Leaves(x, n + 1) == 0
    decreases n
  {
    if x % 2 == 0 {
      if n > 0 {
        LeavesNothing(x / 2, n - 1);
      } else {
        assert x == 0;
      }
    } else if n == 4 {
      SmallPowers();
    } else if n > 4 {
      var Q := Pow(2, n - 5);
      PowAdds(2, 5, n - 5);
      SmallPowers();
      assert x <= 32 * Q;
      LeavesNothing((x + 16) / 32, n - 5);
    }
  }

  lemma {:induction false} FiveBitsLeave(k: nat)
    ensures Leaves(31 * Pow(2, k), 5 + k) == 1
  {
    LeavesShift(31, 5, k);
    assert Leaves(31, 5) == Leaves(1, 0) == 1;
  }

  lemma {:induction false} TopFive(a: seq<byte>, n: nat)
    requires |a| == n + 1 && a[n] == 0xF8 && forall k :: 0 <= k < n ==> a[k] == 0
    ensures LeVal(a) == 31 * Pow(2, 8 * n + 3) && Leaves(LeVal(a), 5 + (8 * n + 3)) == 1
  {
    LeAppend(a, n);
    assert a[..n + 1] == a;
    ZeroBytes(a[..n]);
    Pow256(n);
    SmallPowers();
    PowAdds(2, 3, 8 * n);
    FiveBitsLeave(8 * n + 3);
  }

  /** Five top bits set: 2^256 is lost. */
  lemma {:induction false} FiveTopBits(a: seq<byte>)
    requires |a| == 32 && a[31] == 0xF8 && forall k :: 0 <= k < 31 ==> a[k] == 0
    ensures LeVal(a) == 31 * Pow(2, BITS - 5) && Leaves(LeVal(a), BITS) == 1
  {
    TopFive(a, 31);
  }

  lemma {:induction false} ZeroBytes(d: seq<byte>)
    requires forall k :: 0 <= k < |d| ==> d[k] == 0
    ensures LeVal(d) == 0
  {
    if d != [] {
      LeTail(d);
      ZeroBytes(d[1..]);
    } else {
      assert LeVal(d) == 0;
    }
  }

  /**
   * slide: the digits spell the scalar, are odd or zero within [-15, 15] and at least five apart.
   * What is lost to a carry beyond the last position can be told from the scalar; it is nothing
   * unless bit 255 is set.
   */
  method Recode(a: seq<byte>) returns (r: array<int>)
    requires |a| == 32
    ensures fresh(r) && r.Length == 256
    ensures SVal(r[..], 256) + Leaves(LeVal(a), BITS) * Pow(2, 256) == LeVal(a) && Leaves(LeVal(a), BITS) <= 1
    ensures a[31] <= 127 ==> Leaves(LeVal(a), BITS) == 0
    ensures forall k :: 0 <= k < 256 ==> IsDigit(r[k])
    ensures Sparse(r[..], 256)
  {
    r := Unpack(a);
    ghost var lost := 0;
    ghost var lim := 0;
    for i := 0 to 256
      invariant Recoded(r[..], i, lim, LeVal(a), lost)
    {
      if r[i] != 0 {
        lost := SlideAt(r, i, lim, LeVal(a), lost);
        lim := i + 5;
      } else {
        SkipZero(r[..], i, lim, LeVal(a), lost);
      }
    }
    WholeRest(r[..], lost, LeVal(a));
    if a[31] <= 127 {
      TopBitClear(a);
    }
  }

  lemma {:induction false} WholeRest(r: seq<int>, lost: int, a: nat)
    requires exists lim: nat :: Recoded(r, 256, lim, a, lost)
    ensures Leaves(a, BITS) == lost && 0 <= lost <= 1
  {
    HornerIsSVal(r, 0);
    assert Pow(2, 0) == 1;
    LostIsLeaves(r, 0, lost);
  }

  lemma {:induction false} SkipZero(r: seq<int>, i: nat, lim: nat, a: int, lost: int)
    requires Recoded(r, i, lim, a, lost) && i < 256 && r[i] == 0
    ensures Recoded(r, i + 1, lim, a, lost)
  {
  }

  lemma {:induction false} Pow255(P: nat)
    requires P == Pow(256, 31)
    ensures Pow(2, 255) == 128 * P
  {
    Pow256(31);
    SmallPowers();
    PowAdds(2, 7, 248);
  }

  lemma {:induction false} TopBitClear(a: seq<byte>)
    requires |a| == 32 && a[31] <= 127
    ensures LeVal(a) < Pow(2, 255)
  {
    LeAppend(a, 31);
    assert a[..32] == a;
    ValBound(256, Nats(a[..31]), 31);
    var P := Pow(256, 31);
    Pow255(P);
    MulMono(a[31] as int, 127, P);
  }
}
