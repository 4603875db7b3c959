/** Signed limbs of 21 bits and the three moves of external/ref10/sc_reduce.c on them. */
module ScLimbs {
  import opened Limbs
  import opened BytePacking

  /** The order of the base point: 2^252 + 27742317777372353535851937790883648493. */
  const L: int := 7237005577332262213973186563042994240857116359379907606001950938285454250989

  const R: int := 0x200000
  const TWO_252: int := 0x1000000000000000000000000000000000000000000000000000000000000000

  ghost function Weight(i: nat): int {
    if i == 0 then 1 else Weight(i - 1) * R
  }

  ghost function Low(s: seq<int>, n: nat): int
    requires n <= |s|
  {
    if n == 0 then 0 else Low(s, n - 1) + s[n - 1] * Weight(n - 1)
  }

  ghost function ScVal(s: seq<int>): int {
    Low(s, |s|)
  }

  ghost predicate Within(s: seq<int>, a: int, b: int, m: int)
    requires 0 <= a <= b <= |s|
  {
    forall i :: a <= i < b ==> -m <= s[i] <= m
  }

  lemma {:induction false} WeightAdd(k: nat, j: nat)
    ensures Weight(k + j) == Weight(k) * Weight(j)
  {
    if j > 0 {
      WeightAdd(k, j - 1);
      Associate(Weight(k), Weight(j - 1), R);
    }
  }

  lemma {:induction false} LowUpdate(s: seq<int>, n: nat, i: nat, x: int)
    requires i < |s| && n <= |s|
    ensures Low(s[i := x], n) == if i < n then Low(s, n) + (x - s[i]) * Weight(i) else Low(s, n)
  {
    if n > 0 {
      LowUpdate(s, n - 1, i, x);
      if i == n - 1 {
        DistributeSub(x, s[i], Weight(i));
      }
    }
  }

  // ---- carries ----

  /** Limb i gives c of its radix to the limb above. */
  function Moved(s: seq<int>, i: nat, c: int): seq<int>
    requires i + 1 < |s|
  {
    s[i := s[i] - c * R][i + 1 := s[i + 1] + c]
  }

  lemma {:induction false} MovedValue(s: seq<int>, i: nat, c: int)
    requires i + 1 < |s|
    ensures ScVal(Moved(s, i, c)) == ScVal(s)
  {
    var t := s[i := s[i] - c * R];
    LowUpdate(s, |s|, i, s[i] - c * R);
    LowUpdate(t, |s|, i + 1, s[i + 1] + c);
    Associate(c, R, Weight(i));
  }

  method Move(s: array<int>, i: nat, c: int, ghost m: int)
    requires i + 1 < s.Length && 0 <= m <= 0x2000_0000_0000_0000 && -m <= s[i] <= m && -m <= s[i + 1] <= m
    requires -m <= R * c + R && R * c <= m + R
    modifies s
    ensures s[i] == old(s[i]) - c * R && s[i + 1] == old(s[i + 1]) + c
    ensures forall j :: 0 <= j < s.Length && j != i && j != i + 1 ==> s[j] == old(s[j])
    ensures ScVal(s[..]) == old(ScVal(s[..]))
  {
    MovedValue(s[..], i, c);
    ghost var t := Moved(s[..], i, c);
    s[i + 1] := I64(s[i + 1] + c);
    s[i] := I64(s[i] - I64(c * R));
    assert s[..] == t;
  }

  /** carry = (s_i + (1 << 20)) >> 21 */
  method RoundCarry(s: array<int>, i: nat, ghost m: int)
    requires i + 1 < s.Length && 0 <= m <= 0x2000_0000_0000_0000 && -m <= s[i] <= m && -m <= s[i + 1] <= m
    modifies s
    ensures -0x100000 <= s[i] <= 0x100000
    ensures var d := s[i + 1] - old(s[i + 1]); -m <= R * d + R && R * d <= m + R
    ensures forall j :: 0 <= j < s.Length && j != i && j != i + 1 ==> s[j] == old(s[j])
    ensures ScVal(s[..]) == old(ScVal(s[..]))
  {
    var carry := I64(s[i] + 0x100000) / R;
    Move(s, i, carry, m);
  }

  /** carry = s_i >> 21 */
  method FloorCarry(s: array<int>, i: nat, ghost m: int)
    requires i + 1 < s.Length && 0 <= m <= 0x2000_0000_0000_0000 && -m <= s[i] <= m && -m <= s[i + 1] <= m
    modifies s
    ensures 0 <= s[i] < R
    ensures var d := s[i + 1] - old(s[i + 1]); -m <= R * d + R && R * d <= m + R
    ensures forall j :: 0 <= j < s.Length && j != i && j != i + 1 ==> s[j] == old(s[j])
    ensures ScVal(s[..]) == old(ScVal(s[..]))
  {
    var carry := s[i] / R;
    Move(s, i, carry, m);
  }

  // ---- folds ----

  function AddAt(s: seq<int>, i: nat, d: int): (t: seq<int>)
    requires i < |s|
    ensures |t| == |s|
  {
    s[i := s[i] + d]
  }

  lemma {:induction false} AddAtValue(s: seq<int>, i: nat, d: int)
    requires i < |s|
    ensures ScVal(AddAt(s, i, d)) == ScVal(s) + d * Weight(i)
  {
    LowUpdate(s, |s|, i, s[i] + d);
  }

  /** 2^252 is minus the low part of l: limb k goes down twelve places. */
  function Folded(s: seq<int>, k: nat): (t: seq<int>)
    requires 12 <= k < |s|
    ensures |t| == |s|
  {
    var x, o := s[k], k - 12;
    AddAt(AddAt(AddAt(AddAt(AddAt(AddAt(AddAt(s, o, x * 666643), o + 1, x * 470296), o + 2, x * 654183),
      o + 3, x * -997805), o + 4, x * 136657), o + 5, x * -683901), k, -x)
  }

  lemma SmallWeights()
    ensures Weight(0) == 0x1
    ensures Weight(1) == 0x200000
    ensures Weight(2) == 0x40000000000
    ensures Weight(3) == 0x8000000000000000
    ensures Weight(4) == 0x1000000000000000000000
    ensures Weight(5) == 0x200000000000000000000000000
    ensures Weight(6) == 0x40000000000000000000000000000000
    ensures Weight(7) == 0x8000000000000000000000000000000000000
    ensures Weight(8) == 0x1000000000000000000000000000000000000000000
    ensures Weight(9) == 0x200000000000000000000000000000000000000000000000
    ensures Weight(10) == 0x40000000000000000000000000000000000000000000000000000
    ensures Weight(11) == 0x8000000000000000000000000000000000000000000000000000000000
    ensures Weight(12) == 0x1000000000000000000000000000000000000000000000000000000000000000
  {
  }

  /** x*c at weight Weight(k + j) */
  lemma Term(x: int, c: int, k: nat, j: nat)
    ensures (x * c) * Weight(k + j) == (c * Weight(j)) * (x * Weight(k))
  {
    WeightAdd(k, j);
    var u, v := Weight(k), Weight(j);
    Associate(x * c, u, v);
    Associate(x, c, u);
    Associate(x, u, c);
    Associate(x * u, c, v);
  }

  lemma {:induction false} FoldedValue(s: seq<int>, k: nat)
    requires 12 <= k < |s|
    ensures ScVal(Folded(s, k)) == ScVal(s) - L * (s[k] * Weight(k - 12))
  {
    var s0, x, o := s, s[k], k - 12;
    var s1 := AddAt(s0, o, x * 666643);
    var s2 := AddAt(s1, o + 1, x * 470296);
    var s3 := AddAt(s2, o + 2, x * 654183);
    var s4 := AddAt(s3, o + 3, x * -997805);
    var s5 := AddAt(s4, o + 4, x * 136657);
    var s6 := AddAt(s5, o + 5, x * -683901);
    AddAtValue(s0, o, x * 666643);
    AddAtValue(s1, o + 1, x * 470296);
    AddAtValue(s2, o + 2, x * 654183);
    AddAtValue(s3, o + 3, x * -997805);
    AddAtValue(s4, o + 4, x * 136657);
    AddAtValue(s5, o + 5, x * -683901);
    AddAtValue(s6, k, -x);
    FoldTerms(x, o);
    assert s6[k] == x;
  }

  lemma FoldTerms(x: int, o: nat)
    ensures (x * 666643) * Weight(o) + (x * 470296) * Weight(o + 1) + (x * 654183) * Weight(o + 2)
        + (x * -997805) * Weight(o + 3) + (x * 136657) * Weight(o + 4) + (x * -683901) * Weight(o + 5)
        + (-x) * Weight(o + 12)
         == -(L * (x * Weight(o)))
  {
    Term(x, 666643, o, 0);
    Term(x, 470296, o, 1);
    Term(x, 654183, o, 2);
    Term(x, -997805, o, 3);
    Term(x, 136657, o, 4);
    Term(x, -683901, o, 5);
    Term(x, -1, o, 12);
    SmallWeights();
  }

  /** One addition of a product, without overflow. */
  method AddMul(u: int, y: int, c: int, ghost m: int, ghost x: int) returns (r: int)
    requires -m <= u <= m && -x <= y <= x && -0x100000 <= c <= 0x100000 && m + 0x100000 * x < 0x4000_0000_0000_0000
    ensures r == u + y * c && -(m + 0x100000 * x) <= r <= m + 0x100000 * x
  {
    ProductBound(y, c, x);
    r := I64(u + I64(y * c));
  }

  lemma ProductBound(y: int, c: int, x: int)
    requires -x <= y <= x && -0x100000 <= c <= 0x100000
    ensures -(0x100000 * x) <= y * c <= 0x100000 * x
  {
    if c >= 0 {
      MulMono(y, x, c);
      MulMono(-x, y, c);
      MulMono(c, 0x100000, x);
    } else {
      MulMono(y, x, -c);
      MulMono(-x, y, -c);
      MulMono(-c, 0x100000, x);
    }
  }

  /** a..b is a range of limbs around those that change, all within m; afterwards they are within m + 2^20*x. */
  method Fold(s: array<int>, k: nat, ghost a: nat, ghost b: nat, ghost m: int, ghost x: int)
    requires 12 <= k < s.Length && a <= k - 12 && k - 6 <= b <= k && 0 <= m && 0 <= x
    requires m + 0x100000 * x < 0x4000_0000_0000_0000
    requires Within(s[..], a, b, m) && -x <= s[k] <= x
    modifies s
    ensures Within(s[..], a, b, m + 0x100000 * x) && s[k] == 0
    ensures forall j :: 0 <= j < s.Length && !(a <= j < b) && j != k ==> s[j] == old(s[j])
    ensures ScVal(s[..]) == old(ScVal(s[..])) - L * (old(s[k]) * Weight(k - 12))
  {
    ghost var s0 := s[..];
    FoldInPlace(s, k, a, b, m, x);
    FoldedValue(s0, k);
    FoldedWithin(s0, k, a, b, m, x);
  }

  method FoldInPlace(s: array<int>, k: nat, ghost a: nat, ghost b: nat, ghost m: int, ghost x: int)
    requires 12 <= k < s.Length && a <= k - 12 && k - 6 <= b <= k && 0 <= m && 0 <= x
    requires m + 0x100000 * x < 0x4000_0000_0000_0000
    requires Within(s[..], a, b, m) && -x <= s[k] <= x
    modifies s
    ensures s[..] == Folded(old(s[..]), k)
  {
    var y := s[k];
    s[k - 12] := AddMul(s[k - 12], y, 666643, m, x);
    s[k - 11] := AddMul(s[k - 11], y, 470296, m, x);
    s[k - 10] := AddMul(s[k - 10], y, 654183, m, x);
    s[k - 9] := AddMul(s[k - 9], y, -997805, m, x);
    s[k - 8] := AddMul(s[k - 8], y, 136657, m, x);
    s[k - 7] := AddMul(s[k - 7], y, -683901, m, x);
    s[k] := 0;
  }

  lemma FoldedWithin(s: seq<int>, k: nat, a: nat, b: nat, m: int, x: int)
    requires 12 <= k < |s| && a <= k - 12 && k - 6 <= b <= k && 0 <= m && 0 <= x
    requires Within(s, a, b, m) && -x <= s[k] <= x
    ensures Within(Folded(s, k), a, b, m + 0x100000 * x) && Folded(s, k)[k] == 0
    ensures forall j :: 0 <= j < |s| && !(a <= j < b) && j != k ==> Folded(s, k)[j] == s[j]
  {
    ProductBound(s[k], 666643, x);
    ProductBound(s[k], 470296, x);
    ProductBound(s[k], 654183, x);
    ProductBound(s[k], -997805, x);
    ProductBound(s[k], 136657, x);
    ProductBound(s[k], -683901, x);
  }
}
