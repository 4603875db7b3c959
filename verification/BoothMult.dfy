/** Scalar multiplication with signed windows (external/blst/ec_mult.h:49-169). */
module BoothMult {
  import opened ByteStrings
  import opened Limbs
  import opened LittleEndian
  import opened Groups
  import opened BoothDigits

  /** _add is only right when it is not asked to double a finite point (external/blst/ec_ops.h:181-238). */
  ghost predicate AddOk<T>(G: Group<T>, x: T, y: T) {
    x == y ==> x == G.zero
  }

  function IncompleteAdd<T>(G: Group<T>, x: T, y: T): T
    requires AddOk(G, x, y)
  {
    G.add(x, y)
  }

  /** The window sizes the code supports, in limbs of w > SZ bits. */
  ghost predicate Sizes(B: nat, sz: nat) {
    && 2 <= sz <= 8 && 0 < 2 * Pow(2, sz) <= B && B % (2 * Pow(2, sz)) == 0
  }

  ghost predicate IsTable<T>(G: Group<T>, table: seq<T>, P: T, sz: nat) {
    sz > 0 && |table| == Pow(2, sz - 1) && forall i :: 0 <= i < |table| ==> table[i] == Mul(G, i + 1, P)
  }

  /** Neighbouring multiples of any point may be added. */
  lemma {:induction false} NeighboursAddOk<T(!new)>(G: Group<T>, P: T, j: int)
    requires Abelian(G)
    ensures AddOk(G, Mul(G, j + 1, P), Mul(G, j, P))
  {
    if Mul(G, j + 1, P) == Mul(G, j, P) {
      MulSucc(G, j, P);
      var x := Mul(G, j, P);
      Laws(G, x, P, x);
      Laws(G, P, x, P);
      Laws(G, G.zero, x, x);
      Laws(G, x, G.zero, x);
      Cancel(G, P, G.zero, x);
      MulOfZero(G, j);
    }
  }

  /** row[i] = (i+1)*point */
  method Precompute<T(!new)>(G: Group<T>, point: T, sz: nat) returns (row: array<T>)
    requires Abelian(G) && 2 <= sz
    ensures IsTable(G, row[..], point, sz) && fresh(row)
  {
    var n := Pow(2, sz - 1);
    RowLength(sz);
    row := new T[n](_ => point);
    FillRow(G, row, point);
  }

  lemma {:induction false} RowLength(sz: nat)
    requires 2 <= sz
    ensures Pow(2, sz - 1) >= 2 && Pow(2, sz - 1) % 2 == 0
  {
    PowPositive(2, sz - 2);
    Pow2Even(sz - 1);
  }

  method FillRow<T(!new)>(G: Group<T>, row: array<T>, point: T)
    requires Abelian(G) && row.Length >= 2 && row.Length % 2 == 0
    modifies row
    ensures forall k :: 0 <= k < row.Length ==> row[k] == Mul(G, k + 1, point)
  {
    MulOne(G, point);
    MulAdds(G, 1, 1, point);
    row[0] := point;
    row[1] := G.add(point, point);
    var i, j := 2, 1;
    while i < row.Length
      invariant 2 <= i <= row.Length && i == 2 * j
      invariant forall k :: 0 <= k < i ==> row[k] == Mul(G, k + 1, point)
    {
      RowStep(G, point, j);
      row[i] := IncompleteAdd(G, row[j], row[j - 1]);
      row[i + 1] := G.add(row[j], row[j]);
      i, j := i + 2, j + 1;
    }
  }

  lemma {:induction false} RowStep<T(!new)>(G: Group<T>, P: T, j: int)
    requires Abelian(G)
    ensures AddOk(G, Mul(G, j + 1, P), Mul(G, j, P))
    ensures G.add(Mul(G, j + 1, P), Mul(G, j, P)) == Mul(G, 2 * j + 1, P)
    ensures G.add(Mul(G, j + 1, P), Mul(G, j + 1, P)) == Mul(G, 2 * j + 2, P)
  {
    NeighboursAddOk(G, P, j);
    MulAdds(G, j + 1, j, P);
    MulAdds(G, j + 1, j + 1, P);
  }

  /** Looking up an encoded digit: the multiple of the point that the digit names. */
  method GatherBooth<T(!new)>(G: Group<T>, table: seq<T>, B: nat, sz: nat, wval: nat, ghost P: T) returns (p: T)
    requires Abelian(G) && Sizes(B, sz) && IsTable(G, table, P, sz) && wval < 2 * Pow(2, sz)
    ensures p == Mul(G, Digit(Pow(2, sz), wval), P)
  {
    var H := Pow(2, sz);
    PowPositive(2, sz - 1);
    EncodeMeaning(B, H, wval);
    var boothIdx := BoothEncode(B, H, wval);
    HiLo(H, boothIdx);
    var sign := boothIdx / H % 2;
    var idx := boothIdx % H;
    p := G.zero;
    for i := 1 to Pow(2, sz - 1) + 1
      invariant p == if 1 <= idx < i then Mul(G, idx, P) else G.zero
    {
      if i == idx {
        p := table[i - 1];
      }
    }
    MulOne(G, P);
    MulNegates(G, idx, P);
    if sign == 1 {
      p := G.neg(p);
    }
  }

  /** The masked window value when |t| bits remain: lines 96-99, 107 and 121, or 145-147. */
  method WindowValue(scalar: seq<byte>, t: nat, window: nat, ghost bits: nat) returns (wval: nat)
    requires window <= 8 && t + window <= bits <= 8 * |scalar| && |scalar| > 0
    ensures Pow(2, bits) > 0 && Pow(2, t) > 0 && Pow(2, window) > 0
    ensures wval == 2 * (LeVal(scalar) % Pow(2, bits)) / Pow(2, t) % (2 * Pow(2, window))
    ensures wval < 2 * Pow(2, window)
  {
    PowPositive(2, bits);
    PowPositive(2, t);
    PowPositive(2, window);
    LowBits(LeVal(scalar), t, window, bits);
    if t > 0 {
      WindowOfScalar(scalar, t - 1, window + 1);
      AboveBit(LeVal(scalar), t);
      HiLo(Pow(2, window + 1), GetWval(scalar, t - 1, window + 1));
      wval := GetWval(scalar, t - 1, window + 1) % Pow(2, window + 1);
    } else {
      HiLo(Pow(2, window + 1), scalar[0] as int * 2);
      wval := scalar[0] as int * 2 % Pow(2, window + 1);
      LowestWindow(scalar, window);
    }
  }

  lemma {:induction false} AboveBit(S: nat, t: nat)
    requires t > 0
    ensures Pow(2, t) > 0 && Pow(2, t - 1) > 0 && 2 * S / Pow(2, t) == S / Pow(2, t - 1)
  {
    PowPositive(2, t - 1);
    DivDiv(2 * S, 2, Pow(2, t - 1));
  }

  lemma {:induction false} LowestWindow(scalar: seq<byte>, window: nat)
    requires |scalar| > 0 && window <= 8
    ensures Pow(2, window + 1) > 0 && Pow(2, 0) == 1
    ensures 2 * LeVal(scalar) % Pow(2, window + 1) == 2 * (scalar[0] as int) % Pow(2, window + 1)
  {
    PowPositive(2, window);
    LeTail(scalar);
    var r, K := LeVal(scalar[1..]), Pow(2, window);
    SmallPowers();
    PowAdds(2, window, 8 - window);
    var E := Pow(2, 8 - window);
    assert 512 * r == (r * E) * (2 * K) by { Associate(r, E, 2 * K); assert E * (2 * K) == 512; }
    DivShift(2 * (scalar[0] as int), r * E, 2 * K);
  }

  /** Bits at |bits| and above are never looked at. */
  lemma {:induction false} LowBits(S: nat, t: nat, window: nat, bits: nat)
    requires t + window <= bits
    ensures Pow(2, bits) > 0 && Pow(2, t) > 0 && Pow(2, window) > 0
    ensures 2 * S / Pow(2, t) % (2 * Pow(2, window)) == 2 * (S % Pow(2, bits)) / Pow(2, t) % (2 * Pow(2, window))
  {
    PowPositive(2, bits);
    PowPositive(2, t);
    PowPositive(2, window);
    var e := bits - t - window;
    PowAdds(2, t, window);
    PowAdds(2, t + window, e);
    var a, K, E, s, k := Pow(2, t), Pow(2, window), Pow(2, e), S % Pow(2, bits), S / Pow(2, bits);
    HiLo(Pow(2, bits), S);
    Reorder(k, a, K, E);
    SameWindow(2 * s, k * E, a, 2 * K);
  }

  lemma Reorder(k: nat, a: nat, K: nat, E: nat)
    ensures 2 * (k * (a * K * E)) == (k * E) * (a * (2 * K))
  {
    var m := a * K;
    assert a * (2 * K) == 2 * m by { Associate(a, 2, K); Associate(2, a, K); }
    assert k * (m * E) == (k * E) * m by { Associate(k, E, m); }
    Associate(k * E, 2, m);
    Associate(2, k * E, m);
  }

  // ---- one point, with the incomplete addition ----

  /** The scalar a call works with: the low |bits| bits of the bytes. */
  ghost function Scalar(d: seq<byte>, bits: nat): nat {
    PowPositive(2, bits);
    HiLo(Pow(2, bits), LeVal(d));
    LeVal(d) % Pow(2, bits)
  }

  /** q is the order of P. */
  ghost predicate HasOrder<T(!new)>(G: Group<T>, P: T, q: nat) {
    q > 0 && forall k: int :: Mul(G, k, P) == G.zero <==> k % q == 0
  }

  method DoubleTimes<T(!new)>(G: Group<T>, x: T, sz: nat, ghost k: int, ghost P: T) returns (r: T)
    requires Abelian(G) && x == Mul(G, k, P)
    ensures r == Mul(G, Pow(2, sz) * k, P)
  {
    r := x;
    for j := 0 to sz
      invariant r == Mul(G, Pow(2, j) * k, P)
    {
      MulAdds(G, Pow(2, j) * k, Pow(2, j) * k, P);
      Associate(2, Pow(2, j), k);
      r := G.add(r, r);
    }
  }

  lemma {:induction false} PrefixBound(s: nat, t: nat, sz: nat)
    requires t >= sz >= 2
    ensures 4 * Prefix(s, t) <= s + Pow(2, sz) / 2
    ensures 4 <= Pow(2, sz)
  {
    var H, K := Pow(2, sz), Pow(2, t);
    PowPositive(2, t);
    PowAdds(2, sz, t - sz);
    PowPositive(2, t - sz);
    MulMono(1, Pow(2, t - sz), H);
    PowAdds(2, 2, sz - 2);
    SmallPowers();
    PowPositive(2, sz - 2);
    var x := 2 * s / K;
    HiLo(K, 2 * s);
    MulMono(4, H, x);
    MulMono(H, K, x);
    assert 2 * Prefix(s, t) <= x + 1;
  }

  /** The incomplete addition of the loop never meets two equal finite points. */
  lemma {:induction false} WindowAddOk<T(!new)>(G: Group<T>, P: T, q: nat, s: nat, t: nat, sz: nat, r: nat, d: int)
    requires Abelian(G) && t >= sz >= 2 && Pow(2, sz) * r + d == Prefix(s, t)
    requires -(Pow(2, sz) / 2) <= d <= Pow(2, sz) / 2
    requires P == G.zero || (HasOrder(G, P, q) && q > 2 * Pow(2, sz) && s < q)
    ensures AddOk(G, Mul(G, Pow(2, sz) * r, P), Mul(G, d, P))
  {
    var H := Pow(2, sz);
    var X := H * r;
    if P == G.zero {
      MulOfZero(G, X);
      MulOfZero(G, d);
    } else if Mul(G, X, P) == Mul(G, d, P) {
      MulAdds(G, X, -d, P);
      MulNegates(G, d, P);
      Laws(G, Mul(G, d, P), P, P);
      assert (X - d) % q == 0;
      PrefixBound(s, t, sz);
      SmallMultiple(X - d, q);
      OnlyZero(r, H, d);
    }
  }

  lemma SmallMultiple(x: int, q: int)
    requires q > 0 && -q < x < q && x % q == 0
    ensures x == 0
  {
    if x > 0 {
      QuotRem(x, q, 0, x);
    } else if x < 0 {
      QuotRem(x, q, -1, x + q);
    }
  }

  lemma OnlyZero(r: nat, H: nat, d: int)
    requires H >= 2 && H * r == d && d <= H / 2
    ensures d == 0
  {
    if r > 0 {
      MulMono(1, r, H);
    }
  }

  /** ptype##_mult_w##SZ returns scalar*point, and adds incompletely only where that is right. */
  method MultW<T(!new)>(
      G: Group<T>, B: nat, sz: nat, point: T, scalar: seq<byte>, nbits: nat, ghost q: nat) returns (ret: T)
    requires Abelian(G) && Sizes(B, sz) && |scalar| > 0 && nbits <= 8 * |scalar|
    requires point == G.zero || (HasOrder(G, point, q) && q > 2 * Pow(2, sz) && Scalar(scalar, nbits) < q)
    ensures ret == Mul(G, Scalar(scalar, nbits), point)
  {
    ghost var s := Scalar(scalar, nbits);
    var row := Precompute(G, point, sz);
    var table := row[..];
    var bits, window := SplitBits(nbits, sz);
    ret := TopWindow(G, B, sz, table, scalar, bits, window, point);
    ret := WindowLoop(G, B, sz, table, scalar, nbits, bits, ret, point, q);
  }

  /** The loop of lines 151-168. */
  method WindowLoop<T(!new)>(
      G: Group<T>, B: nat, sz: nat, table: seq<T>, scalar: seq<byte>, nbits: nat, t: nat, acc: T, ghost P: T,
      ghost q: nat)
      returns (ret: T)
    requires Abelian(G) && Sizes(B, sz) && IsTable(G, table, P, sz) && |scalar| > 0 && t <= nbits <= 8 * |scalar|
    requires Windows(t, sz)
    requires P == G.zero || (HasOrder(G, P, q) && q > 2 * Pow(2, sz) && Scalar(scalar, nbits) < q)
    requires acc == Mul(G, Prefix(Scalar(scalar, nbits), t), P)
    ensures ret == Mul(G, Scalar(scalar, nbits), P)
  {
    var bits: nat := t;
    ret := acc;
    while bits > 0
      invariant bits <= nbits && Windows(bits, sz)
      invariant ret == Mul(G, Prefix(Scalar(scalar, nbits), bits), P)
    {
      bits := bits - sz;
      ret := NextWindow(G, B, sz, table, scalar, nbits, bits, ret, P, q);
    }
    PrefixEnd(Scalar(scalar, nbits));
  }

  /** |bits| is made of whole windows. */
  ghost predicate Windows(bits: nat, sz: nat) {
    bits == 0 || (bits >= sz > 0 && Windows(bits - sz, sz))
  }

  lemma {:induction false} WholeWindows(k: nat, sz: nat)
    requires sz > 0
    ensures Windows(k * sz, sz)
  {
    if k > 0 {
      WholeWindows(k - 1, sz);
      Distribute(k - 1, 1, sz);
    }
  }

  /** The top excess bits modulo the window size. */
  method SplitBits(nbits: nat, sz: nat) returns (bits: nat, window: nat)
    requires sz > 0
    ensures bits + window == nbits && window < sz && Windows(bits, sz)
  {
    HiLo(sz, nbits);
    MulMono(0, nbits / sz, sz);
    WholeWindows(nbits / sz, sz);
    window := nbits % sz;
    bits := nbits - window;
  }

  /** The first, possibly empty, window: lines 141-149. */
  method TopWindow<T(!new)>(
      G: Group<T>, B: nat, sz: nat, table: seq<T>, scalar: seq<byte>, t: nat, window: nat, ghost P: T)
      returns (ret: T)
    requires Abelian(G) && Sizes(B, sz) && IsTable(G, table, P, sz) && |scalar| > 0 && t + window <= 8 * |scalar|
    requires window < sz
    ensures ret == Mul(G, Prefix(Scalar(scalar, t + window), t), P)
  {
    ghost var nbits := t + window;
    PowPositive(2, nbits);
    HiLo(Pow(2, nbits), LeVal(scalar));
    FirstWindow(Scalar(scalar, nbits), nbits, window, sz);
    var wval := WindowValue(scalar, t, window, nbits);
    ret := GatherBooth(G, table, B, sz, wval, P);
  }

  /** One turn of the loop: double SZ times, then add the next signed digit. */
  method NextWindow<T(!new)>(
      G: Group<T>, B: nat, sz: nat, table: seq<T>, scalar: seq<byte>, nbits: nat, bits: nat, acc: T, ghost P: T,
      ghost q: nat)
      returns (ret: T)
    requires Abelian(G) && Sizes(B, sz) && IsTable(G, table, P, sz) && |scalar| > 0
    requires bits + sz <= nbits <= 8 * |scalar|
    requires bits > 0 ==> bits >= sz
    requires P == G.zero || (HasOrder(G, P, q) && q > 2 * Pow(2, sz) && Scalar(scalar, nbits) < q)
    requires acc == Mul(G, Prefix(Scalar(scalar, nbits), bits + sz), P)
    ensures ret == Mul(G, Prefix(Scalar(scalar, nbits), bits), P)
  {
    ghost var s := Scalar(scalar, nbits);
    ret := DoubleTimes(G, acc, sz, Prefix(s, bits + sz), P);
    var wval := WindowValue(scalar, bits, sz, nbits);
    var temp := GatherBooth(G, table, B, sz, wval, P);
    NextDigit(G, B, sz, P, q, s, bits, wval);
    if bits > 0 {
      ret := IncompleteAdd(G, ret, temp);
    } else {
      ret := G.add(ret, temp);
    }
  }

  lemma {:induction false} DigitRange(B: nat, sz: nat, wval: nat)
    requires Sizes(B, sz) && wval < 2 * Pow(2, sz)
    ensures -(Pow(2, sz) / 2) <= Digit(Pow(2, sz), wval) <= Pow(2, sz) / 2
  {
    Pow2Even(sz);
    EncodeMeaning(B, Pow(2, sz), wval);
  }

  lemma {:induction false} NextDigit<T(!new)>(G: Group<T>, B: nat, sz: nat, P: T, q: nat, s: nat, t: nat, wval: nat)
    requires Abelian(G) && Sizes(B, sz) && wval == Window(s, t, Pow(2, sz)) < 2 * Pow(2, sz) && (t > 0 ==> t >= sz)
    requires P == G.zero || (HasOrder(G, P, q) && q > 2 * Pow(2, sz) && s < q)
    ensures var x, y := Mul(G, Pow(2, sz) * Prefix(s, t + sz), P), Mul(G, Digit(Pow(2, sz), wval), P);
            (t > 0 ==> AddOk(G, x, y)) && G.add(x, y) == Mul(G, Prefix(s, t), P)
  {
    var r, d := Prefix(s, t + sz), Digit(Pow(2, sz), wval);
    RecodeStep(s, t + sz, sz);
    DigitRange(B, sz, wval);
    MulAdds(G, Pow(2, sz) * r, d, P);
    if t > 0 {
      WindowAddOk(G, P, q, s, t, sz, r, d);
    }
  }

  // ---- several points, with the complete addition ----

  ghost function Scalars(ds: seq<seq<byte>>, bits: nat): seq<int> {
    seq(|ds|, i requires 0 <= i < |ds| => Scalar(ds[i], bits))
  }

  ghost predicate Tables<T>(G: Group<T>, tables: seq<seq<T>>, points: seq<T>, sz: nat) {
    |tables| == |points| && forall i :: 0 <= i < |tables| ==> IsTable(G, tables[i], points[i], sz)
  }

  ghost predicate Wide(scalars: seq<seq<byte>>, nbits: nat) {
    forall i :: 0 <= i < |scalars| ==> |scalars[i]| > 0 && nbits <= 8 * |scalars[i]|
  }

  /** The window of |window| bits at |t| has the same value as the one of SZ bits. */
  ghost predicate Agrees(s: nat, t: nat, window: nat, sz: nat) {
    PowPositive(2, t); PowPositive(2, window); PowPositive(2, sz);
    2 * s / Pow(2, t) % (2 * Pow(2, window)) == Window(s, t, Pow(2, sz)) < 2 * Pow(2, sz)
  }

  /** Coefficient c of a point whose digit for bit position t has yet to be added. */
  ghost predicate Pending(c: int, s: nat, t: nat, sz: nat) {
    PowPositive(2, sz);
    c + Digit(Pow(2, sz), Window(s, t, Pow(2, sz))) == Prefix(s, t)
  }

  /** Which coefficients the accumulated sum has: points before |i| are up to date, the others pending. */
  ghost predicate Coefficients(c: seq<int>, scalars: seq<seq<byte>>, nbits: nat, t: nat, window: nat, sz: nat, i: nat) {
    && |c| == |scalars| && i <= |c|
    && (forall j :: 0 <= j < i ==> c[j] == Prefix(Scalar(scalars[j], nbits), t))
    && (forall j :: i <= j < |c| ==> Pending(c[j], Scalar(scalars[j], nbits), t, sz))
    && (forall j :: i <= j < |c| ==> Agrees(Scalar(scalars[j], nbits), t, window, sz))
  }

  /** Adding the window digits of points i, i+1, ..., lines 105-110 and 120-125. */
  method AddWindows<T(!new)>(
      G: Group<T>, B: nat, sz: nat, tables: seq<seq<T>>, scalars: seq<seq<byte>>, nbits: nat, t: nat, window: nat,
      i0: nat, acc: T, ghost c0: seq<int>, ghost points: seq<T>)
      returns (ret: T, ghost c: seq<int>)
    requires Abelian(G) && Sizes(B, sz) && Tables(G, tables, points, sz) && |scalars| == |points|
    requires Wide(scalars, nbits)
    requires window <= sz && t + window <= nbits && Coefficients(c0, scalars, nbits, t, window, sz, i0)
    requires acc == Dot(G, c0, points)
    ensures Coefficients(c, scalars, nbits, t, window, sz, |points|) && ret == Dot(G, c, points)
  {
    ret, c := acc, c0;
    for i := i0 to |scalars|
      invariant Coefficients(c, scalars, nbits, t, window, sz, i) && ret == Dot(G, c, points)
    {
      assert |scalars[i]| > 0 && nbits <= 8 * |scalars[i]| && IsTable(G, tables[i], points[i], sz);
      ghost var s := Scalar(scalars[i], nbits);
      var wval := WindowValue(scalars[i], t, window, nbits);
      assert Agrees(s, t, window, sz) && Pending(c[i], s, t, sz);
      var temp := GatherBooth(G, tables[i], B, sz, wval, points[i]);
      ghost var d := Digit(Pow(2, sz), wval);
      DotUpdate(G, c, points, i, d);
      ret := G.add(ret, temp);
      c := c[i := c[i] + d];
    }
  }

  /** SZ doublings of the sum multiply every coefficient by 2^SZ. */
  method DoubleSum<T(!new)>(
      G: Group<T>, acc: T, sz: nat, ghost c0: seq<int>, ghost points: seq<T>) returns (ret: T, ghost c: seq<int>)
    requires Abelian(G) && |c0| == |points| && acc == Dot(G, c0, points)
    ensures |c| == |c0| && (forall j :: 0 <= j < |c| ==> c[j] == Pow(2, sz) * c0[j]) && ret == Dot(G, c, points)
  {
    ret, c := acc, c0;
    for k := 0 to sz
      invariant |c| == |c0| && ret == Dot(G, c, points)
      invariant forall j :: 0 <= j < |c| ==> c[j] == Pow(2, k) * c0[j]
    {
      DotDouble(G, c, points);
      forall j | 0 <= j < |c| ensures Doubled(c)[j] == Pow(2, k + 1) * c0[j] {
        Associate(2, Pow(2, k), c0[j]);
      }
      ret := G.add(ret, ret);
      c := Doubled(c);
    }
  }

  lemma {:induction false} ShiftedCoefficients(
      c: seq<int>, c': seq<int>, scalars: seq<seq<byte>>, nbits: nat, t: nat, window: nat, sz: nat)
    requires t >= sz > 0 && Coefficients(c, scalars, nbits, t, window, sz, |scalars|)
    requires |c'| == |c| && forall j :: 0 <= j < |c| ==> c'[j] == Pow(2, sz) * c[j]
    ensures Coefficients(c', scalars, nbits, t - sz, sz, sz, 0)
  {
    forall j | 0 <= j < |c'|
      ensures Pending(c'[j], Scalar(scalars[j], nbits), t - sz, sz) && Agrees(Scalar(scalars[j], nbits), t - sz, sz, sz)
    {
      RecodeStep(Scalar(scalars[j], nbits), t, sz);
      PowPositive(2, t - sz);
      PowPositive(2, sz);
      HiLo(2 * Pow(2, sz), 2 * Scalar(scalars[j], nbits) / Pow(2, t - sz));
    }
  }

  lemma {:induction false} FirstCoefficients(c: seq<int>, scalars: seq<seq<byte>>, t: nat, window: nat, sz: nat)
    requires window < sz && |c| == |scalars| && forall j :: 0 <= j < |c| ==> c[j] == 0
    ensures Coefficients(c, scalars, t + window, t, window, sz, 0)
  {
    var nbits := t + window;
    forall j | 0 <= j < |c|
      ensures Pending(c[j], Scalar(scalars[j], nbits), t, sz) && Agrees(Scalar(scalars[j], nbits), t, window, sz)
    {
      PowPositive(2, nbits);
      HiLo(Pow(2, nbits), LeVal(scalars[j]));
      FirstWindow(Scalar(scalars[j], nbits), nbits, window, sz);
    }
  }

  method PrecomputeAll<T(!new)>(G: Group<T>, points: seq<T>, sz: nat) returns (tables: seq<seq<T>>)
    requires Abelian(G) && 2 <= sz
    ensures Tables(G, tables, points, sz)
  {
    tables := [];
    for i := 0 to |points|
      invariant |tables| == i && forall j :: 0 <= j < i ==> IsTable(G, tables[j], points[j], sz)
    {
      var row := Precompute(G, points[i], sz);
      tables := tables + [row[..]];
    }
  }

  /** ptype##s_mult_w##SZ is the sum of scalars[i]*points[i], in any abelian group. */
  method MultsW<T(!new)>(
      G: Group<T>, B: nat, sz: nat, points: seq<T>, scalars: seq<seq<byte>>, nbits: nat) returns (ret: T)
    requires Abelian(G) && Sizes(B, sz) && |points| == |scalars| > 0 && Wide(scalars, nbits)
    ensures ret == Dot(G, Scalars(scalars, nbits), points)
  {
    var tables := PrecomputeAll(G, points, sz);
    var bits, window := SplitBits(nbits, sz);
    ghost var c;
    ret, c := FirstPoint(G, B, sz, tables, scalars, bits, window, points);
    ret := SumLoop(G, B, sz, tables, scalars, nbits, bits, window, ret, c, points);
  }

  /** The loop over the windows and what follows it, lines 103-125. */
  method SumLoop<T(!new)>(
      G: Group<T>, B: nat, sz: nat, tables: seq<seq<T>>, scalars: seq<seq<byte>>, nbits: nat, t: nat, topWindow: nat,
      acc: T, ghost c0: seq<int>, ghost points: seq<T>)
      returns (ret: T)
    requires Abelian(G) && Sizes(B, sz) && Tables(G, tables, points, sz) && |scalars| == |points| > 0
    requires Wide(scalars, nbits)
    requires topWindow <= sz && t + topWindow <= nbits && Windows(t, sz)
    requires Coefficients(c0, scalars, nbits, t, topWindow, sz, 1) && acc == Dot(G, c0, points)
    ensures ret == Dot(G, Scalars(scalars, nbits), points)
  {
    var bits: nat, window: nat, i: nat := t, topWindow, 1;
    ghost var c := c0;
    ret := acc;
    while bits > 0
      invariant Windows(bits, sz) && bits + window <= nbits && window <= sz
      invariant Coefficients(c, scalars, nbits, bits, window, sz, i) && ret == Dot(G, c, points)
    {
      ret, c := SumStep(G, B, sz, tables, scalars, nbits, bits, window, i, ret, c, points);
      window := sz;
      bits := bits - window;
      i := 0;
    }
    ret, c := AddWindows(G, B, sz, tables, scalars, nbits, 0, window, i, ret, c, points);
    EndCoefficients(c, scalars, nbits, window, sz);
  }

  /** One turn of the loop: add what is left of this window, then shift. */
  method SumStep<T(!new)>(
      G: Group<T>, B: nat, sz: nat, tables: seq<seq<T>>, scalars: seq<seq<byte>>, nbits: nat, t: nat, window: nat,
      i: nat, acc: T, ghost c0: seq<int>, ghost points: seq<T>)
      returns (ret: T, ghost c: seq<int>)
    requires Abelian(G) && Sizes(B, sz) && Tables(G, tables, points, sz) && |scalars| == |points|
    requires Wide(scalars, nbits)
    requires window <= sz <= t && t + window <= nbits && Coefficients(c0, scalars, nbits, t, window, sz, i)
    requires acc == Dot(G, c0, points)
    ensures Coefficients(c, scalars, nbits, t - sz, sz, sz, 0) && ret == Dot(G, c, points)
  {
    ghost var c1;
    ret, c1 := AddWindows(G, B, sz, tables, scalars, nbits, t, window, i, acc, c0, points);
    ret, c := DoubleSum(G, ret, sz, c1, points);
    ShiftedCoefficients(c1, c, scalars, nbits, t, window, sz);
  }

  /** Lines 92-101: the top window of the first point starts the sum. */
  method FirstPoint<T(!new)>(
      G: Group<T>, B: nat, sz: nat, tables: seq<seq<T>>, scalars: seq<seq<byte>>, t: nat, window: nat,
      ghost points: seq<T>)
      returns (ret: T, ghost c: seq<int>)
    requires Abelian(G) && Sizes(B, sz) && Tables(G, tables, points, sz) && |scalars| == |points| > 0
    requires Wide(scalars, t + window)
    requires window < sz
    ensures Coefficients(c, scalars, t + window, t, window, sz, 1) && ret == Dot(G, c, points)
  {
    ghost var c0 := seq(|points|, _ => 0);
    FirstCoefficients(c0, scalars, t, window, sz);
    DotZero(G, c0, points);
    assert |scalars[0]| > 0 && t + window <= 8 * |scalars[0]| && IsTable(G, tables[0], points[0], sz);
    ret := TopWindow(G, B, sz, tables[0], scalars[0], t, window, points[0]);
    ghost var d: int := Prefix(Scalar(scalars[0], t + window), t);
    c := c0[0 := c0[0] + d];
    StartSum(G, c0, points, d);
  }

  lemma {:induction false} StartSum<T(!new)>(G: Group<T>, c0: seq<int>, points: seq<T>, d: int)
    requires Abelian(G) && |c0| == |points| > 0 && Dot(G, c0, points) == G.zero
    ensures Dot(G, c0[0 := c0[0] + d], points) == Mul(G, d, points[0])
  {
    DotUpdate(G, c0, points, 0, d);
    Laws(G, Mul(G, d, points[0]), G.zero, G.zero);
  }

  lemma {:induction false} EndCoefficients(c: seq<int>, scalars: seq<seq<byte>>, nbits: nat, window: nat, sz: nat)
    requires Coefficients(c, scalars, nbits, 0, window, sz, |scalars|)
    ensures c == Scalars(scalars, nbits)
  {
    forall j | 0 <= j < |c| ensures c[j] == Scalars(scalars, nbits)[j] {
      PrefixEnd(Scalar(scalars[j], nbits));
    }
  }
}
