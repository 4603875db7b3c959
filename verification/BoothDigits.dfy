/** Window values of a little-endian scalar and their signed (Booth) digits (external/blst/ec_mult.h:11-37). */
module BoothDigits {
  import opened ByteStrings
  import opened Limbs
  import opened LittleEndian

  // ---- division facts ----

  lemma DivShift(y: int, k: int, c: int)
    requires c > 0
    ensures (y + k * c) / c == y / c + k && (y + k * c) % c == y % c
  {
    Distribute(y / c, k, c);
    QuotRem(y + k * c, c, y / c + k, y % c);
  }

  /** Only the remainder modulo a*b matters for the low digits of x/a in base b. */
  lemma SameWindow(x: nat, k: nat, a: nat, b: nat)
    requires a > 0 && b > 0
    ensures (x + k * (a * b)) / a % b == x / a % b
  {
    Associate(k, a, b);
    Associate(k, b, a);
    DivShift(x, k * b, a);
    DivShift(x / a, k, b);
  }

  // ---- window values ----

  /** x >> k */
  function Shr(x: nat, k: nat): nat {
    PowPositive(2, k);
    HiLo(Pow(2, k), x);
    x / Pow(2, k)
  }

  /** get_wval: at most nine bits starting at bit |off|, with junk above them. */
  function GetWval(d: seq<byte>, off: nat, bits: nat): nat
    requires 0 < bits <= 9 && off + bits - 1 < 8 * |d|
  {
    var top := off + bits - 1;
    Shr(d[top / 8] as int * 256 + d[off / 8] as int, off % 8)
  }

  /** Masked to its width, the window value is that part of the scalar. */
  lemma {:induction false} WindowOfScalar(d: seq<byte>, off: nat, bits: nat)
    requires 0 < bits <= 9 && off + bits - 1 < 8 * |d|
    ensures Pow(2, off) > 0 && Pow(2, bits) > 0
    ensures GetWval(d, off, bits) % Pow(2, bits) == LeVal(d) / Pow(2, off) % Pow(2, bits)
  {
    PowPositive(2, off);
    PowPositive(2, bits);
    var o, m, top := off / 8, off % 8, (off + bits - 1) / 8;
    var low, rest := SplitAt(d, o);
    PowPositive(2, m);
    PowPositive(256, o);
    Pow256(o);
    PowAdds(2, 8 * o, m);
    DivDiv(LeVal(d), Pow(256, o), Pow(2, m));
    QuotRem(LeVal(d), Pow(256, o), rest, low);
    var rest1 := rest / 256;
    if top == o {
      SameByte(d[o], rest1, m, bits);
      SameByte(d[o], d[o], m, bits);
    } else {
      assert top == o + 1;
      LeTail(d[o + 1..]);
      NextByte(d[o], d[top], rest1 / 256, m, bits);
    }
  }

  /** A window that lies in one byte does not see what is above it. */
  lemma {:induction false} SameByte(x: nat, junk: nat, m: nat, bits: nat)
    requires x < 256 && m + bits <= 8
    ensures Pow(2, m) > 0 && Pow(2, bits) > 0
    ensures (x + 256 * junk) / Pow(2, m) % Pow(2, bits) == x / Pow(2, m) % Pow(2, bits)
    ensures (junk * 256 + x) / Pow(2, m) % Pow(2, bits) == x / Pow(2, m) % Pow(2, bits)
  {
    SmallPowers();
    PowPositive(2, m);
    PowPositive(2, bits);
    var e := 8 - m - bits;
    PowAdds(2, m + bits, e);
    PowAdds(2, m, bits);
    var E := Pow(2, e);
    AboveWindow(x, junk, Pow(2, m), Pow(2, bits), E, 256);
  }

  lemma {:induction false} NextByte(x: nat, y: nat, junk: nat, m: nat, bits: nat)
    requires x < 256 && y < 256 && m <= 7 && bits <= 9
    ensures Pow(2, m) > 0 && Pow(2, bits) > 0
    ensures (x + 256 * (y + 256 * junk)) / Pow(2, m) % Pow(2, bits) == (y * 256 + x) / Pow(2, m) % Pow(2, bits)
  {
    SmallPowers();
    PowPositive(2, m);
    PowPositive(2, bits);
    var e := 16 - m - bits;
    PowAdds(2, 8, 8);
    PowAdds(2, m + bits, e);
    PowAdds(2, m, bits);
    AboveWindow(y * 256 + x, junk, Pow(2, m), Pow(2, bits), Pow(2, e), 65536);
  }

  /** Multiples of a number that the window divides do not show in it. */
  lemma AboveWindow(x: nat, junk: nat, a: nat, b: nat, e: nat, whole: nat)
    requires a > 0 && b > 0 && whole == a * b * e
    ensures (x + whole * junk) / a % b == x / a % b
  {
    Associate(junk, e, a * b);
    assert whole * junk == junk * e * (a * b);
    SameWindow(x, junk * e, a, b);
  }

  // ---- signed digits ----

  /** booth_encode on B-valued limbs; H is 2^SZ. */
  function BoothEncode(B: nat, H: nat, wval: nat): nat
    requires wval < 2 * H <= B
  {
    var v := (wval + 1) / 2;
    if wval / H == 0 then v else (B - v) % B
  }

  /** The signed digit of a window value: its upper half is negative. */
  function Digit(H: nat, wval: nat): int {
    (wval + 1) / 2 - (if wval >= H then H else 0)
  }

  /** What gathering does with an encoded digit: the table index, at most H/2, and the sign. */
  lemma EncodeMeaning(B: nat, H: nat, wval: nat)
    requires wval < 2 * H <= B && H % 2 == 0 && B % (2 * H) == 0
    ensures var idx := BoothEncode(B, H, wval);
            && 0 <= idx % H <= H / 2
            && Digit(H, wval) == if idx / H % 2 == 1 then -(idx % H) else idx % H
    ensures -(H / 2) <= Digit(H, wval) <= H / 2
  {
    var v := (wval + 1) / 2;
    if wval < H {
      QuotRem(wval, H, 0, wval);
      QuotRem(v, H, 0, v);
    } else {
      QuotRem(wval, H, 1, wval - H);
      QuotRem(B - v, B, 0, B - v);
      NegativeIndex(B, H, v);
    }
  }

  lemma NegativeIndex(B: nat, H: nat, v: nat)
    requires 0 < v <= H <= B && B % (2 * H) == 0 && v >= H / 2 && H % 2 == 0
    ensures (B - v) / H % 2 == 1 && (B - v) % H == H - v
  {
    var k := B / (2 * H);
    assert B == k * (2 * H);
    Associate(k, 2, H);
    DistributeSub(2 * k, 1, H);
    if v < H || v == H {
      QuotRem(B - v, H, 2 * k - 1, H - v);
    }
  }

  /** The scalar's part above bit t, rounded: what has been accumulated when |t| bits remain. */
  ghost function Prefix(s: nat, t: nat): nat {
    PowPositive(2, t);
    (2 * s / Pow(2, t) + 1) / 2
  }

  /** The window that is recoded when |t| bits remain. */
  ghost function Window(s: nat, t: nat, H: nat): nat
    requires H > 0
  {
    PowPositive(2, t);
    2 * s / Pow(2, t) % (2 * H)
  }

  /** One more window: shift by SZ bits and add the signed digit. */
  lemma {:induction false} RecodeStep(s: nat, t: nat, sz: nat)
    requires t >= sz > 0
    ensures Pow(2, sz) > 0
    ensures Prefix(s, t - sz) == Pow(2, sz) * Prefix(s, t) + Digit(Pow(2, sz), Window(s, t - sz, Pow(2, sz)))
  {
    var H := Pow(2, sz);
    PowPositive(2, sz);
    PowPositive(2, t - sz);
    PowAdds(2, t - sz, sz);
    DivDiv(2 * s, Pow(2, t - sz), H);
    Pow2Even(sz);
    RoundStep(2 * s / Pow(2, t - sz), H);
  }

  lemma RoundStep(y: nat, H: nat)
    requires H > 0 && H % 2 == 0
    ensures (y + 1) / 2 == H * ((y / H + 1) / 2) + Digit(H, y % (2 * H))
  {
    var x, y0 := y / H, y % H;
    var q, odd := x / 2, x % 2;
    HiLo(H, y);
    SplitTwice(q, odd, y0, H);
    assert y == q * (2 * H) + (odd * H + y0);
    QuotRem(y, 2 * H, q, odd * H + y0);
    assert (x + 1) / 2 == q + odd;
    RoundParts(q, odd, y0, H);
  }

  lemma SplitTwice(q: nat, odd: nat, y0: nat, H: nat)
    requires y0 < H && odd <= 1
    ensures 0 <= odd * H + y0 < 2 * H && (2 * q + odd) * H == q * (2 * H) + odd * H
  {
    Distribute(2 * q, odd, H);
    Associate(q, 2, H);
  }

  lemma RoundParts(q: nat, odd: nat, y0: nat, H: nat)
    requires H % 2 == 0 && y0 < H && odd <= 1
    ensures 0 <= odd * H + y0
    ensures (q * (2 * H) + (odd * H + y0) + 1) / 2 == H * (q + odd) + Digit(H, odd * H + y0)
  {
    var z := H * q;
    Associate(q, 2, H);
    assert q * (2 * H) == 2 * z;
    Distribute(q, odd, H);
    if odd == 0 {
      RoundEven(z, y0);
    } else {
      RoundOdd(z, y0, H);
    }
  }

  lemma RoundEven(z: nat, y0: nat)
    ensures (2 * z + y0 + 1) / 2 == z + (y0 + 1) / 2
  {
  }

  lemma RoundOdd(z: nat, y0: nat, H: nat)
    requires H % 2 == 0
    ensures (2 * z + y0 + H + 1) / 2 == z + H + ((y0 + H + 1) / 2 - H)
  {
  }

  /** With all bits consumed, the rounded prefix is the scalar. */
  lemma PrefixEnd(s: nat)
    ensures Prefix(s, 0) == s
  {
    assert Pow(2, 0) == 1;
  }

  /** The top window has no sign bit, and its digit is the first prefix. */
  lemma {:induction false} FirstWindow(s: nat, bits: nat, window: nat, sz: nat)
    requires s < Pow(2, bits) && window <= bits && window < sz
    ensures Pow(2, sz) > 0 && Pow(2, window) > 0 && Pow(2, bits - window) > 0
    ensures 2 * s / Pow(2, bits - window) % (2 * Pow(2, window)) == Window(s, bits - window, Pow(2, sz))
    ensures Window(s, bits - window, Pow(2, sz)) < Pow(2, sz)
    ensures Digit(Pow(2, sz), Window(s, bits - window, Pow(2, sz))) == Prefix(s, bits - window)
  {
    PowPositive(2, sz);
    PowPositive(2, window);
    PowPositive(2, bits - window);
    var x := 2 * s / Pow(2, bits - window);
    TopWindowFits(s, bits, window);
    NarrowWindow(window, sz);
    QuotRem(x, 2 * Pow(2, window), 0, x);
    QuotRem(x, 2 * Pow(2, sz), 0, x);
  }

  lemma {:induction false} TopWindowFits(s: nat, bits: nat, window: nat)
    requires s < Pow(2, bits) && window <= bits
    ensures Pow(2, bits - window) > 0 && 2 * s / Pow(2, bits - window) < 2 * Pow(2, window)
  {
    PowPositive(2, bits - window);
    var P, K := Pow(2, bits - window), Pow(2, window);
    PowAdds(2, bits - window, window);
    var x := 2 * s / P;
    HiLo(P, 2 * s);
    if x >= 2 * K {
      MulMono(2 * K, x, P);
      Associate(2, K, P);
    }
  }

  lemma {:induction false} NarrowWindow(window: nat, sz: nat)
    requires window < sz
    ensures 2 * Pow(2, window) <= Pow(2, sz)
    decreases sz
  {
    if window + 1 < sz {
      NarrowWindow(window, sz - 1);
    }
  }
}
