/** Decoding field elements (external/ref10/fe_frombytes.c), and the two round trips with fe_tobytes. */
module FeFromBytes {
  import opened ByteStrings
  import opened LittleEndian
  import opened Limbs
  import opened BytePacking
  import opened FeBytes

  /** The limbs as first loaded, wider than their radix; the top bit of the input is dropped. */
  function Loaded(s: seq<byte>): (h: seq<int>)
    requires |s| == 32
    ensures |h| == 10 && forall i :: 0 <= i < 10 ==> 0 <= h[i] < 0x1_0000_0000
    ensures h[9] < E25
  {
    [Load4(s, 0), Load3(s, 4) * 64, Load3(s, 7) * 32, Load3(s, 10) * 8, Load3(s, 13) * 4,
     Load4(s, 16), Load3(s, 20) * 128, Load3(s, 23) * 32, Load3(s, 26) * 16, Load3(s, 29) % 0x800000 * 4]
  }

  lemma LoadedValue(s: seq<byte>)
    requires |s| == 32
    ensures FeVal(Loaded(s)) == LeVal(s) % TWO_255
  {
    FeValSum(Loaded(s));
    ThirtyTwo(s);
    var l := Load3(s, 29);
    LoadedLow(s);
    LoadedHigh(s[16..]);
    SmallLoaded(s);
    QuotRem(LeVal(s), TWO_255, l / 0x800000, FeVal(Loaded(s)));
  }

  lemma LoadedLow(s: seq<byte>)
    requires |s| >= 16
    ensures Le16(s)
        == Load4(s, 0) * 0x1 + Load3(s, 4) * 0x100000000 + Load3(s, 7) * 0x100000000000000
        + Load3(s, 10) * 0x100000000000000000000 + Load3(s, 13) * 0x100000000000000000000000000
  {
  }

  lemma LoadedHigh(s: seq<byte>)
    requires |s| >= 16
    ensures Le16(s)
        == Load4(s, 0) * 0x1 + Load3(s, 4) * 0x100000000 + Load3(s, 7) * 0x100000000000000
        + Load3(s, 10) * 0x100000000000000000000 + Load3(s, 13) * 0x100000000000000000000000000
  {
  }

  lemma SmallLoaded(s: seq<byte>)
    requires |s| == 32
    ensures 0 <= FeVal(Loaded(s)) < TWO_255
  {
    FeValSum(Loaded(s));
  }

  ghost predicate Wide(x: seq<int>) {
    |x| == 10 && (forall i :: 0 <= i < 10 ==> 0 <= x[i] < 0x1_0000_0000) && x[9] < E25
  }

  /** An odd limb gives its quotient, rounded to nearest, upwards. */
  method RoundOdd(x: seq<int>, i: nat) returns (low: int, carry: int)
    requires Wide(x) && i < 10 && i % 2 == 1
    ensures Passes(x, i, 0, low, carry) && -E25 <= 2 * low < E25 && 0 <= carry <= 0x80 && (i == 9 ==> carry <= 1)
  {
    carry := I64(x[i] + 0x1000000) / E25;
    low := I64(x[i] - carry * E25);
  }

  /** An even limb that has already taken a carry from below. */
  method RoundEven(x: seq<int>, i: nat, c: int) returns (low: int, carry: int)
    requires Wide(x) && i < 10 && i % 2 == 0 && 0 <= c <= 0x80
    ensures Passes(x, i, c, low, carry) && Fits(low, i) && 0 <= carry <= 0x80
  {
    low := I64(x[i] + c);
    carry := I64(low + 0x2000000) / E26;
    low := I64(low - carry * E26);
  }

  /** The odd limb takes the carry of the even limb below it. */
  method AddUp(x: seq<int>, i: nat, low: int, c: int, carry: int) returns (h: int)
    requires Wide(x) && i < 10 && i % 2 == 1 && Passes(x, i, 0, low, carry) && -E25 <= 2 * low < E25 && 0 <= c <= 0x80
    ensures Passes(x, i, c, h, carry) && Fits(h, i)
  {
    h := I64(low + c);
  }

  ghost predicate Fits(x: int, i: nat) {
    10 * -x <= 11 * Radix(i) && 10 * x <= 11 * Radix(i)
  }

  lemma FitsReducible(h: seq<int>)
    requires |h| == 10 && forall i :: 0 <= i < 10 ==> Fits(h[i], i)
    ensures Reducible(h)
  {
  }

  /** The ten carries of lines 51-61: odd limbs first, then even ones. */
  method RoundCarries(x: seq<int>) returns (h: seq<int>, ghost cs: seq<int>)
    requires Wide(x)
    ensures Carried(x, h, cs) && cs[0] == 19 * cs[10] && Reducible(h)
  {
    var l9, carry9 := RoundOdd(x, 9);
    var l1, carry1 := RoundOdd(x, 1);
    var l3, carry3 := RoundOdd(x, 3);
    var l5, carry5 := RoundOdd(x, 5);
    var l7, carry7 := RoundOdd(x, 7);
    var h0, carry0 := RoundEven(x, 0, 19 * carry9);
    var h1 := AddUp(x, 1, l1, carry0, carry1);
    var h2, carry2 := RoundEven(x, 2, carry1);
    var h3 := AddUp(x, 3, l3, carry2, carry3);
    var h4, carry4 := RoundEven(x, 4, carry3);
    var h5 := AddUp(x, 5, l5, carry4, carry5);
    var h6, carry6 := RoundEven(x, 6, carry5);
    var h7 := AddUp(x, 7, l7, carry6, carry7);
    var h8, carry8 := RoundEven(x, 8, carry7);
    var h9 := AddUp(x, 9, l9, carry8, carry9);
    h := [h0, h1, h2, h3, h4, h5, h6, h7, h8, h9];
    cs := [19 * carry9, carry0, carry1, carry2, carry3, carry4, carry5, carry6, carry7, carry8, carry9];
    FitsReducible(h);
  }

  /** The carries change the value by a multiple of 2^255 - 19. */
  lemma CarriedAround(x: seq<int>, h: seq<int>, cs: seq<int>)
    requires |x| == 10 && Carried(x, h, cs) && cs[0] == 19 * cs[10]
    ensures FeVal(h) == FeVal(x) - P * cs[10]
  {
    CarriedLow(x, h, cs, 10);
    Weights();
  }

  /** The element that 32 bytes spell, the top bit ignored. */
  ghost predicate Decodes(s: seq<byte>, h: seq<int>)
    requires |h| == 10
  {
    |s| == 32 && FeVal(h) % P == (LeVal(s) % TWO_255) % P
  }

  /** fe_frombytes; its result meets the bounds that fe_tobytes asks for. */
  method FeFromBytes(s: seq<byte>) returns (h: seq<int>)
    requires |s| == 32
    ensures Reducible(h) && Decodes(s, h)
  {
    var x := Loaded(s);
    ghost var cs;
    h, cs := RoundCarries(x);
    CarriedAround(x, h, cs);
    LoadedValue(s);
    SameRemainder(FeVal(x), FeVal(h), cs[10]);
  }

  lemma SameRemainder(x: int, y: int, k: int)
    requires y == x - P * k
    ensures x % P == y % P
  {
    var q := y / P;
    var r := y % P;
    QuotRem(x, P, q + k, r);
  }

  // ---- round trips ----

  lemma {:induction false} LeUnique(s: seq<byte>, t: seq<byte>)
    requires |s| == |t| && LeVal(s) == LeVal(t)
    ensures s == t
  {
    ValUnique(256, Nats(s), Nats(t), |s|);
    forall i | 0 <= i < |s|
      ensures s[i] == t[i]
    {
      assert Nats(s)[i] == Nats(s)[..|s|][i] && Nats(t)[i] == Nats(t)[..|s|][i];
    }
  }

  /** Encoding what was decoded gives the bytes back exactly when they are canonical. */
  lemma DecodeEncode(s: seq<byte>, h: seq<int>, t: seq<byte>)
    requires |h| == 10 && Decodes(s, h) && Encodes(t, h)
    ensures t == s <==> LeVal(s) < P
  {
    var v := LeVal(s);
    if v < P {
      QuotRem(v, TWO_255, 0, v);
      QuotRem(v, P, 0, v);
      LeUnique(s, t);
    }
  }

  /** Decoding what was encoded gives the same element. */
  lemma EncodeDecode(h: seq<int>, s: seq<byte>, g: seq<int>)
    requires |h| == 10 && |g| == 10 && Encodes(s, h) && Decodes(s, g)
    ensures FeVal(g) % P == FeVal(h) % P
  {
    var v := LeVal(s);
    QuotRem(v, TWO_255, 0, v);
    QuotRem(v, P, 0, v);
  }

  /** Two encodings of the same element are the same bytes. */
  lemma EncodingUnique(h: seq<int>, g: seq<int>, s: seq<byte>, t: seq<byte>)
    requires |h| == 10 && |g| == 10 && Encodes(s, h) && Encodes(t, g)
    ensures s == t <==> FeVal(h) % P == FeVal(g) % P
  {
    if FeVal(h) % P == FeVal(g) % P {
      LeUnique(s, t);
    }
  }
}
