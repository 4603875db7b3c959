/** Byte strings as integers, the least significant byte first. */
module LittleEndian {
  import opened ByteStrings
  import opened Limbs

  /** The integer a byte string spells, least significant byte first. */
  ghost function LeVal(d: seq<byte>): nat {
    Val(256, Nats(d), |d|)
  }

  ghost function Nats(d: seq<byte>): seq<nat> {
    seq(|d|, i requires 0 <= i < |d| => d[i])
  }

  lemma {:induction false} SplitAt(d: seq<byte>, o: nat) returns (low: nat, rest: nat)
    requires o <= |d|
    ensures low < Pow(256, o) && LeVal(d) == low + rest * Pow(256, o)
    ensures o < |d| ==> rest % 256 == d[o] && rest / 256 == LeVal(d[o + 1..])
    ensures rest == LeVal(d[o..])
    decreases o
  {
    if o == 0 {
      low, rest := 0, LeVal(d);
      assert d[0..] == d;
      if |d| > 0 {
        LeTail(d);
      }
    } else {
      LeTail(d);
      var l, r := SplitAt(d[1..], o - 1);
      low, rest := d[0] + 256 * l, r;
      Distribute(l, r * Pow(256, o - 1), 256);
      Associate(256, r, Pow(256, o - 1));
      Associate(r, 256, Pow(256, o - 1));
      assert d[1..][o - 1..] == d[o..];
      if o < |d| {
        assert d[1..][o..] == d[o + 1..];
      }
    }
  }

  lemma {:induction false} LeTail(d: seq<byte>)
    requires |d| > 0
    ensures LeVal(d) == d[0] + 256 * LeVal(d[1..])
    ensures LeVal(d) % 256 == d[0] && LeVal(d) / 256 == LeVal(d[1..])
  {
    ValTail(256, Nats(d), |d| - 1);
    assert Nats(d)[1..] == Nats(d[1..]);
    QuotRem(LeVal(d), 256, LeVal(d[1..]), d[0]);
  }

  lemma {:induction false} LeAppend(a: seq<byte>, o: nat)
    requires o < |a|
    ensures LeVal(a[..o + 1]) == LeVal(a[..o]) + a[o] as int * Pow(256, o)
  {
    var s, t := Nats(a[..o + 1]), Nats(a[..o]);
    ValFrame(256, s, t, o);
  }

  /** n bytes of x, least significant first. */
  function LeBytes(x: nat, n: nat): (d: seq<byte>)
    ensures |d| == n
  {
    if n == 0 then [] else [x % 256] + LeBytes(x / 256, n - 1)
  }

  lemma {:induction false} LeBytesVal(x: nat, n: nat)
    requires x < Pow(256, n)
    ensures LeVal(LeBytes(x, n)) == x
  {
    if n > 0 {
      LeBytesVal(x / 256, n - 1);
      LeTail(LeBytes(x, n));
      assert LeBytes(x, n)[1..] == LeBytes(x / 256, n - 1);
    }
  }

  lemma {:induction false} LeSplit(d: seq<byte>, o: nat)
    requires o <= |d|
    ensures LeVal(d) == LeVal(d[..o]) + LeVal(d[o..]) * Pow(256, o)
    decreases o
  {
    if o == 0 {
      assert d[0..] == d && d[..0] == [];
    } else {
      LeTail(d);
      LeTail(d[..o]);
      LeSplit(d[1..], o - 1);
      assert d[1..][..o - 1] == d[..o][1..] && d[1..][o - 1..] == d[o..];
      Distribute(LeVal(d[1..o]), LeVal(d[o..]) * Pow(256, o - 1), 256);
      Associate(256, LeVal(d[o..]), Pow(256, o - 1));
      Associate(LeVal(d[o..]), 256, Pow(256, o - 1));
    }
  }

  lemma {:induction false} LeBound(d: seq<byte>)
    ensures LeVal(d) < Pow(256, |d|)
  {
    ValBound(256, Nats(d), |d|);
  }

  lemma {:induction false} SmallPowers()
    ensures Pow(2, 0) == 1 && Pow(2, 1) == 2 && Pow(2, 2) == 4 && Pow(2, 3) == 8 && Pow(2, 4) == 16
    ensures Pow(2, 5) == 32 && Pow(2, 6) == 64 && Pow(2, 7) == 128 && Pow(2, 8) == 256
  {
    assert Pow(2, 2) == 2 * Pow(2, 1);
    assert Pow(2, 4) == 2 * Pow(2, 3);
    assert Pow(2, 6) == 2 * Pow(2, 5);
    assert Pow(2, 8) == 2 * Pow(2, 7);
  }

  lemma {:induction false} Pow256(o: nat)
    ensures Pow(2, 8 * o) == Pow(256, o)
  {
    SmallPowers();
    if o > 0 {
      Pow256(o - 1);
      PowAdds(2, 8, 8 * (o - 1));
    }
  }
}
