/** Byte strings and the order in which external/blst/rb_tree.c arranges them. */
module ByteStrings {
  type byte = x: int | 0 <= x < 256

  /** Lexicographic order, a proper prefix coming first. */
  ghost predicate Lt(a: seq<byte>, b: seq<byte>) {
    if b == [] then false
    else if a == [] then true
    else a[0] < b[0] || (a[0] == b[0] && Lt(a[1..], b[1..]))
  }

  lemma {:induction false} LtIrreflexive(a: seq<byte>)
    ensures !Lt(a, a)
  {
    if a != [] {
      LtIrreflexive(a[1..]);
    }
  }

  lemma {:induction false} LtTransitive(a: seq<byte>, b: seq<byte>, c: seq<byte>)
    requires Lt(a, b) && Lt(b, c)
    ensures Lt(a, c)
  {
    if a != [] && a[0] == b[0] == c[0] {
      LtTransitive(a[1..], b[1..], c[1..]);
    }
  }

  lemma {:induction false} LtTotal(a: seq<byte>, b: seq<byte>)
    ensures a == b || Lt(a, b) || Lt(b, a)
    ensures !(Lt(a, b) && Lt(b, a))
  {
    if a != [] && b != [] {
      LtTotal(a[1..], b[1..]);
      if a[0] == b[0] && a[1..] == b[1..] {
        assert a == [a[0]] + a[1..] && b == [b[0]] + b[1..];
      }
    }
  }

  /** A common prefix does not take part in the comparison. */
  lemma {:induction false} LtDropPrefix(a: seq<byte>, b: seq<byte>, i: nat)
    requires i <= |a| && i <= |b| && a[..i] == b[..i]
    ensures Lt(a, b) <==> Lt(a[i..], b[i..])
  {
    if i == 0 {
      assert a[0..] == a && b[0..] == b;
    } else {
      assert a[0] == a[..i][0] == b[..i][0] == b[0];
      assert a[1..][..i - 1] == a[..i][1..] == b[..i][1..] == b[1..][..i - 1];
      LtDropPrefix(a[1..], b[1..], i - 1);
      assert a[1..][i - 1..] == a[i..] && b[1..][i - 1..] == b[i..];
    }
  }

  /** The sign of the result is the order of the two strings; zero means equal. */
  method BytesCompare(ptr0: seq<byte>, len0: nat, ptr1: seq<byte>, len1: nat) returns (cmp: int)
    requires len0 <= |ptr0| && len1 <= |ptr1|
    ensures cmp == 0 <==> ptr0[..len0] == ptr1[..len1]
    ensures cmp < 0 <==> Lt(ptr0[..len0], ptr1[..len1])
    ensures cmp > 0 <==> Lt(ptr1[..len1], ptr0[..len0])
  {
    var len := if len0 < len1 then len0 else len1;
    ghost var s, t := ptr0[..len0], ptr1[..len1];
    LtTotal(s, t);
    for i := 0 to len
      invariant s[..i] == t[..i]
    {
      LtDropPrefix(s, t, i);
      LtDropPrefix(t, s, i);
      if ptr0[i] != ptr1[i] {
        assert s[i..][0] == ptr0[i] && t[i..][0] == ptr1[i];
        var a: int, b: int := ptr0[i], ptr1[i];
        return a - b;
      }
      assert s[..i + 1] == s[..i] + [s[i]] && t[..i + 1] == t[..i] + [t[i]];
    }
    LtDropPrefix(s, t, len);
    LtDropPrefix(t, s, len);
    assert len0 == len1 ==> s == s[..len] == t[..len] == t;
    return len0 - len1;
  }
}
