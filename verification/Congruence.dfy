/** Congruence modulo a positive integer. */
module Congruence {
  import opened Limbs

  predicate Cong(x: int, y: int, p: int)
    requires p > 0
  {
    (x - y) % p == 0
  }

  lemma CongIntro(x: int, y: int, p: int, k: int)
    requires p > 0 && x == y + k * p
    ensures Cong(x, y, p)
  {
    QuotRem(x - y, p, k, 0);
  }

  lemma CongElim(x: int, y: int, p: int) returns (k: int)
    requires p > 0 && Cong(x, y, p)
    ensures x == y + k * p
  {
    k := (x - y) / p;
  }

  lemma CongSym(x: int, y: int, p: int)
    requires p > 0 && Cong(x, y, p)
    ensures Cong(y, x, p)
  {
    var k := CongElim(x, y, p);
    DistributeSub(0, k, p);
    CongIntro(y, x, p, -k);
  }

  lemma CongTrans(x: int, y: int, z: int, p: int)
    requires p > 0 && Cong(x, y, p) && Cong(y, z, p)
    ensures Cong(x, z, p)
  {
    var k := CongElim(x, y, p);
    var l := CongElim(y, z, p);
    Distribute(k, l, p);
    CongIntro(x, z, p, k + l);
  }

  lemma CongSub(x: int, y: int, x': int, y': int, p: int)
    requires p > 0 && Cong(x, y, p) && Cong(x', y', p)
    ensures Cong(x - x', y - y', p)
  {
    var k := CongElim(x, y, p);
    var l := CongElim(x', y', p);
    DistributeSub(k, l, p);
    CongIntro(x - x', y - y', p, k - l);
  }

  lemma CongAdd(x: int, y: int, x': int, y': int, p: int)
    requires p > 0 && Cong(x, y, p) && Cong(x', y', p)
    ensures Cong(x + x', y + y', p)
  {
    var k := CongElim(x, y, p);
    var l := CongElim(x', y', p);
    Distribute(k, l, p);
    CongIntro(x + x', y + y', p, k + l);
  }

  lemma CongScale(x: int, y: int, c: int, p: int)
    requires p > 0 && Cong(x, y, p)
    ensures Cong(x * c, y * c, p)
  {
    var k := CongElim(x, y, p);
    Distribute(y, k * p, c);
    Associate(k, p, c);
    Associate(k, c, p);
    CongIntro(x * c, y * c, p, k * c);
  }

  lemma CongMul(x: int, y: int, x': int, y': int, p: int)
    requires p > 0 && Cong(x, y, p) && Cong(x', y', p)
    ensures Cong(x * x', y * y', p)
  {
    CongScale(x, y, x', p);
    CongScale(x', y', y, p);
    CongTrans(x * x', y * x', y * y', p);
  }

  /** Two congruent residues are equal. */
  lemma CongUnique(x: int, y: int, p: int)
    requires 0 <= x < p && 0 <= y < p && Cong(x, y, p)
    ensures x == y
  {
    var k := CongElim(x, y, p);
    if k > 0 {
      MulMono(1, k, p);
    } else if k < 0 {
      MulMono(k, -1, p);
    }
  }

  /** An invertible factor cancels. */
  lemma CongCancel(x: int, y: int, c: int, cinv: int, p: int)
    requires p > 0 && Cong(x * c, y * c, p) && Cong(c * cinv, 1, p)
    ensures Cong(x, y, p)
  {
    CongScale(x * c, y * c, cinv, p);
    Associate(x, c, cinv);
    Associate(y, c, cinv);
    CongScale(c * cinv, 1, x, p);
    CongScale(c * cinv, 1, y, p);
    CongSym(c * cinv * x, 1 * x, p);
    CongTrans(x, x * c * cinv, y * c * cinv, p);
    CongTrans(x, y * c * cinv, y, p);
  }
}
