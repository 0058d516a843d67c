/** Integers compared modulo m. A congruence is its witness: the multiple of m that
    separates the two sides, so no proof about it has to reason about remainders. */
module Congruence {

  ghost function Multiple(m: int, k: int): int {
    m * k
  }

  ghost predicate Cong(x: int, y: int, m: int) {
    exists k :: x == y + Multiple(m, k)
  }

  lemma {:induction false} CongFromMultiple(x: int, y: int, m: int, k: int)
    requires x == y + m * k
    ensures Cong(x, y, m)
  {
    assert x == y + Multiple(m, k);
  }

  lemma {:induction false} CongRefl(x: int, m: int)
    ensures Cong(x, x, m)
  {
    CongFromMultiple(x, x, m, 0);
  }

  lemma {:induction false} CongSym(x: int, y: int, m: int)
    requires Cong(x, y, m)
    ensures Cong(y, x, m)
  {
    var k :| x == y + Multiple(m, k);
    CongFromMultiple(y, x, m, -k);
  }

  lemma {:induction false} CongTrans(x: int, y: int, z: int, m: int)
    requires Cong(x, y, m) && Cong(y, z, m)
    ensures Cong(x, z, m)
  {
    var k :| x == y + Multiple(m, k);
    var l :| y == z + Multiple(m, l);
    assert m * (k + l) == m * k + m * l;
    CongFromMultiple(x, z, m, k + l);
  }

  lemma {:induction false} CongAdd(x: int, x': int, y: int, y': int, m: int)
    requires Cong(x, x', m) && Cong(y, y', m)
    ensures Cong(x + y, x' + y', m) && Cong(x - y, x' - y', m)
  {
    var k :| x == x' + Multiple(m, k);
    var l :| y == y' + Multiple(m, l);
    assert m * (k + l) == m * k + m * l && m * (k - l) == m * k - m * l;
    CongFromMultiple(x + y, x' + y', m, k + l);
    CongFromMultiple(x - y, x' - y', m, k - l);
  }

  lemma {:induction false} CongMul(x: int, x': int, y: int, y': int, m: int)
    requires Cong(x, x', m) && Cong(y, y', m)
    ensures Cong(x * y, x' * y', m)
  {
    var k :| x == x' + Multiple(m, k);
    var l :| y == y' + Multiple(m, l);
    assert x * y == x' * y' + m * (k * y' + l * x' + m * k * l) by {
      assert x * y == (x' + m * k) * (y' + m * l);
    }
    CongFromMultiple(x * y, x' * y', m, k * y' + l * x' + m * k * l);
  }

  /** Congruent numbers that are both reduced are equal. */
  lemma {:induction false} CongReduced(x: int, y: int, m: int)
    requires Cong(x, y, m) && 0 <= x < m && 0 <= y < m
    ensures x == y
  {
    var k :| x == y + Multiple(m, k);
    assert k >= 1 ==> m * k >= m;
    assert k <= -1 ==> m * k <= -m;
  }

  lemma {:induction false} CongMod(x: int, m: nat)
    requires m > 0
    ensures Cong(x, x % m, m) && Cong(x % m, x, m)
  {
    CongFromMultiple(x, x % m, m, x / m);
    CongSym(x, x % m, m);
  }

  /** A reduced number congruent to y is the remainder of y. */
  lemma {:induction false} CongIsMod(x: int, y: int, m: nat)
    requires Cong(x, y, m) && 0 <= x < m
    ensures x == y % m
  {
    CongMod(y, m);
    CongTrans(x, y, y % m, m);
    CongReduced(x, y % m, m);
  }
}
