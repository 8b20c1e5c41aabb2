/**
  Arithmetic modulo a prime: congruences, the Euclidean algorithm and the
  inverse built from it. This is the scalar field of the signature group; the
  order r of the group is a parameter, so every result holds for each prime.
 */
module Modular {
  import opened Wrappers

  /** A named product, so that quantifiers over multiples have a term to match. */
  function Times(k: int, m: int): int {
    k * m
  }

  ghost predicate Divides(d: int, a: int) {
    exists k :: a == Times(k, d)
  }

  /** a and b denote the same scalar modulo r. */
  ghost predicate Cong(r: int, a: int, b: int) {
    Divides(r, a - b)
  }

  ghost predicate IsPrime(p: int) {
    p >= 2 && forall d :: 2 <= d < p ==> !Divides(d, p)
  }

  lemma DividesTimes(d: int, k: int)
    ensures Divides(d, k * d)
  {
    assert k * d == Times(k, d);
  }

  lemma CongRefl(r: int, a: int)
    ensures Cong(r, a, a)
  {
    assert a - a == Times(0, r);
  }

  lemma CongSym(r: int, a: int, b: int)
    requires Cong(r, a, b)
    ensures Cong(r, b, a)
  {
    var k :| a - b == Times(k, r);
    assert b - a == Times(-k, r);
  }

  lemma CongTrans(r: int, a: int, b: int, c: int)
    requires Cong(r, a, b) && Cong(r, b, c)
    ensures Cong(r, a, c)
  {
    var k :| a - b == Times(k, r);
    var l :| b - c == Times(l, r);
    assert a - c == Times(k + l, r);
  }

  lemma CongAdd(r: int, a: int, b: int, c: int, d: int)
    requires Cong(r, a, b) && Cong(r, c, d)
    ensures Cong(r, a + c, b + d)
  {
    var k :| a - b == Times(k, r);
    var l :| c - d == Times(l, r);
    assert (a + c) - (b + d) == Times(k + l, r);
  }

  lemma CongScale(r: int, m: int, a: int, b: int)
    requires Cong(r, a, b)
    ensures Cong(r, m * a, m * b)
  {
    var k :| a - b == Times(k, r);
    assert m * a - m * b == m * (a - b) == m * (k * r) == (m * k) * r == Times(m * k, r);
  }

  lemma CongMul(r: int, a: int, b: int, c: int, d: int)
    requires Cong(r, a, b) && Cong(r, c, d)
    ensures Cong(r, a * c, b * d)
  {
    CongScale(r, c, a, b);
    CongScale(r, b, c, d);
    assert c * a == a * c && c * b == b * c;
    CongTrans(r, a * c, b * c, b * d);
  }

  /** Reducing a scalar does not change what it denotes. */
  lemma CongMod(r: int, a: int)
    requires r > 0
    ensures Cong(r, a % r, a)
  {
    assert a == (a / r) * r + a % r;
    assert a % r - a == Times(-(a / r), r);
  }

  /** Congruent scalars have the same canonical representative, and only they do. */
  lemma CongIffSameResidue(r: int, a: int, b: int)
    requires r > 0
    ensures Cong(r, a, b) <==> a % r == b % r
  {
    CongMod(r, a);
    CongMod(r, b);
    if Cong(r, a, b) {
      CongTrans(r, a % r, a, b);
      CongSym(r, b % r, b);
      CongTrans(r, a % r, b, b % r);
      SmallMultipleIsZero(r, a % r - b % r);
    }
    if a % r == b % r {
      CongSym(r, a % r, a);
      CongTrans(r, a, a % r, b);
    }
  }

  lemma SmallMultipleIsZero(r: int, d: int)
    requires r > 0 && -r < d < r && Divides(r, d)
    ensures d == 0
  {
    var k :| d == Times(k, r);
    assert k >= 1 ==> k * r >= r;
    assert k <= -1 ==> k * r <= -r;
  }

  /** The extended Euclidean algorithm: a common divisor as a combination of both arguments. */
  function Bezout(a: nat, b: nat): (t: (nat, int, int))
    requires a + b > 0
    ensures t.0 > 0
    ensures t.0 == a * t.1 + b * t.2
    ensures Divides(t.0, a) && Divides(t.0, b)
    decreases b
  {
    if b == 0 then
      DividesTimes(a, 1);
      DividesTimes(a, 0);
      (a, 1, 0)
    else
      var (g, x, y) := Bezout(b, a % b);
      BezoutStep(a, b, g, x, y);
      (g, y, x - (a / b) * y)
  }

  lemma BezoutStep(a: nat, b: nat, g: nat, x: int, y: int)
    requires b > 0 && g == b * x + (a % b) * y
    requires Divides(g, b) && Divides(g, a % b)
    ensures g == a * y + b * (x - (a / b) * y)
    ensures Divides(g, a)
  {
    var q, m := a / b, a % b;
    assert a == q * b + m;
    BezoutAlgebra(a, b, q, m, x, y);
    CombineMultiples(g, q, b, m);
  }

  lemma BezoutAlgebra(a: int, b: int, q: int, m: int, x: int, y: int)
    requires a == q * b + m
    ensures b * x + m * y == a * y + b * (x - q * y)
  {
    assert a * y == (q * b) * y + m * y;
    assert b * (x - q * y) == b * x - (q * b) * y;
  }

  lemma CombineMultiples(g: int, q: int, b: int, m: int)
    requires Divides(g, b) && Divides(g, m)
    ensures Divides(g, q * b + m)
  {
    var k :| b == Times(k, g);
    var l :| m == Times(l, g);
    assert q * (k * g) == (q * k) * g;
    assert q * b + m == Times(q * k + l, g);
  }

  /** The scalar a is not zero modulo r. */
  ghost predicate Nonzero(r: int, a: int) {
    !Cong(r, a, 0)
  }

  /** Field inversion: fails exactly on zero. */
  function Invert(r: nat, a: int): (inv: Option<nat>)
    requires IsPrime(r)
    ensures inv.Some? <==> Nonzero(r, a)
    ensures inv.Some? ==> inv.value < r && Cong(r, a * inv.value, 1)
  {
    CongIffSameResidue(r, a, 0);
    if a % r == 0 then
      None
    else
      var t := Bezout(a % r, r);
      InverseFromBezout(r, a, t);
      Some(t.1 % r)
  }

  lemma InverseFromBezout(r: nat, a: int, t: (nat, int, int))
    requires IsPrime(r) && a % r != 0
    requires t.0 > 0 && t.0 == (a % r) * t.1 + r * t.2
    requires Divides(t.0, a % r) && Divides(t.0, r)
    ensures Cong(r, a * (t.1 % r), 1)
  {
    DivisorAtMost(t.0, a % r);
    assert t.0 == 1;
    var x := t.1;
    assert (a % r) * x - 1 == Times(-t.2, r);
    CongMod(r, x);
    CongMod(r, a);
    CongSym(r, a % r, a);
    CongMul(r, a, a % r, x % r, x);
    CongTrans(r, a * (x % r), (a % r) * x, 1);
  }

  /** A positive number is at least each of its positive divisors. */
  lemma DivisorAtMost(d: int, a: int)
    requires d > 0 && a > 0 && Divides(d, a)
    ensures d <= a
  {
    if a < d {
      SmallMultipleIsZero(d, a);
    }
  }

  /** A nonzero scalar can be cancelled. */
  lemma Cancel(r: nat, c: int, a: int, b: int)
    requires IsPrime(r) && Nonzero(r, c)
    requires Cong(r, c * a, c * b)
    ensures Cong(r, a, b)
  {
    var v := Invert(r, c).value;
    CongScale(r, v, c * a, c * b);
    UndoScale(r, c, v, a);
    UndoScale(r, c, v, b);
    CongSym(r, v * (c * a), a);
    CongTrans(r, a, v * (c * a), v * (c * b));
    CongTrans(r, a, v * (c * b), b);
  }

  lemma UndoScale(r: int, c: int, v: int, a: int)
    requires Cong(r, c * v, 1)
    ensures Cong(r, v * (c * a), a)
  {
    CongScale(r, a, c * v, 1);
    assert a * (c * v) == v * (c * a);
  }

  /** There are no zero divisors. */
  lemma ProductNonzero(r: nat, a: int, b: int)
    requires IsPrime(r)
    ensures Nonzero(r, a * b) <==> Nonzero(r, a) && Nonzero(r, b)
  {
    assert a * 0 == 0 && b * 0 == 0 && a * b == b * a;
    if Cong(r, a, 0) {
      CongScale(r, b, a, 0);
    }
    if Cong(r, b, 0) {
      CongScale(r, a, b, 0);
    }
    if Nonzero(r, a) && Cong(r, a * b, 0) {
      Cancel(r, a, b, 0);
    }
  }

  lemma SmallNonzero(r: int, d: int)
    requires r > 0 && -r < d < r && d != 0
    ensures Nonzero(r, d)
  {
    if Cong(r, d, 0) {
      SmallMultipleIsZero(r, d);
    }
  }
}
