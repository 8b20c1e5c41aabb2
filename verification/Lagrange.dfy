/**
  Interpolation at zero over a prime field, as `aggregate_partial_signatures`
  uses it. A point of the signature group is its exponent modulo the group
  order r; participant identifiers are naturals below a bound n <= r.
 */
module Lagrange {
  import opened Modular

  /** Identifiers are pairwise distinct scalars: they all lie below n <= r. */
  ghost predicate Bounded(r: nat, ids: set<nat>, n: nat) {
    IsPrime(r) && n <= r && forall i :: i in ids ==> i < n
  }

  /** The product of j - shift over the members j < n of s. */
  function Product(s: set<nat>, shift: int, n: nat): int {
    if n == 0 then 1
    else Product(s, shift, n - 1) * (if n - 1 in s then n - 1 - shift else 1)
  }

  /** Taking one member out of a product divides it by that member's factor. */
  lemma {:induction false} ProductRemove(s: set<nat>, a: nat, shift: int, n: nat)
    requires a in s
    ensures Product(s, shift, n) == Product(s - {a}, shift, n) * (if a < n then a - shift else 1)
  {
    if n > 0 {
      ProductRemove(s, a, shift, n - 1);
      SwapFactors(Product(s - {a}, shift, n - 1), a - shift, n - 1 - shift);
    }
  }

  lemma SwapFactors(p: int, x: int, y: int)
    ensures p * x * y == p * y * x
    ensures p * 1 * y == p * y && p * x * 1 == p * 1 * x
  {
  }

  /** Every member of s below n is a nonzero scalar after the shift. */
  ghost predicate AllNonzero(r: nat, s: set<nat>, shift: int, n: nat) {
    forall j :: j in s && j < n ==> Nonzero(r, j - shift)
  }

  /** A product is nonzero modulo r exactly when each of its factors is. */
  lemma {:induction false} ProductNonzeroIff(r: nat, s: set<nat>, shift: int, n: nat)
    requires IsPrime(r)
    ensures Nonzero(r, Product(s, shift, n)) <==> AllNonzero(r, s, shift, n)
  {
    if n == 0 {
      SmallNonzero(r, 1);
    } else {
      ProductNonzeroIff(r, s, shift, n - 1);
      if n - 1 in s {
        ProductNonzero(r, Product(s, shift, n - 1), n - 1 - shift);
      }
    }
  }

  /** No Lagrange denominator is zero: aggregation never fails to invert. */
  lemma DenominatorNonzero(r: nat, ids: set<nat>, i: nat, n: nat)
    requires Bounded(r, ids, n) && i in ids
    ensures Nonzero(r, Product(ids - {i}, i, n))
  {
    forall j | j in ids - {i} && j < n
      ensures Nonzero(r, j - i)
    {
      SmallNonzero(r, j - i);
    }
    ProductNonzeroIff(r, ids - {i}, i, n);
  }

  /** The Lagrange coefficient at zero of identifier i among ids. */
  function Coefficient(r: nat, ids: set<nat>, i: nat, n: nat): (c: nat)
    requires Bounded(r, ids, n) && i in ids
    ensures c < r
    ensures Cong(r, Product(ids - {i}, i, n) * c, Product(ids - {i}, 0, n))
  {
    DenominatorNonzero(r, ids, i, n);
    var num, den := Product(ids - {i}, 0, n), Product(ids - {i}, i, n);
    var inv := Invert(r, den).value;
    CoefficientReduced(r, num, den, inv);
    (num * inv) % r
  }

  lemma CoefficientReduced(r: nat, num: int, den: int, inv: nat)
    requires r > 0 && Cong(r, den * inv, 1)
    ensures Cong(r, den * ((num * inv) % r), num)
  {
    CongMod(r, num * inv);
    CongScale(r, den, (num * inv) % r, num * inv);
    CongScale(r, num, den * inv, 1);
    assert num * (den * inv) == den * (num * inv);
    CongTrans(r, den * ((num * inv) % r), den * (num * inv), num);
  }

  /** Dropping identifier a turns coefficient i into its coefficient among the rest. */
  lemma CoefficientDrop(r: nat, ids: set<nat>, a: nat, i: nat, n: nat)
    requires Bounded(r, ids, n) && a in ids && i in ids && a != i
    ensures Cong(r, (a - i) * Coefficient(r, ids, i, n), a * Coefficient(r, ids - {a}, i, n))
  {
    var s' := ids - {i} - {a};
    assert ids - {a} - {i} == s';
    ProductRemove(ids - {i}, a, i, n);
    ProductRemove(ids - {i}, a, 0, n);
    DenominatorNonzero(r, ids - {a}, i, n);
    ShareDenominator(r, Product(s', i, n), Product(s', 0, n), a - i, a,
                     Coefficient(r, ids, i, n), Coefficient(r, ids - {a}, i, n));
  }

  lemma ShareDenominator(r: nat, den: int, num: int, d: int, a: int, c: int, c': int)
    requires IsPrime(r) && Nonzero(r, den)
    requires Cong(r, den * d * c, num * a) && Cong(r, den * c', num)
    ensures Cong(r, d * c, a * c')
  {
    CongScale(r, a, den * c', num);
    assert a * (den * c') == den * (a * c');
    assert den * d * c == den * (d * c);
    assert num * a == a * num;
    CongSym(r, den * (a * c'), a * num);
    CongTrans(r, den * (d * c), a * num, den * (a * c'));
    Cancel(r, den, d * c, a * c');
  }

  /** The weighted sum of the values y over the identifiers below m. */
  function Interpolate(r: nat, ids: set<nat>, y: nat -> int, n: nat, m: nat): int
    requires Bounded(r, ids, n)
    decreases m
  {
    if m == 0 then 0
    else Interpolate(r, ids, y, n, m - 1) + Term(r, ids, y, n, m - 1)
  }

  /** What identifier i adds to the sum. */
  function Term(r: nat, ids: set<nat>, y: nat -> int, n: nat, i: nat): int
    requires Bounded(r, ids, n)
  {
    if i in ids then y(i) * Coefficient(r, ids, i, n) else 0
  }

  /** Equal scalars at every identifier give equal sums. */
  lemma {:induction false} InterpolateCong(r: nat, ids: set<nat>, y: nat -> int, z: nat -> int, n: nat, m: nat)
    requires Bounded(r, ids, n)
    requires forall i :: i in ids ==> Cong(r, y(i), z(i))
    ensures Cong(r, Interpolate(r, ids, y, n, m), Interpolate(r, ids, z, n, m))
  {
    if m == 0 {
      CongRefl(r, 0);
    } else {
      InterpolateCong(r, ids, y, z, n, m - 1);
      var i := m - 1;
      if i in ids {
        var c := Coefficient(r, ids, i, n);
        CongScale(r, c, y(i), z(i));
        assert c * y(i) == y(i) * c && c * z(i) == z(i) * c;
      } else {
        CongRefl(r, 0);
      }
      CongAdd(r, Interpolate(r, ids, y, n, m - 1), Interpolate(r, ids, z, n, m - 1),
              Term(r, ids, y, n, i), Term(r, ids, z, n, i));
    }
  }

  /** Interpolation is linear in the values. */
  lemma {:induction false} InterpolateLinear(r: nat, ids: set<nat>, a: int, y: nat -> int, b: int, z: nat -> int,
                                             w: nat -> int, n: nat, m: nat)
    requires Bounded(r, ids, n)
    requires forall i :: i in ids ==> w(i) == a * y(i) + b * z(i)
    ensures Interpolate(r, ids, w, n, m) == a * Interpolate(r, ids, y, n, m) + b * Interpolate(r, ids, z, n, m)
  {
    if m == 0 {
      ZeroCombination(a, b);
    } else {
      InterpolateLinear(r, ids, a, y, b, z, w, n, m - 1);
      var i := m - 1;
      CombineTerms(a, Interpolate(r, ids, y, n, i), b, Interpolate(r, ids, z, n, i),
                   if i in ids then Coefficient(r, ids, i, n) else 0, y(i), z(i));
    }
  }

  lemma ZeroCombination(a: int, b: int)
    ensures a * 0 + b * 0 == 0
  {
  }

  lemma CombineTerms(a: int, ySum: int, b: int, zSum: int, c: int, y: int, z: int)
    ensures (a * ySum + b * zSum) + (a * y + b * z) * c == a * (ySum + y * c) + b * (zSum + z * c)
    ensures c == 0 ==> (a * ySum + b * zSum) + 0 == a * (ySum + 0) + b * (zSum + 0)
  {
  }

  /** A factor a - x removes the identifier a from the interpolation. */
  lemma {:induction false} InterpolateFactor(r: nat, ids: set<nat>, a: nat, q: nat -> int, w: nat -> int, n: nat,
                                             m: nat)
    requires Bounded(r, ids, n) && a in ids
    requires forall i :: i in ids ==> w(i) == (a - i) * q(i)
    ensures Cong(r, Interpolate(r, ids, w, n, m), a * Interpolate(r, ids - {a}, q, n, m))
  {
    if m == 0 {
      CongRefl(r, 0);
    } else {
      InterpolateFactor(r, ids, a, q, w, n, m - 1);
      TermFactor(r, ids, a, q, w, n, m - 1);
      CongAddScaled(r, a, Interpolate(r, ids, w, n, m - 1), Interpolate(r, ids - {a}, q, n, m - 1),
                    Term(r, ids, w, n, m - 1), Term(r, ids - {a}, q, n, m - 1));
    }
  }

  lemma CongAddScaled(r: int, a: int, x: int, y: int, u: int, v: int)
    requires Cong(r, x, a * y) && Cong(r, u, a * v)
    ensures Cong(r, x + u, a * (y + v))
  {
    CongAdd(r, x, a * y, u, a * v);
    assert a * y + a * v == a * (y + v);
  }

  lemma TermFactor(r: nat, ids: set<nat>, a: nat, q: nat -> int, w: nat -> int, n: nat, i: nat)
    requires Bounded(r, ids, n) && a in ids
    requires i in ids ==> w(i) == (a - i) * q(i)
    ensures Cong(r, Term(r, ids, w, n, i), a * Term(r, ids - {a}, q, n, i))
  {
    if i in ids && i != a {
      CoefficientDrop(r, ids, a, i, n);
      ScaleSides(r, q(i), a - i, Coefficient(r, ids, i, n), a, Coefficient(r, ids - {a}, i, n));
    } else {
      CongRefl(r, 0);
    }
  }

  lemma ScaleSides(r: int, q: int, d: int, c: int, a: int, c': int)
    requires Cong(r, d * c, a * c')
    ensures Cong(r, d * q * c, a * (q * c'))
  {
    CongScale(r, q, d * c, a * c');
    assert q * (d * c) == d * q * c;
    assert q * (a * c') == a * (q * c');
  }

  function One(i: nat): int {
    1
  }

  lemma {:induction false} InterpolateSingle(r: nat, a: nat, y: nat -> int, n: nat, m: nat)
    requires Bounded(r, {a}, n)
    ensures Interpolate(r, {a}, y, n, m) == if a < m then y(a) * Coefficient(r, {a}, a, n) else 0
  {
    if m > 0 {
      InterpolateSingle(r, a, y, n, m - 1);
    }
  }

  lemma {:induction false} EmptyProduct(shift: int, n: nat)
    ensures Product({}, shift, n) == 1
  {
    if n > 0 {
      EmptyProduct(shift, n - 1);
    }
  }

  /** The Lagrange coefficients of a nonempty quorum add up to one. */
  lemma {:induction false} CoefficientsSumToOne(r: nat, ids: set<nat>, n: nat)
    requires Bounded(r, ids, n) && ids != {}
    ensures Cong(r, Interpolate(r, ids, One, n, n), 1)
    decreases |ids|
  {
    var a :| a in ids;
    if ids == {a} {
      SingleCoefficient(r, a, n);
    } else {
      assert ids - {a} != {} by {
        assert ids == ids - {a} + {a};
      }
      var b :| b in ids - {a};
      CoefficientsSumToOne(r, ids - {a}, n);
      CoefficientsSumToOne(r, ids - {b}, n);
      SumToOneStep(r, ids, a, b, n);
    }
  }

  lemma SingleCoefficient(r: nat, a: nat, n: nat)
    requires Bounded(r, {a}, n)
    ensures Cong(r, Interpolate(r, {a}, One, n, n), 1)
  {
    InterpolateSingle(r, a, One, n, n);
    assert {a} - {a} == {};
    EmptyProduct(a, n);
    EmptyProduct(0, n);
  }

  lemma SumToOneStep(r: nat, ids: set<nat>, a: nat, b: nat, n: nat)
    requires Bounded(r, ids, n) && a in ids && b in ids && a != b
    requires Cong(r, Interpolate(r, ids - {a}, One, n, n), 1)
    requires Cong(r, Interpolate(r, ids - {b}, One, n, n), 1)
    ensures Cong(r, Interpolate(r, ids, One, n, n), 1)
  {
    var toA := (i: nat) => a - i;
    var toB := (i: nat) => b - i;
    var gap := (i: nat) => a - b;
    InterpolateFactor(r, ids, a, One, toA, n, n);
    InterpolateFactor(r, ids, b, One, toB, n, n);
    InterpolateLinear(r, ids, 1, toA, -1, toB, gap, n, n);
    InterpolateLinear(r, ids, a - b, One, 0, One, gap, n, n);
    SmallNonzero(r, a - b);
    Neville(r, a, b, Interpolate(r, ids, One, n, n), Interpolate(r, ids, toA, n, n), Interpolate(r, ids, toB, n, n),
            Interpolate(r, ids - {a}, One, n, n), Interpolate(r, ids - {b}, One, n, n));
  }

  /** The algebra of the induction step: two interpolations of one give the next. */
  lemma Neville(r: nat, a: int, b: int, one: int, ia: int, ib: int, oneA: int, oneB: int)
    requires IsPrime(r) && Nonzero(r, a - b)
    requires Cong(r, ia, a * oneA) && Cong(r, ib, b * oneB) && Cong(r, oneA, 1) && Cong(r, oneB, 1)
    requires (a - b) * one + 0 * one == 1 * ia + -1 * ib
    ensures Cong(r, one, 1)
  {
    CongScale(r, a, oneA, 1);
    CongTrans(r, ia, a * oneA, a);
    CongScale(r, b, oneB, 1);
    CongTrans(r, ib, b * oneB, b);
    CongScale(r, -1, ib, b);
    CongAdd(r, ia, a, -1 * ib, -1 * b);
    assert (a - b) * 1 == a + -1 * b;
    Cancel(r, a - b, one, 1);
  }

  /** A polynomial by its coefficients, constant term first. */
  function Eval(f: seq<int>, x: int): int {
    if f == [] then 0 else f[0] + x * Eval(f[1..], x)
  }

  /** The quotient of f(x) - f(a) by x - a. */
  function Quotient(f: seq<int>, a: int): (q: seq<int>)
    ensures |f| > 0 ==> |q| == |f| - 1
  {
    if |f| <= 1 then [] else [Eval(f[1..], a)] + Quotient(f[1..], a)
  }

  lemma {:induction false} FactorTheorem(f: seq<int>, a: int, x: int)
    ensures Eval(f, x) == Eval(f, a) + (x - a) * Eval(Quotient(f, a), x)
  {
    if |f| > 1 {
      var g, h := f[1..], Quotient(f[1..], a);
      FactorTheorem(g, a, x);
      assert Quotient(f, a)[1..] == h;
      HornerQuotient(f[0], a, x, Eval(g, a), Eval(g, x), Eval(h, x));
    }
  }

  lemma HornerQuotient(c: int, a: int, x: int, ga: int, gx: int, hx: int)
    requires gx == ga + (x - a) * hx
    ensures c + x * gx == c + a * ga + (x - a) * (ga + x * hx)
  {
    assert x * gx == x * ga + x * ((x - a) * hx);
    assert x * ((x - a) * hx) == (x - a) * (x * hx);
  }

  /**
    Interpolating a polynomial with fewer coefficients than there are
    identifiers recovers its value at zero, whichever identifiers they are.
   */
  lemma {:induction false} InterpolatePolynomial(r: nat, ids: set<nat>, f: seq<int>, n: nat)
    requires Bounded(r, ids, n) && |f| <= |ids|
    ensures Cong(r, Interpolate(r, ids, (i: nat) => Eval(f, i), n, n), Eval(f, 0))
    decreases |f|
  {
    var fx := (i: nat) => Eval(f, i);
    if f == [] {
      InterpolateLinear(r, ids, 0, One, 0, One, fx, n, n);
      CongRefl(r, 0);
    } else {
      var a :| a in ids;
      var q := Quotient(f, a);
      InterpolatePolynomial(r, ids - {a}, q, n);
      PolynomialStep(r, ids, f, a, n);
    }
  }

  lemma PolynomialStep(r: nat, ids: set<nat>, f: seq<int>, a: nat, n: nat)
    requires Bounded(r, ids, n) && a in ids
    requires Cong(r, Interpolate(r, ids - {a}, (i: nat) => Eval(Quotient(f, a), i), n, n), Eval(Quotient(f, a), 0))
    ensures Cong(r, Interpolate(r, ids, (i: nat) => Eval(f, i), n, n), Eval(f, 0))
  {
    var q := Quotient(f, a);
    var fx := (i: nat) => Eval(f, i);
    var qx := (i: nat) => Eval(q, i);
    var rest := (i: nat) => (a - i) * Eval(q, i);
    forall i | i in ids
      ensures fx(i) == Eval(f, a) * One(i) + -1 * rest(i)
    {
      FactorTheorem(f, a, i);
      FlipFactor(a, i, Eval(q, i));
    }
    InterpolateLinear(r, ids, Eval(f, a), One, -1, rest, fx, n, n);
    InterpolateFactor(r, ids, a, qx, rest, n, n);
    CoefficientsSumToOne(r, ids, n);
    FactorTheorem(f, a, 0);
    RemainderStep(r, a, Eval(f, a), Eval(q, 0), Interpolate(r, ids, One, n, n), Interpolate(r, ids, rest, n, n),
                  Interpolate(r, ids - {a}, qx, n, n));
  }

  lemma FlipFactor(a: int, x: int, q: int)
    ensures (x - a) * q == -1 * ((a - x) * q)
  {
  }

  lemma RemainderStep(r: int, a: int, fa: int, q0: int, one: int, irest: int, iq: int)
    requires Cong(r, one, 1) && Cong(r, irest, a * iq) && Cong(r, iq, q0)
    ensures Cong(r, fa * one + -1 * irest, fa + (0 - a) * q0)
  {
    CongScale(r, a, iq, q0);
    CongTrans(r, irest, a * iq, a * q0);
    CongScale(r, -1, irest, a * q0);
    CongScale(r, fa, one, 1);
    CongAdd(r, fa * one, fa, -1 * irest, -1 * (a * q0));
    assert fa + -1 * (a * q0) == fa + (0 - a) * q0;
  }
}
