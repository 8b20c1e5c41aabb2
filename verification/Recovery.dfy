/**
  Which quorums recover a master signature, for which sizes of the sharing
  polynomial, and whether a quorum filed under truncated identifiers still does.
 */
module Recovery {
  import opened Modular
  import opened Lagrange
  import opened Threshold

  // ----- polynomials with given zeros

  /** The coefficients of (a - x) * p(x). */
  function TimesLinear(p: seq<int>, a: int): (q: seq<int>)
    ensures |q| == |p| + 1
  {
    if p == [] then [0]
    else
      var q := TimesLinear(p[1..], a);
      [a * p[0]] + [q[0] - p[0]] + q[1..]
  }

  lemma {:induction false} EvalTimesLinear(p: seq<int>, a: int, x: int)
    ensures Eval(TimesLinear(p, a), x) == (a - x) * Eval(p, x)
  {
    if p == [] {
      assert [0][1..] == [];
      assert Eval([0], x) == 0 + x * Eval([], x);
    } else {
      var q, rest := TimesLinear(p[1..], a), TimesLinear(p, a)[1..];
      EvalTimesLinear(p[1..], a, x);
      assert rest[1..] == q[1..];
      assert Eval(rest, x) == Eval(q, x) - p[0];
      LinearStep(a, x, p[0], Eval(p[1..], x));
    }
  }

  lemma LinearStep(a: int, x: int, c: int, e: int)
    ensures a * c + x * ((a - x) * e - c) == (a - x) * (c + x * e)
  {
    assert x * ((a - x) * e - c) == x * ((a - x) * e) - x * c;
    assert x * ((a - x) * e) == (a - x) * (x * e);
  }

  /** The polynomial whose value at x is the product of j - x over the members j < n of s. */
  function Vanishing(s: set<nat>, n: nat): seq<int> {
    if n == 0 then [1]
    else if n - 1 in s then TimesLinear(Vanishing(s, n - 1), n - 1)
    else Vanishing(s, n - 1)
  }

  lemma {:induction false} EvalVanishing(s: set<nat>, n: nat, x: int)
    ensures Eval(Vanishing(s, n), x) == Product(s, x, n)
  {
    if n == 0 {
      assert [1][1..] == [];
      assert Eval([1], x) == 1 + x * Eval([], x);
    } else {
      EvalVanishing(s, n - 1, x);
      if n - 1 in s {
        EvalTimesLinear(Vanishing(s, n - 1), n - 1, x);
        Commute(n - 1 - x, Product(s, x, n - 1));
      }
    }
  }

  lemma Commute(a: int, b: int)
    ensures a * b == b * a
  {
  }

  lemma {:induction false} VanishingSize(s: set<nat>, n: nat)
    ensures |Vanishing(s, n)| == 1 + |set j | j in s && j < n|
  {
    var below := set j | j in s && j < n;
    if n == 0 {
      assert below == {};
    } else {
      VanishingSize(s, n - 1);
      var before := set j | j in s && j < n - 1;
      assert below == if n - 1 in s then before + {n - 1} else before;
    }
  }

  lemma VanishingDegree(s: set<nat>, n: nat)
    requires forall j :: j in s ==> j < n
    ensures |Vanishing(s, n)| == 1 + |s|
  {
    VanishingSize(s, n);
    assert (set j | j in s && j < n) == s;
  }

  lemma ProductVanishes(s: set<nat>, a: nat, n: nat)
    requires a in s && a < n
    ensures Product(s, a, n) == 0
  {
    ProductRemove(s, a, a, n);
  }

  // ----- how large a polynomial a quorum recovers

  /** The identifiers under which participants are filed, each with the participant's real identifier. */
  type Filing = map<nat, nat>

  ghost predicate Filed(r: nat, wide: Filing) {
    GroupOrder(r) && forall i :: i in wide ==> i < U32 && wide[i] % U32 == i && wide[i] < r
  }

  /** The shares that the participants really sign, as they are filed. */
  function RealShares(r: nat, f: seq<int>, msg: int, wide: Filing): map<nat, nat>
    requires r > 0
  {
    map i | i in wide :: TrueShare(r, f, msg, wide[i])
  }

  /** The quorum recovers the master signature for every polynomial of at most d coefficients and every message. */
  ghost predicate RecoversEvery(r: nat, wide: Filing, d: nat)
    requires Filed(r, wide)
  {
    forall f, msg :: |f| <= d ==> Aggregate(r, RealShares(r, f, msg, wide)) == TrueShare(r, f, msg, 0)
  }

  /** Nobody's identifier is truncated. */
  function Untruncated(ids: set<nat>): Filing {
    map i | i in ids :: i
  }

  lemma VanishingShare(r: nat, s: set<nat>, n: nat, x: nat)
    requires r > 0
    ensures TrueShare(r, Vanishing(s, n), 1, x) == Product(s, x, n) % r
    ensures x in s && x < n ==> TrueShare(r, Vanishing(s, n), 1, x) == 0
  {
    EvalVanishing(s, n, x);
    if x in s && x < n {
      ProductVanishes(s, x, n);
    }
  }

  lemma VanishingMaster(r: nat, ids: set<nat>)
    requires GroupOrder(r) && (forall i :: i in ids ==> i < U32) && 0 !in ids
    ensures TrueShare(r, Vanishing(ids, U32), 1, 0) != 0
  {
    VanishingShare(r, ids, U32, 0);
    forall j | j in ids && j < U32
      ensures Nonzero(r, j - 0)
    {
      SmallNonzero(r, j);
    }
    ProductNonzeroIff(r, ids, 0, U32);
    CongIffSameResidue(r, Product(ids, 0, U32), 0);
  }

  lemma ZeroShares(r: nat, shares: map<nat, nat>)
    requires ShareMap(r, shares) && forall i :: i in shares ==> shares[i] == 0
    ensures Aggregate(r, shares) == 0
  {
    var none: seq<int> := [];
    forall x
      ensures TrueShare(r, none, 1, x) == 0
    {
      NoShare(r, x);
    }
    QuorumRecoversMaster(r, none, 1, shares);
  }

  lemma NoShare(r: nat, x: int)
    requires r > 0
    ensures TrueShare(r, [], 1, x) == 0
  {
    assert Eval([], x) * 1 == 0;
  }

  /** The vanishing polynomial has one coefficient too many for the quorum: all shares are zero, the master is not. */
  lemma OneTooMany(r: nat, ids: set<nat>)
    requires GroupOrder(r) && (forall i :: i in ids ==> i < U32) && 0 !in ids
    ensures var f := Vanishing(ids, U32);
            && |f| == |ids| + 1
            && Aggregate(r, RealShares(r, f, 1, Untruncated(ids))) != TrueShare(r, f, 1, 0)
  {
    var f := Vanishing(ids, U32);
    VanishingDegree(ids, U32);
    VanishingMaster(r, ids);
    forall i | i in ids
      ensures TrueShare(r, f, 1, i) == 0
    {
      VanishingShare(r, ids, U32, i);
    }
    ZeroShares(r, RealShares(r, f, 1, Untruncated(ids)));
  }

  /**
    A quorum of nonzero identifiers that are not truncated recovers every
    polynomial of at most d coefficients exactly when it has d members.
   */
  lemma RecoversEveryIff(r: nat, ids: set<nat>, d: nat)
    requires GroupOrder(r) && (forall i :: i in ids ==> i < U32) && 0 !in ids
    ensures RecoversEvery(r, Untruncated(ids), d) <==> d <= |ids|
  {
    var wide := Untruncated(ids);
    if d <= |ids| {
      forall f, msg | |f| <= d
        ensures Aggregate(r, RealShares(r, f, msg, wide)) == TrueShare(r, f, msg, 0)
      {
        var shares := RealShares(r, f, msg, wide);
        assert shares.Keys == ids && |shares| == |shares.Keys|;
        QuorumRecoversMaster(r, f, msg, shares);
      }
    } else {
      OneTooMany(r, ids);
    }
  }

  // ----- any filing and any size, by the moments of the real identifiers

  function Power(x: int, n: nat): int {
    if n == 0 then 1 else x * Power(x, n - 1)
  }

  lemma {:induction false} EvalSnoc(f: seq<int>, c: int, x: int)
    ensures Eval(f + [c], x) == Eval(f, x) + c * Power(x, |f|)
  {
    if f == [] {
      assert f + [c] == [c] && [c][1..] == [];
      assert Eval([c], x) == c + x * Eval([], x);
    } else {
      EvalSnoc(f[1..], c, x);
      assert (f + [c])[1..] == f[1..] + [c];
      SnocStep(x, Eval(f[1..], x), c, Power(x, |f| - 1));
    }
  }

  lemma SnocStep(x: int, e: int, c: int, p: int)
    ensures x * (e + c * p) == x * e + c * (x * p)
  {
    assert x * (e + c * p) == x * e + x * (c * p);
  }

  /** The values of a polynomial at the real identifiers, as they are filed. */
  ghost function Values(wide: Filing, f: seq<int>): nat -> int {
    (i: nat) => if i in wide then Eval(f, wide[i]) else 0
  }

  /** What the filed identifiers make of a polynomial. */
  ghost function FiledValue(r: nat, wide: Filing, f: seq<int>): int
    requires Filed(r, wide)
  {
    Interpolate(r, wide.Keys, Values(wide, f), U32, U32)
  }

  ghost function Powers(wide: Filing, j: nat): nat -> int {
    (i: nat) => if i in wide then Power(wide[i], j) else 0
  }

  /** The filed weights get the j-th power of the real identifiers right: one for j = 0, and zero otherwise. */
  ghost predicate RightMoment(r: nat, wide: Filing, j: nat)
    requires Filed(r, wide)
  {
    Cong(r, Interpolate(r, wide.Keys, Powers(wide, j), U32, U32), Power(0, j))
  }

  lemma AggregateIsFiledValue(r: nat, wide: Filing, f: seq<int>, msg: int)
    requires Filed(r, wide)
    ensures Cong(r, Aggregate(r, RealShares(r, f, msg, wide)), msg * FiledValue(r, wide, f))
  {
    var ids, shares := wide.Keys, RealShares(r, f, msg, wide);
    assert shares.Keys == ids;
    var values := Values(wide, f);
    var scaled := (i: nat) => msg * values(i);
    forall i | i in ids
      ensures Cong(r, Masked(shares, ids)(i), scaled(i))
    {
      Commute(msg, Eval(f, wide[i]));
      CongMod(r, Eval(f, wide[i]) * msg);
    }
    InterpolateCong(r, ids, Masked(shares, ids), scaled, U32, U32);
    InterpolateLinear(r, ids, msg, values, 0, One, scaled, U32, U32);
    CongMod(r, Interpolate(r, ids, Masked(shares, ids), U32, U32));
    CongTrans(r, Aggregate(r, shares), Interpolate(r, ids, Masked(shares, ids), U32, U32),
              msg * FiledValue(r, wide, f));
  }

  /** A polynomial is recovered for a message exactly when its filed value agrees with its value at zero there. */
  lemma RecoveredIff(r: nat, wide: Filing, f: seq<int>, msg: int)
    requires Filed(r, wide)
    ensures Aggregate(r, RealShares(r, f, msg, wide)) == TrueShare(r, f, msg, 0) <==>
            Cong(r, msg * FiledValue(r, wide, f), msg * Eval(f, 0))
  {
    AggregateIsFiledValue(r, wide, f, msg);
    var sig, value := Aggregate(r, RealShares(r, f, msg, wide)), msg * FiledValue(r, wide, f);
    Commute(msg, Eval(f, 0));
    SameResidue(r, sig, value, msg * Eval(f, 0));
  }

  lemma SameResidue(r: nat, sig: nat, value: int, master: int)
    requires sig < r && Cong(r, sig, value)
    ensures sig == master % r <==> Cong(r, value, master)
  {
    CongIffSameResidue(r, sig, value);
    CongIffSameResidue(r, value, master);
    SmallResidue(r, sig);
  }

  lemma SmallResidue(r: nat, c: nat)
    requires c < r
    ensures c % r == c
  {
  }

  lemma FiledValueSnoc(r: nat, wide: Filing, f: seq<int>, c: int)
    requires Filed(r, wide)
    ensures FiledValue(r, wide, f + [c]) ==
            FiledValue(r, wide, f) + c * Interpolate(r, wide.Keys, Powers(wide, |f|), U32, U32)
  {
    var before, powers, after := Values(wide, f), Powers(wide, |f|), Values(wide, f + [c]);
    forall i | i in wide.Keys
      ensures after(i) == 1 * before(i) + c * powers(i)
    {
      EvalSnoc(f, c, wide[i]);
    }
    InterpolateLinear(r, wide.Keys, 1, before, c, powers, after, U32, U32);
  }

  lemma {:induction false} RightMomentsGiveValue(r: nat, wide: Filing, f: seq<int>)
    requires Filed(r, wide) && forall j: nat :: j < |f| ==> RightMoment(r, wide, j)
    ensures Cong(r, FiledValue(r, wide, f), Eval(f, 0))
  {
    if f == [] {
      InterpolateLinear(r, wide.Keys, 0, One, 0, One, Values(wide, f), U32, U32);
      CongRefl(r, 0);
    } else {
      var n := |f| - 1;
      var moment := Interpolate(r, wide.Keys, Powers(wide, n), U32, U32);
      assert f == f[..n] + [f[n]];
      RightMomentsGiveValue(r, wide, f[..n]);
      FiledValueSnoc(r, wide, f[..n], f[n]);
      EvalSnoc(f[..n], f[n], 0);
      assert RightMoment(r, wide, n);
      CongScale(r, f[n], moment, Power(0, n));
      CongAdd(r, FiledValue(r, wide, f[..n]), Eval(f[..n], 0), f[n] * moment, f[n] * Power(0, n));
    }
  }

  /** x to the power j. */
  function Monomial(j: nat): seq<int> {
    seq(j, i => 0) + [1]
  }

  lemma {:induction false} EvalZeros(j: nat, x: int)
    ensures Eval(seq(j, i => 0), x) == 0
  {
    if j > 0 {
      EvalZeros(j - 1, x);
      var zeros: seq<int> := seq(j, i => 0);
      assert zeros[1..] == seq(j - 1, i => 0);
    }
  }

  lemma EvalMonomial(j: nat, x: int)
    ensures Eval(Monomial(j), x) == Power(x, j)
  {
    EvalZeros(j, x);
    EvalSnoc(seq(j, i => 0), 1, x);
  }

  lemma MonomialValue(r: nat, wide: Filing, j: nat)
    requires Filed(r, wide)
    ensures FiledValue(r, wide, Monomial(j)) == Interpolate(r, wide.Keys, Powers(wide, j), U32, U32)
  {
    var values, powers := Values(wide, Monomial(j)), Powers(wide, j);
    forall i | i in wide.Keys
      ensures values(i) == 1 * powers(i) + 0 * One(i)
    {
      EvalMonomial(j, wide[i]);
    }
    InterpolateLinear(r, wide.Keys, 1, powers, 0, One, values, U32, U32);
  }

  /**
    Whatever identifiers have been truncated, a quorum recovers every polynomial
    of at most d coefficients exactly when the weights computed from the filed
    identifiers get the first d powers of the real identifiers right.
   */
  lemma MomentsIff(r: nat, wide: Filing, d: nat)
    requires Filed(r, wide)
    ensures RecoversEvery(r, wide, d) <==> forall j: nat :: j < d ==> RightMoment(r, wide, j)
  {
    if forall j: nat :: j < d ==> RightMoment(r, wide, j) {
      forall f, msg | |f| <= d
        ensures Aggregate(r, RealShares(r, f, msg, wide)) == TrueShare(r, f, msg, 0)
      {
        RightMomentsGiveValue(r, wide, f);
        CongScale(r, msg, FiledValue(r, wide, f), Eval(f, 0));
        RecoveredIff(r, wide, f, msg);
      }
    }
    if RecoversEvery(r, wide, d) {
      forall j: nat | j < d
        ensures RightMoment(r, wide, j)
      {
        var f := Monomial(j);
        assert Aggregate(r, RealShares(r, f, 1, wide)) == TrueShare(r, f, 1, 0);
        RecoveredIff(r, wide, f, 1);
        MonomialValue(r, wide, j);
        EvalMonomial(j, 0);
      }
    }
  }

  // ----- sums over sets, in two orders

  function Sum(s: set<nat>, g: nat -> int, n: nat): int {
    if n == 0 then 0 else Sum(s, g, n - 1) + (if n - 1 in s then g(n - 1) else 0)
  }

  lemma {:induction false} SumRemove(s: set<nat>, g: nat -> int, a: nat, n: nat)
    requires a in s
    ensures Sum(s, g, n) == Sum(s - {a}, g, n) + if a < n then g(a) else 0
  {
    if n > 0 {
      SumRemove(s, g, a, n - 1);
    }
  }

  lemma {:induction false} SumEmpty(g: nat -> int, n: nat)
    ensures Sum({}, g, n) == 0
  {
    if n > 0 {
      SumEmpty(g, n - 1);
    }
  }

  ghost predicate OneToOne(wide: Filing) {
    forall i, j :: i in wide && j in wide && i != j ==> wide[i] != wide[j]
  }

  lemma RemoveOne(wide: Filing, i: nat)
    requires OneToOne(wide) && i in wide
    ensures (wide - {i}).Keys == wide.Keys - {i} && (wide - {i}).Values == wide.Values - {wide[i]}
    ensures OneToOne(wide - {i})
  {
    forall v | v in wide.Values - {wide[i]}
      ensures v in (wide - {i}).Values
    {
      var j :| j in wide && wide[j] == v;
      assert j in wide - {i};
    }
  }

  lemma {:induction false} SumReindex(wide: Filing, g: nat -> int, h: nat -> int, n: nat, m: nat)
    requires OneToOne(wide) && forall i :: i in wide ==> i < n && wide[i] < m && g(i) == h(wide[i])
    ensures Sum(wide.Keys, g, n) == Sum(wide.Values, h, m)
    decreases |wide|
  {
    if wide == map[] {
      assert wide.Keys == {} && wide.Values == {};
      SumEmpty(g, n);
      SumEmpty(h, m);
    } else {
      var i :| i in wide;
      RemoveOne(wide, i);
      SumReindex(wide - {i}, g, h, n, m);
      SumRemove(wide.Keys, g, i, n);
      SumRemove(wide.Values, h, wide[i], m);
    }
  }

  lemma {:induction false} ValuesSize(wide: Filing)
    requires OneToOne(wide)
    ensures |wide.Values| == |wide|
    decreases |wide|
  {
    if wide != map[] {
      var i :| i in wide;
      RemoveOne(wide, i);
      ValuesSize(wide - {i});
    }
  }

  ghost function Terms(r: nat, ids: set<nat>, y: nat -> int, n: nat): nat -> int
    requires Bounded(r, ids, n)
  {
    (i: nat) => Term(r, ids, y, n, i)
  }

  lemma {:induction false} InterpolateIsSum(r: nat, ids: set<nat>, y: nat -> int, n: nat, m: nat)
    requires Bounded(r, ids, n)
    ensures Interpolate(r, ids, y, n, m) == Sum(ids, Terms(r, ids, y, n), m)
  {
    if m > 0 {
      InterpolateIsSum(r, ids, y, n, m - 1);
    }
  }

  // ----- truncated identifiers

  /** The weight that the filed identifiers give to a participant is the one its real identifier should have. */
  ghost predicate RightWeight(r: nat, wide: Filing, i: nat)
    requires Filed(r, wide) && i in wide
  {
    Coefficient(r, wide.Keys, i, U32) == Coefficient(r, wide.Values, wide[i], r)
  }

  lemma FiledIsOneToOne(r: nat, wide: Filing)
    requires Filed(r, wide)
    ensures OneToOne(wide) && |wide.Values| == |wide| && Bounded(r, wide.Keys, U32) && Bounded(r, wide.Values, r)
  {
    assert OneToOne(wide);
    ValuesSize(wide);
  }

  /** With right weights the filed shares interpolate like shares filed under the real identifiers. */
  lemma FiledInterpolation(r: nat, wide: Filing, y: nat -> int, z: nat -> int)
    requires Filed(r, wide) && forall i :: i in wide ==> RightWeight(r, wide, i) && z(i) == y(wide[i])
    ensures Interpolate(r, wide.Keys, z, U32, U32) == Interpolate(r, wide.Values, y, r, r)
  {
    FiledIsOneToOne(r, wide);
    InterpolateIsSum(r, wide.Keys, z, U32, U32);
    InterpolateIsSum(r, wide.Values, y, r, r);
    var g, h := Terms(r, wide.Keys, z, U32), Terms(r, wide.Values, y, r);
    forall i | i in wide
      ensures g(i) == h(wide[i])
    {
      assert wide[i] in wide.Values;
      assert RightWeight(r, wide, i);
    }
    SumReindex(wide, g, h, U32, r);
  }

  lemma RightWeightsRecover(r: nat, wide: Filing, f: seq<int>, msg: int)
    requires Filed(r, wide) && |f| <= |wide| && forall i :: i in wide ==> RightWeight(r, wide, i)
    ensures Aggregate(r, RealShares(r, f, msg, wide)) == TrueShare(r, f, msg, 0)
  {
    FiledIsOneToOne(r, wide);
    FiledInterpolation(r, wide, (x: nat) => Eval(f, x), Values(wide, f));
    InterpolatePolynomial(r, wide.Values, f, r);
    CongScale(r, msg, FiledValue(r, wide, f), Eval(f, 0));
    RecoveredIff(r, wide, f, msg);
  }

  /** A single nonzero share counts with its weight. */
  lemma OnlyOneShare(r: nat, shares: map<nat, nat>, i: nat)
    requires ShareMap(r, shares) && i in shares && forall j :: j in shares && j != i ==> shares[j] == 0
    ensures Cong(r, Aggregate(r, shares), shares[i] * Coefficient(r, shares.Keys, i, U32))
  {
    var ids := shares.Keys;
    var zero := (j: nat) => 0 as int;
    InterpolateChange(r, ids, zero, Masked(shares, ids), i, U32, U32);
    InterpolateLinear(r, ids, 0, One, 0, One, zero, U32, U32);
    CongMod(r, Interpolate(r, ids, Masked(shares, ids), U32, U32));
  }

  lemma WeightedByOne(r: nat, wide: Filing, i: nat)
    requires Filed(r, wide) && i in wide && Bounded(r, wide.Keys, U32)
    ensures var others := wide.Values - {wide[i]};
            Cong(r, Aggregate(r, RealShares(r, Vanishing(others, r), 1, wide)),
                 Product(others, wide[i], r) % r * Coefficient(r, wide.Keys, i, U32))
  {
    FiledIsOneToOne(r, wide);
    var others := wide.Values - {wide[i]};
    var f := Vanishing(others, r);
    var shares := RealShares(r, f, 1, wide);
    assert shares.Keys == wide.Keys;
    forall j | j in shares && j != i
      ensures shares[j] == 0
    {
      assert wide[j] in others;
      VanishingShare(r, others, r, wide[j]);
    }
    OnlyOneShare(r, shares, i);
    VanishingShare(r, others, r, wide[i]);
  }

  /** Recovering the polynomial that vanishes at all other participants fixes a participant's weight. */
  lemma RecoveryFixesWeight(r: nat, wide: Filing, i: nat)
    requires Filed(r, wide) && i in wide
    requires var f := Vanishing(wide.Values - {wide[i]}, r);
             Aggregate(r, RealShares(r, f, 1, wide)) == TrueShare(r, f, 1, 0)
    ensures RightWeight(r, wide, i)
  {
    FiledIsOneToOne(r, wide);
    var others, c := wide.Values - {wide[i]}, Coefficient(r, wide.Keys, i, U32);
    assert wide[i] in wide.Values;
    WeightedByOne(r, wide, i);
    VanishingShare(r, others, r, 0);
    WeightFromProducts(r, Product(others, wide[i], r), Product(others, 0, r), c);
    SameWeight(r, wide.Values, wide[i], c);
  }

  /** From residues of the two products back to the products. */
  lemma WeightFromProducts(r: nat, den: int, num: int, c: int)
    requires r > 0 && Cong(r, num % r, den % r * c)
    ensures Cong(r, den * c, num)
  {
    MulReduced(r, den, c);
    CongIffSameResidue(r, num % r, den % r * c);
    ModMod(r, num);
    CongIffSameResidue(r, den * c, num);
  }

  lemma UniqueQuotient(r: nat, den: int, num: int, c: nat, c': nat)
    requires IsPrime(r) && Nonzero(r, den) && c < r && c' < r
    requires Cong(r, den * c, num) && Cong(r, den * c', num)
    ensures c == c'
  {
    CongSym(r, den * c', num);
    CongTrans(r, den * c, num, den * c');
    Cancel(r, den, c, c');
    SmallCong(r, c, c');
  }

  lemma SmallCong(r: nat, c: nat, c': nat)
    requires c < r && c' < r && Cong(r, c, c')
    ensures c == c'
  {
    CongIffSameResidue(r, c, c');
  }

  lemma SameWeight(r: nat, ids: set<nat>, i: nat, c: nat)
    requires Bounded(r, ids, r) && i in ids && c < r
    requires Cong(r, Product(ids - {i}, i, r) * c, Product(ids - {i}, 0, r))
    ensures c == Coefficient(r, ids, i, r)
  {
    DenominatorNonzero(r, ids, i, r);
    UniqueQuotient(r, Product(ids - {i}, i, r), Product(ids - {i}, 0, r), c, Coefficient(r, ids, i, r));
  }

  /**
    Whatever identifiers have been truncated, the quorum recovers every
    polynomial it is large enough for exactly when each participant's weight,
    computed from the filed identifiers, is the one of the real identifiers.
   */
  lemma TruncatedQuorumIff(r: nat, wide: Filing)
    requires Filed(r, wide)
    ensures RecoversEvery(r, wide, |wide|) <==> forall i :: i in wide ==> RightWeight(r, wide, i)
  {
    FiledIsOneToOne(r, wide);
    if forall i :: i in wide ==> RightWeight(r, wide, i) {
      forall f, msg | |f| <= |wide|
        ensures Aggregate(r, RealShares(r, f, msg, wide)) == TrueShare(r, f, msg, 0)
      {
        RightWeightsRecover(r, wide, f, msg);
      }
    }
    if RecoversEvery(r, wide, |wide|) {
      forall i | i in wide
        ensures RightWeight(r, wide, i)
      {
        assert wide[i] in wide.Values;
        VanishingDegree(wide.Values - {wide[i]}, r);
        RecoveryFixesWeight(r, wide, i);
      }
    }
  }

  /**
    A participant filed under zero has a nonzero multiple of 2^32 as its real
    identifier. A quorum with it recovers constant polynomials only.
   */
  lemma ZeroFilingIff(r: nat, wide: Filing, d: nat)
    requires Filed(r, wide) && 0 in wide && wide[0] != 0
    ensures RecoversEvery(r, wide, d) <==> d <= 1
  {
    forall f, msg
      ensures Aggregate(r, RealShares(r, f, msg, wide)) == TrueShare(r, f, msg, wide[0])
    {
      ZeroIdDecidesAlone(r, RealShares(r, f, msg, wide));
      ModMod(r, Eval(f, wide[0]) * msg);
    }
    if d <= 1 {
      forall f, msg | |f| <= d
        ensures TrueShare(r, f, msg, wide[0]) == TrueShare(r, f, msg, 0)
      {
        EvalConstant(f, wide[0], 0);
      }
    } else {
      IdentityShare(r, wide[0]);
      IdentityShare(r, 0);
      assert |IDENTITY| <= d;
    }
  }

  lemma IdentityShare(r: nat, x: nat)
    requires x < r
    ensures TrueShare(r, IDENTITY, 1, x) == x
  {
    EvalIdentity(x);
  }
}
