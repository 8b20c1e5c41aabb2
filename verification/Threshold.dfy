/**
  Recovery of a master signature from partial ones
  (`aggregate_partial_signatures`) and what it depends on.
 */
module Threshold {
  import opened Wrappers
  import opened Modular
  import opened Lagrange

  /** Participant identifiers are 32-bit. */
  const U32: nat := 0x1_0000_0000

  type u32 = x: nat | x < U32

  /** A 96-byte signature: a point of the group, by its exponent, or bytes that decode to none. */
  datatype Signature = Point(exponent: nat) | Undecodable

  type Partial = (Signature, u32)

  /** The order of the signature group, which exceeds every identifier. */
  ghost predicate GroupOrder(r: nat) {
    IsPrime(r) && U32 < r
  }

  predicate AllDecodable(partials: seq<Partial>) {
    forall k :: 0 <= k < |partials| ==> partials[k].0.Point?
  }

  /** The share map after inserting the partials in order; a repeated identifier overwrites. */
  function SharesOf(partials: seq<Partial>): map<nat, nat>
    requires AllDecodable(partials)
  {
    if partials == [] then map[]
    else
      var last := partials[|partials| - 1];
      SharesOf(partials[..|partials| - 1])[last.1 := last.0.exponent]
  }

  ghost predicate ShareMap(r: nat, shares: map<nat, nat>) {
    GroupOrder(r) && forall i :: i in shares ==> i < U32
  }

  /** The shares of the identifiers in done, and zero elsewhere. */
  function Masked(shares: map<nat, nat>, done: set<nat>): nat -> int {
    (i: nat) => if i in done && i in shares then shares[i] else 0
  }

  /** The interpolation of a share map at zero, independent of any iteration order. */
  ghost function Aggregate(r: nat, shares: map<nat, nat>): (sig: nat)
    requires ShareMap(r, shares)
    ensures sig < r
  {
    Interpolate(r, shares.Keys, Masked(shares, shares.Keys), U32, U32) % r
  }

  lemma {:induction false} SharesBounded(partials: seq<Partial>)
    requires AllDecodable(partials)
    ensures forall i :: i in SharesOf(partials) ==> i < U32
    ensures SharesOf(partials).Keys == set k | 0 <= k < |partials| :: partials[k].1
  {
    if partials != [] {
      var n := |partials| - 1;
      SharesBounded(partials[..n]);
      assert forall k :: 0 <= k < n ==> partials[..n][k] == partials[k];
    }
  }

  /** Changing one value changes the interpolation by that change times its coefficient. */
  lemma {:induction false} InterpolateChange(r: nat, ids: set<nat>, y: nat -> int, z: nat -> int, k: nat, n: nat,
                                             m: nat)
    requires Bounded(r, ids, n) && k in ids
    requires forall i :: i in ids && i != k ==> y(i) == z(i)
    ensures Interpolate(r, ids, z, n, m) ==
            Interpolate(r, ids, y, n, m) + (if k < m then (z(k) - y(k)) * Coefficient(r, ids, k, n) else 0)
  {
    if m > 0 {
      InterpolateChange(r, ids, y, z, k, n, m - 1);
      if m - 1 == k {
        Distribute(z(k), y(k), Coefficient(r, ids, k, n));
      }
    }
  }

  lemma Distribute(z: int, y: int, c: int)
    ensures z * c == y * c + (z - y) * c
  {
  }

  /** One more share in the running sum of the outer loop. */
  lemma AddShare(r: nat, shares: map<nat, nat>, done: set<nat>, id: nat, sum: nat)
    requires ShareMap(r, shares) && id in shares && id !in done
    requires sum == Interpolate(r, shares.Keys, Masked(shares, done), U32, U32) % r
    ensures (sum + shares[id] * Coefficient(r, shares.Keys, id, U32)) % r ==
            Interpolate(r, shares.Keys, Masked(shares, done + {id}), U32, U32) % r
  {
    var before := Interpolate(r, shares.Keys, Masked(shares, done), U32, U32);
    var term := shares[id] * Coefficient(r, shares.Keys, id, U32);
    InterpolateChange(r, shares.Keys, Masked(shares, done), Masked(shares, done + {id}), id, U32, U32);
    AddReduced(r, before, term);
  }

  lemma AddReduced(r: int, a: int, b: int)
    requires r > 0
    ensures (a % r + b) % r == (a + b) % r
  {
    CongMod(r, a);
    CongRefl(r, b);
    CongAdd(r, a % r, a, b, b);
    CongIffSameResidue(r, a % r + b, a + b);
  }

  lemma MulReduced(r: int, a: int, b: int)
    requires r > 0
    ensures (a % r * b) % r == (a * b) % r
  {
    CongMod(r, a);
    CongRefl(r, b);
    CongMul(r, a % r, a, b, b);
    CongIffSameResidue(r, a % r * b, a * b);
  }

  /** One more factor in a running product of the inner loop. */
  lemma {:induction false} ProductInsert(s: set<nat>, a: nat, shift: int, n: nat)
    requires a !in s && a < n
    ensures Product(s + {a}, shift, n) == Product(s, shift, n) * (a - shift)
  {
    ProductRemove(s + {a}, a, shift, n);
    assert s + {a} - {a} == s;
  }

  lemma RunningProduct(r: nat, seen: set<nat>, a: nat, shift: int, acc: int)
    requires r > 0 && a !in seen && a < U32 && acc == Product(seen, shift, U32) % r
    ensures (acc * (a - shift)) % r == Product(seen + {a}, shift, U32) % r
  {
    ProductInsert(seen, a, shift, U32);
    MulReduced(r, Product(seen, shift, U32), a - shift);
  }

  /** The coefficient from reduced running products is the specified one. */
  lemma CoefficientFromReduced(r: nat, ids: set<nat>, i: nat, num: nat, den: nat)
    requires Bounded(r, ids, U32) && i in ids
    requires num == Product(ids - {i}, 0, U32) % r
    requires den == Product(ids - {i}, i, U32) % r
    ensures Invert(r, den).Some?
    ensures (num * Invert(r, den).value) % r == Coefficient(r, ids, i, U32)
  {
    DenominatorNonzero(r, ids, i, U32);
    InvertReduced(r, Product(ids - {i}, i, U32));
    MulReduced(r, Product(ids - {i}, 0, U32), Invert(r, den).value);
  }

  /** Inversion reads its argument modulo r only. */
  lemma InvertReduced(r: nat, d: int)
    requires IsPrime(r)
    ensures Invert(r, d % r) == Invert(r, d)
  {
    ModMod(r, d);
  }

  lemma FractionStep(r: nat, ids: set<nat>, remaining: set<nat>, id: nat, otherId: nat, numerator: nat,
                     denominator: nat)
    requires Bounded(r, ids, U32) && remaining <= ids && otherId in remaining
    requires numerator == Product(ids - remaining - {id}, 0, U32) % r
    requires denominator == Product(ids - remaining - {id}, id, U32) % r
    ensures var seen' := ids - (remaining - {otherId}) - {id};
            if otherId == id then seen' == ids - remaining - {id}
            else
              && (numerator * otherId) % r == Product(seen', 0, U32) % r
              && (denominator * (otherId - id)) % r == Product(seen', id, U32) % r
  {
    var seen := ids - remaining - {id};
    if otherId == id {
      assert ids - (remaining - {otherId}) - {id} == seen;
    } else {
      assert ids - (remaining - {otherId}) - {id} == seen + {otherId};
      RunningProduct(r, seen, otherId, 0, numerator);
      RunningProduct(r, seen, otherId, id, denominator);
    }
  }

  /** The inner loop of the aggregation: numerator and denominator of one coefficient. */
  method LagrangeFraction(r: nat, ids: set<nat>, id: nat) returns (numerator: nat, denominator: nat)
    requires Bounded(r, ids, U32) && id in ids
    ensures numerator == Product(ids - {id}, 0, U32) % r
    ensures denominator == Product(ids - {id}, id, U32) % r
  {
    numerator, denominator := 1, 1;
    var remaining := ids;
    EmptyProduct(0, U32);
    EmptyProduct(id, U32);
    assert ids - remaining - {id} == {};
    while remaining != {}
      invariant remaining <= ids
      invariant numerator == Product(ids - remaining - {id}, 0, U32) % r
      invariant denominator == Product(ids - remaining - {id}, id, U32) % r
      decreases |remaining|
    {
      var otherId :| otherId in remaining;
      FractionStep(r, ids, remaining, id, otherId, numerator, denominator);
      remaining := remaining - {otherId};
      if otherId != id {
        numerator := (numerator * otherId) % r;
        denominator := (denominator * (otherId - id)) % r;
      }
    }
    assert ids - {} - {id} == ids - {id};
  }

  /** The first loop of the aggregation: decode every partial into the share map. */
  method DeserializeShares(partials: seq<Partial>) returns (res: Result<map<nat, nat>, string>)
    ensures res.Ok? <==> AllDecodable(partials)
    ensures res.Ok? ==> res.value == SharesOf(partials)
  {
    var shares: map<nat, nat> := map[];
    for k := 0 to |partials|
      invariant AllDecodable(partials[..k]) && shares == SharesOf(partials[..k])
    {
      if partials[k].0.Undecodable? {
        return Err("Failed to deserialize signature");
      }
      assert partials[..k + 1][..k] == partials[..k];
      shares := shares[partials[k].1 := partials[k].0.exponent];
    }
    assert partials[..|partials|] == partials;
    return Ok(shares);
  }

  /** One round of the outer loop: the share times its coefficient joins the sum. */
  method AddWeightedShare(r: nat, shares: map<nat, nat>, ghost done: set<nat>, sum: nat, id: nat) returns (sum': nat)
    requires ShareMap(r, shares) && id in shares && id !in done
    requires sum == Interpolate(r, shares.Keys, Masked(shares, done), U32, U32) % r
    ensures sum' == Interpolate(r, shares.Keys, Masked(shares, done + {id}), U32, U32) % r
  {
    var numerator, denominator := LagrangeFraction(r, shares.Keys, id);
    CoefficientFromReduced(r, shares.Keys, id, numerator, denominator);
    var coefficient := (numerator * Invert(r, denominator).value) % r;
    AddShare(r, shares, done, id, sum);
    sum' := (sum + shares[id] * coefficient) % r;
  }

  /**
    The outer loop of the aggregation over a hash map read in an arbitrary
    order. Inverting a denominator never fails, and the sum depends on no order.
   */
  method RecoverPoint(r: nat, shares: map<nat, nat>) returns (recovered: nat)
    requires ShareMap(r, shares)
    ensures recovered == Aggregate(r, shares)
  {
    recovered := 0;
    var remaining := shares.Keys;
    ZeroSum(r, shares);
    while remaining != {}
      invariant remaining <= shares.Keys
      invariant recovered == Interpolate(r, shares.Keys, Masked(shares, shares.Keys - remaining), U32, U32) % r
      decreases |remaining|
    {
      var id :| id in remaining;
      recovered := AddWeightedShare(r, shares, shares.Keys - remaining, recovered, id);
      assert shares.Keys - (remaining - {id}) == shares.Keys - remaining + {id};
      remaining := remaining - {id};
    }
    assert shares.Keys - {} == shares.Keys;
  }

  /** Aggregation succeeds exactly when every partial decodes. */
  method AggregatePartialSignatures(r: nat, partials: seq<Partial>) returns (res: Result<nat, string>)
    requires GroupOrder(r)
    ensures res.Ok? <==> AllDecodable(partials)
    ensures res.Ok? ==> ShareMap(r, SharesOf(partials)) && res.value == Aggregate(r, SharesOf(partials))
  {
    var shares := DeserializeShares(partials);
    if shares.Err? {
      return Err(shares.error);
    }
    SharesBounded(partials);
    var recovered := RecoverPoint(r, shares.value);
    return Ok(recovered);
  }

  lemma ZeroSum(r: nat, shares: map<nat, nat>)
    requires ShareMap(r, shares)
    ensures Interpolate(r, shares.Keys, Masked(shares, shares.Keys - shares.Keys), U32, U32) % r == 0
  {
    InterpolateLinear(r, shares.Keys, 0, One, 0, One, Masked(shares, shares.Keys - shares.Keys), U32, U32);
  }

  // ----- what the aggregate depends on

  predicate DistinctIds(partials: seq<Partial>) {
    forall k, l :: 0 <= k < l < |partials| ==> partials[k].1 != partials[l].1
  }

  /** With distinct identifiers the share map holds exactly the partials. */
  lemma {:induction false} SharesAreThePartials(partials: seq<Partial>)
    requires AllDecodable(partials) && DistinctIds(partials)
    ensures |SharesOf(partials)| == |partials|
    ensures forall k :: 0 <= k < |partials| ==>
              partials[k].1 in SharesOf(partials) && SharesOf(partials)[partials[k].1] == partials[k].0.exponent
  {
    if partials != [] {
      var n := |partials| - 1;
      SharesAreThePartials(partials[..n]);
      SharesBounded(partials[..n]);
      assert forall k :: 0 <= k < n ==> partials[..n][k] == partials[k];
      assert partials[n].1 !in SharesOf(partials[..n]);
    }
  }

  lemma SharesIncluded(p: seq<Partial>, q: seq<Partial>)
    requires AllDecodable(p) && AllDecodable(q) && DistinctIds(p) && DistinctIds(q)
    requires multiset(p) == multiset(q)
    ensures forall i :: i in SharesOf(p) ==> i in SharesOf(q) && SharesOf(q)[i] == SharesOf(p)[i]
  {
    SharesAreThePartials(p);
    SharesAreThePartials(q);
    SharesBounded(p);
    forall i | i in SharesOf(p)
      ensures i in SharesOf(q) && SharesOf(q)[i] == SharesOf(p)[i]
    {
      var k :| 0 <= k < |p| && p[k].1 == i;
      assert p[k] in multiset(p);
      assert p[k] in multiset(q);
      var l :| 0 <= l < |q| && q[l] == p[k];
    }
  }

  /** The order in which partials arrived does not matter. */
  lemma ArrivalOrderIrrelevant(p: seq<Partial>, q: seq<Partial>)
    requires AllDecodable(p) && AllDecodable(q) && DistinctIds(p) && DistinctIds(q)
    requires multiset(p) == multiset(q)
    ensures SharesOf(p) == SharesOf(q)
  {
    SharesIncluded(p, q);
    SharesIncluded(q, p);
  }

  /** The signature a holder of the secret f(x) gives for the message point with exponent msg. */
  function TrueShare(r: nat, f: seq<int>, msg: int, x: int): nat
    requires r > 0
  {
    (Eval(f, x) * msg) % r
  }

  /** Every share is what the participant with that identifier would sign. */
  ghost predicate HonestShares(r: nat, f: seq<int>, msg: int, shares: map<nat, nat>)
    requires r > 0
  {
    forall i :: i in shares ==> shares[i] == TrueShare(r, f, msg, i)
  }

  /**
    Any quorum of at least |f| honest shares aggregates to the signature of the
    master key f(0), whoever takes part.
   */
  lemma QuorumRecoversMaster(r: nat, f: seq<int>, msg: int, shares: map<nat, nat>)
    requires ShareMap(r, shares) && HonestShares(r, f, msg, shares)
    requires |f| <= |shares|
    ensures Aggregate(r, shares) == TrueShare(r, f, msg, 0)
  {
    var ids := shares.Keys;
    assert |ids| == |shares|;
    var fx := (i: nat) => Eval(f, i);
    var scaled := (i: nat) => msg * Eval(f, i);
    forall i | i in ids
      ensures Cong(r, Masked(shares, ids)(i), scaled(i))
    {
      assert msg * Eval(f, i) == Eval(f, i) * msg;
      CongMod(r, Eval(f, i) * msg);
    }
    InterpolateCong(r, ids, Masked(shares, ids), scaled, U32, U32);
    InterpolateLinear(r, ids, msg, fx, 0, One, scaled, U32, U32);
    InterpolatePolynomial(r, ids, f, U32);
    CongScale(r, msg, Interpolate(r, ids, fx, U32, U32), Eval(f, 0));
    CongTrans(r, Interpolate(r, ids, Masked(shares, ids), U32, U32), Interpolate(r, ids, scaled, U32, U32),
              msg * Eval(f, 0));
    assert msg * Eval(f, 0) == Eval(f, 0) * msg;
    CongIffSameResidue(r, Interpolate(r, ids, Masked(shares, ids), U32, U32), Eval(f, 0) * msg);
  }

  /** A coefficient vanishes exactly when some other participant has identifier zero. */
  lemma CoefficientNonzeroIff(r: nat, ids: set<nat>, i: nat)
    requires GroupOrder(r) && Bounded(r, ids, U32) && i in ids
    ensures Nonzero(r, Coefficient(r, ids, i, U32)) <==> 0 !in ids - {i}
  {
    var num, den, c := Product(ids - {i}, 0, U32), Product(ids - {i}, i, U32), Coefficient(r, ids, i, U32);
    ProductNonzeroIff(r, ids - {i}, 0, U32);
    DenominatorNonzero(r, ids, i, U32);
    ProductNonzero(r, den, c);
    CongSym(r, den * c, num);
    assert Nonzero(r, num) <==> Nonzero(r, den * c) by {
      if Cong(r, num, 0) {
        CongTrans(r, den * c, num, 0);
      }
      if Cong(r, den * c, 0) {
        CongTrans(r, num, den * c, 0);
      }
    }
    forall j | j in ids - {i} && j < U32 && j != 0
      ensures Nonzero(r, j - 0)
    {
      SmallNonzero(r, j);
    }
    if 0 in ids - {i} {
      CongRefl(r, 0);
      assert !Nonzero(r, 0 - 0);
    }
  }

  /**
    Replacing one share of a quorum keeps the result exactly when the new share
    is the same point, if no other participant has identifier zero: then no wrong
    share goes unnoticed.
   */
  lemma WrongShareIff(r: nat, shares: map<nat, nat>, k: nat, wrong: nat)
    requires ShareMap(r, shares) && k in shares && 0 !in shares.Keys - {k}
    ensures ShareMap(r, shares[k := wrong])
    ensures Aggregate(r, shares[k := wrong]) == Aggregate(r, shares) <==> Cong(r, wrong, shares[k])
  {
    var ids, shares' := shares.Keys, shares[k := wrong];
    assert shares'.Keys == ids;
    var c, before := Coefficient(r, ids, k, U32), Interpolate(r, ids, Masked(shares, ids), U32, U32);
    var after := Interpolate(r, ids, Masked(shares', ids), U32, U32);
    assert after == before + (wrong - shares[k]) * c by {
      OneShareChange(r, shares, k, wrong, U32);
    }
    assert after % r == before % r <==> Cong(r, wrong, shares[k]) by {
      CoefficientNonzeroIff(r, ids, k);
      ChangeVisible(r, before, after, wrong, shares[k], c);
    }
  }

  lemma OneShareChange(r: nat, shares: map<nat, nat>, k: nat, wrong: nat, n: nat)
    requires Bounded(r, shares.Keys, n) && k in shares
    ensures Interpolate(r, shares.Keys, Masked(shares[k := wrong], shares.Keys), n, n) ==
            Interpolate(r, shares.Keys, Masked(shares, shares.Keys), n, n) +
            (wrong - shares[k]) * Coefficient(r, shares.Keys, k, n)
  {
    var y, z := Masked(shares, shares.Keys), Masked(shares[k := wrong], shares.Keys);
    assert y(k) == shares[k] && z(k) == wrong;
    InterpolateChange(r, shares.Keys, y, z, k, n, n);
  }

  lemma ChangeVisible(r: nat, before: int, after: int, a: int, b: int, c: int)
    requires IsPrime(r) && Nonzero(r, c) && after == before + (a - b) * c
    ensures after % r == before % r <==> Cong(r, a, b)
  {
    ProductNonzero(r, a - b, c);
    CongIffSameResidue(r, after, before);
    assert after - before == (a - b) * c - 0;
    assert a - b - 0 == a - b;
  }

  lemma ReducedCong(r: int, a: int, b: int)
    requires r > 0
    ensures Cong(r, a % r, b % r) <==> Cong(r, a, b)
  {
    CongIffSameResidue(r, a, b);
    CongIffSameResidue(r, a % r, b % r);
    ModMod(r, a);
    ModMod(r, b);
  }

  lemma ModMod(r: int, a: int)
    requires r > 0
    ensures a % r % r == a % r
  {
  }

  /**
    A participant whose real identifier does not fit 32 bits is filed under the
    truncated one. Its true partial then still recovers the master signature
    exactly when the polynomial agrees at both identifiers for this message.
   */
  lemma TruncatedIdIff(r: nat, f: seq<int>, msg: int, shares: map<nat, nat>, wideId: nat)
    requires ShareMap(r, shares) && HonestShares(r, f, msg, shares) && |f| <= |shares|
    requires wideId % U32 in shares && 0 !in shares.Keys - {wideId % U32}
    ensures ShareMap(r, shares[wideId % U32 := TrueShare(r, f, msg, wideId)])
    ensures Aggregate(r, shares[wideId % U32 := TrueShare(r, f, msg, wideId)]) == TrueShare(r, f, msg, 0)
            <==> Cong(r, Eval(f, wideId) * msg, Eval(f, wideId % U32) * msg)
  {
    var k := wideId % U32;
    QuorumRecoversMaster(r, f, msg, shares);
    WrongShareIff(r, shares, k, TrueShare(r, f, msg, wideId));
    ReducedCong(r, Eval(f, wideId) * msg, Eval(f, k) * msg);
  }

  /** The polynomial with value x at x. */
  const IDENTITY: seq<int> := [0, 1]

  lemma EvalIdentity(x: int)
    ensures Eval(IDENTITY, x) == x
  {
    assert IDENTITY[1..] == [1] && [1][1..] == [];
    assert Eval([1], x) == 1 + x * 0;
  }

  lemma EvalConstant(f: seq<int>, x: int, y: int)
    requires |f| <= 1
    ensures Eval(f, x) == Eval(f, y)
  {
    if f != [] {
      assert f[1..] == [];
    }
  }

  /** The shares of honest participants, the one with the wide identifier filed under the truncated one. */
  function FiledShares(r: nat, f: seq<int>, msg: int, ids: set<nat>, wideId: nat): map<nat, nat>
    requires r > 0
  {
    map i | i in ids :: if i == wideId % U32 then TrueShare(r, f, msg, wideId) else TrueShare(r, f, msg, i)
  }

  ghost predicate RecoversAll(r: nat, ids: set<nat>, wideId: nat)
    requires GroupOrder(r) && forall i :: i in ids ==> i < U32
  {
    forall f, msg :: |f| <= |ids| ==> Aggregate(r, FiledShares(r, f, msg, ids, wideId)) == TrueShare(r, f, msg, 0)
  }

  lemma FiledSharesIff(r: nat, f: seq<int>, msg: int, ids: set<nat>, wideId: nat)
    requires GroupOrder(r) && (forall i :: i in ids ==> i < U32) && |f| <= |ids|
    requires wideId % U32 in ids && 0 !in ids - {wideId % U32}
    ensures Aggregate(r, FiledShares(r, f, msg, ids, wideId)) == TrueShare(r, f, msg, 0) <==>
            Cong(r, Eval(f, wideId) * msg, Eval(f, wideId % U32) * msg)
  {
    var honest := map i | i in ids :: TrueShare(r, f, msg, i);
    assert honest.Keys == ids && |honest| == |honest.Keys|;
    TruncatedIdIff(r, f, msg, honest, wideId);
    assert honest[wideId % U32 := TrueShare(r, f, msg, wideId)] == FiledShares(r, f, msg, ids, wideId);
  }

  /** A concrete case: the identity as sharing polynomial, and the message with exponent one. */
  lemma WideIdBreaks(r: nat, ids: set<nat>, wideId: nat)
    requires GroupOrder(r) && (forall i :: i in ids ==> i < U32) && U32 <= wideId < r && |ids| != 1
    requires wideId % U32 in ids && 0 !in ids - {wideId % U32}
    ensures |IDENTITY| <= |ids|
    ensures Aggregate(r, FiledShares(r, IDENTITY, 1, ids, wideId)) != TrueShare(r, IDENTITY, 1, 0)
  {
    var k := wideId % U32;
    AtLeastTwo(ids, k);
    FiledSharesIff(r, IDENTITY, 1, ids, wideId);
    EvalIdentity(wideId);
    EvalIdentity(k);
    SmallNonzero(r, wideId - k);
    assert wideId * 1 - k * 1 == wideId - k - 0;
  }

  /**
    Truncating a participant's identifier is harmless, whatever the sharing
    polynomial and the message, exactly when the identifier fits 32 bits or the
    quorum is a single participant.
   */
  lemma TruncationHarmlessIff(r: nat, ids: set<nat>, wideId: nat)
    requires GroupOrder(r) && (forall i :: i in ids ==> i < U32) && wideId < r
    requires wideId % U32 in ids && 0 !in ids - {wideId % U32}
    ensures RecoversAll(r, ids, wideId) <==> wideId < U32 || |ids| == 1
  {
    var k := wideId % U32;
    if wideId < U32 || |ids| == 1 {
      forall f, msg | |f| <= |ids|
        ensures Aggregate(r, FiledShares(r, f, msg, ids, wideId)) == TrueShare(r, f, msg, 0)
      {
        FiledSharesIff(r, f, msg, ids, wideId);
        if wideId >= U32 {
          EvalConstant(f, wideId, k);
        }
        CongRefl(r, Eval(f, k) * msg);
      }
    } else {
      WideIdBreaks(r, ids, wideId);
    }
  }

  lemma AtLeastTwo(ids: set<nat>, k: nat)
    requires k in ids && |ids| != 1
    ensures |ids| >= 2
  {
  }

  /** Of several partials with one identifier the last counts. */
  lemma {:induction false} LastShareCounts(partials: seq<Partial>, k: nat)
    requires AllDecodable(partials) && k < |partials|
    requires forall l :: k < l < |partials| ==> partials[l].1 != partials[k].1
    ensures partials[k].1 in SharesOf(partials) && SharesOf(partials)[partials[k].1] == partials[k].0.exponent
  {
    if k < |partials| - 1 {
      LastShareCounts(partials[..|partials| - 1], k);
    }
  }

  lemma SharesOfOne(p: Partial)
    requires p.0.Point?
    ensures SharesOf([p]) == map[p.1 := p.0.exponent]
  {
    assert [p][..0] == [];
    assert SharesOf([p]) == SharesOf([p][..0])[p.1 := p.0.exponent];
  }

  /** A quorum of one: the result is its share. */
  lemma SingleShare(r: nat, shares: map<nat, nat>, a: nat)
    requires ShareMap(r, shares) && shares.Keys == {a}
    ensures Aggregate(r, shares) == shares[a] % r
  {
    var y, constant := Masked(shares, {a}), (i: nat) => shares[a] as int;
    CongRefl(r, shares[a]);
    InterpolateCong(r, {a}, y, constant, U32, U32);
    InterpolateLinear(r, {a}, shares[a], One, 0, One, constant, U32, U32);
    CoefficientsSumToOne(r, {a}, U32);
    CongScale(r, shares[a], Interpolate(r, {a}, One, U32, U32), 1);
    CongTrans(r, Interpolate(r, {a}, y, U32, U32), Interpolate(r, {a}, constant, U32, U32), shares[a]);
    CongIffSameResidue(r, Interpolate(r, {a}, y, U32, U32), shares[a]);
  }

  // ----- identifier zero

  lemma CoefficientBesideZero(r: nat, ids: set<nat>, i: nat)
    requires GroupOrder(r) && Bounded(r, ids, U32) && i in ids && 0 in ids && i != 0
    ensures Coefficient(r, ids, i, U32) == 0
  {
    var c := Coefficient(r, ids, i, U32);
    CoefficientNonzeroIff(r, ids, i);
    if c != 0 {
      SmallNonzero(r, c);
    }
  }

  lemma {:induction false} OnlyZeroCounts(r: nat, ids: set<nat>, y: nat -> int, z: nat -> int, m: nat)
    requires GroupOrder(r) && Bounded(r, ids, U32) && 0 in ids && y(0) == z(0)
    ensures Interpolate(r, ids, y, U32, m) == Interpolate(r, ids, z, U32, m)
  {
    if m > 0 {
      OnlyZeroCounts(r, ids, y, z, m - 1);
      if m - 1 in ids && m - 1 != 0 {
        CoefficientBesideZero(r, ids, m - 1);
      }
    }
  }

  /**
    Once a participant is filed under identifier zero, the result is its share
    alone: the other members of the quorum no longer matter.
   */
  lemma ZeroIdDecidesAlone(r: nat, shares: map<nat, nat>)
    requires ShareMap(r, shares) && 0 in shares
    ensures Aggregate(r, shares) == shares[0] % r
  {
    var ids, y := shares.Keys, Masked(shares, shares.Keys);
    var constant := (i: nat) => shares[0] as int;
    OnlyZeroCounts(r, ids, y, constant, U32);
    InterpolateLinear(r, ids, shares[0], One, 0, One, constant, U32, U32);
    CoefficientsSumToOne(r, ids, U32);
    CongScale(r, shares[0], Interpolate(r, ids, One, U32, U32), 1);
    CongIffSameResidue(r, Interpolate(r, ids, constant, U32, U32), shares[0]);
  }
}
