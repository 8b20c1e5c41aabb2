/** Signing with a distributed account of Dirk: the quorum protocol that collects partial signatures as they arrive. */
module Dirk {
  import opened Wrappers
  import opened Threshold
  import opened Recovery

  // ----- the signing protocol

  /** What one participant's request ends with. */
  datatype Reply = TransportError | Refused | Unparsable | Signed(signature: Signature)

  datatype DirkError = NotEnoughPartials | AggregationFailed

  /** Replies from participants of the account, at most one from each, in the order they arrive. */
  predicate OneReplyEach(participants: set<nat>, replies: seq<(Reply, u32)>) {
    && (forall k, l :: 0 <= k < l < |replies| ==> replies[k].1 != replies[l].1)
    && (forall k :: 0 <= k < |replies| ==> replies[k].1 in participants)
  }

  /** The partial signatures among the replies, in arrival order. */
  function Successes(replies: seq<(Reply, u32)>): (partials: seq<Partial>)
    ensures |partials| <= |replies|
  {
    if replies == [] then []
    else
      var n := |replies| - 1;
      Successes(replies[..n]) +
      match replies[n].0
      case Signed(signature) => [(signature, replies[n].1)]
      case _ => []
  }

  /** The partials the collection loop stops with: it looks at the count only after a success. */
  function Quorum(partials: seq<Partial>, threshold: nat): seq<Partial> {
    var size := if threshold == 0 then 1 else threshold;
    if |partials| <= size then partials else partials[..size]
  }

  ghost function Outcome(r: nat, threshold: nat, replies: seq<(Reply, u32)>): Result<nat, DirkError>
    requires GroupOrder(r)
  {
    var quorum := Quorum(Successes(replies), threshold);
    if |quorum| < threshold then Err(NotEnoughPartials)
    else if !AllDecodable(quorum) then Err(AggregationFailed)
    else
      SharesBounded(quorum);
      Ok(Aggregate(r, SharesOf(quorum)))
  }

  lemma {:induction false} SuccessesPrefix(replies: seq<(Reply, u32)>, k: nat)
    requires k <= |replies|
    ensures Successes(replies[..k]) <= Successes(replies)
    decreases |replies| - k
  {
    if k < |replies| {
      assert replies[..k + 1][..k] == replies[..k];
      SuccessesPrefix(replies, k + 1);
    } else {
      assert replies[..k] == replies;
    }
  }

  lemma SuccessesSnoc(replies: seq<(Reply, u32)>)
    requires replies != []
    ensures var n := |replies| - 1;
            Successes(replies) == Successes(replies[..n]) +
            if replies[n].0.Signed? then [(replies[n].0.signature, replies[n].1)] else []
  {
  }

  // ----- the replies that count

  /** The arrivals that carry a signature. */
  function SignedAt(replies: seq<(Reply, u32)>): set<nat> {
    set k: nat | k < |replies| && replies[k].0.Signed?
  }

  function SignedCount(replies: seq<(Reply, u32)>): nat {
    |SignedAt(replies)|
  }

  /** Arrival k is collected: it is signed, and fewer than max(threshold, 1) signed ones came before it. */
  predicate Collected(replies: seq<(Reply, u32)>, threshold: nat, k: nat) {
    && k < |replies| && replies[k].0.Signed?
    && SignedCount(replies[..k]) < if threshold == 0 then 1 else threshold
  }

  lemma {:induction false} SuccessesCount(replies: seq<(Reply, u32)>)
    ensures |Successes(replies)| == SignedCount(replies)
  {
    if replies != [] {
      var n := |replies| - 1;
      SuccessesCount(replies[..n]);
      SuccessesSnoc(replies);
      assert forall k :: 0 <= k < n ==> replies[..n][k] == replies[k];
      assert SignedAt(replies) == SignedAt(replies[..n]) + if replies[n].0.Signed? then {n} else {};
    }
  }

  /** A signed arrival is the partial numbered by the signed ones before it. */
  lemma {:induction false} SuccessAt(replies: seq<(Reply, u32)>, k: nat)
    requires k < |replies| && replies[k].0.Signed?
    ensures SignedCount(replies[..k]) < |Successes(replies)|
    ensures Successes(replies)[SignedCount(replies[..k])] == (replies[k].0.signature, replies[k].1)
  {
    var n := |replies| - 1;
    SuccessesSnoc(replies);
    SuccessesCount(replies[..n]);
    if k < n {
      SuccessAt(replies[..n], k);
      assert replies[..n][..k] == replies[..k];
    }
  }

  /** Every partial is such an arrival. */
  lemma {:induction false} SuccessFrom(replies: seq<(Reply, u32)>, j: nat) returns (k: nat)
    requires j < |Successes(replies)|
    ensures k < |replies| && replies[k].0.Signed? && SignedCount(replies[..k]) == j
    ensures Successes(replies)[j] == (replies[k].0.signature, replies[k].1)
  {
    var n := |replies| - 1;
    SuccessesSnoc(replies);
    SuccessesCount(replies[..n]);
    if j < |Successes(replies[..n])| {
      k := SuccessFrom(replies[..n], j);
      assert replies[..n][..k] == replies[..k];
    } else {
      k := n;
    }
  }

  lemma {:induction false} DistinctSuccesses(participants: set<nat>, replies: seq<(Reply, u32)>)
    requires OneReplyEach(participants, replies)
    ensures DistinctIds(Successes(replies))
  {
    forall i, j | 0 <= i < j < |Successes(replies)|
      ensures Successes(replies)[i].1 != Successes(replies)[j].1
    {
      var k := SuccessFrom(replies, i);
      var l := SuccessFrom(replies, j);
    }
  }

  /** Stopping after the last reply, or at the first success with enough partials, leaves the quorum. */
  lemma StoppedWithQuorum(replies: seq<(Reply, u32)>, k: nat, threshold: nat)
    requires k <= |replies|
    requires var n := |Successes(replies[..k])|;
             if threshold == 0 then n == 1 || (k == |replies| && n == 0)
             else n == threshold || (k == |replies| && n < threshold)
    ensures Successes(replies[..k]) == Quorum(Successes(replies), threshold)
  {
    SuccessesPrefix(replies, k);
    assert k == |replies| ==> replies[..k] == replies;
  }

  /** The collection loop over replies as they arrive, then the aggregation. */
  method RequestDistributedSignature(r: nat, threshold: nat, replies: seq<(Reply, u32)>)
    returns (res: Result<nat, DirkError>)
    requires GroupOrder(r)
    ensures res == Outcome(r, threshold, replies)
  {
    var partials: seq<Partial> := [];
    var k := 0;
    while k < |replies|
      invariant k <= |replies|
      invariant partials == Successes(replies[..k])
      invariant threshold == 0 ==> |partials| == 0
      invariant threshold > 0 ==> |partials| < threshold
    {
      assert replies[..k + 1][..k] == replies[..k];
      var (reply, participantId) := replies[k];
      k := k + 1;
      if reply.Signed? {
        partials := partials + [(reply.signature, participantId)];
        if |partials| >= threshold {
          break;
        }
      }
    }
    StoppedWithQuorum(replies, k, threshold);
    if |partials| < threshold {
      return Err(NotEnoughPartials);
    }
    var aggregated := AggregatePartialSignatures(r, partials);
    if aggregated.Err? {
      return Err(AggregationFailed);
    }
    return Ok(aggregated.value);
  }

  /** The participants whose partials are collected. */
  function QuorumIds(replies: seq<(Reply, u32)>, threshold: nat): set<nat> {
    set k: nat | k < |replies| && Collected(replies, threshold, k) :: replies[k].1 as nat
  }

  function IdSet(partials: seq<Partial>): set<nat> {
    set k | 0 <= k < |partials| :: partials[k].1
  }

  /** How many partials are collected. */
  function QuorumSize(signed: nat, threshold: nat): nat {
    var size := if threshold == 0 then 1 else threshold;
    if signed <= size then signed else size
  }

  lemma QuorumIdsAre(replies: seq<(Reply, u32)>, threshold: nat)
    ensures QuorumIds(replies, threshold) == IdSet(Quorum(Successes(replies), threshold))
    ensures |Quorum(Successes(replies), threshold)| == QuorumSize(SignedCount(replies), threshold)
  {
    var quorum := Quorum(Successes(replies), threshold);
    SuccessesCount(replies);
    forall i | i in QuorumIds(replies, threshold)
      ensures i in IdSet(quorum)
    {
      var k :| 0 <= k < |replies| && Collected(replies, threshold, k) && replies[k].1 == i;
      SuccessAt(replies, k);
      assert quorum[SignedCount(replies[..k])].1 == i;
    }
    forall i | i in IdSet(quorum)
      ensures i in QuorumIds(replies, threshold)
    {
      var j :| 0 <= j < |quorum| && quorum[j].1 == i;
      var k := SuccessFrom(replies, j);
      assert Collected(replies, threshold, k);
    }
  }

  lemma QuorumIdsSize(participants: set<nat>, replies: seq<(Reply, u32)>, threshold: nat)
    requires OneReplyEach(participants, replies)
    ensures |QuorumIds(replies, threshold)| == QuorumSize(SignedCount(replies), threshold)
    ensures forall i :: i in QuorumIds(replies, threshold) ==> i < U32 && i in participants
  {
    QuorumIdsAre(replies, threshold);
    DistinctSuccesses(participants, replies);
    DistinctIdsCount(Quorum(Successes(replies), threshold));
  }

  lemma {:induction false} DistinctIdsCount(partials: seq<Partial>)
    requires DistinctIds(partials)
    ensures |IdSet(partials)| == |partials|
  {
    if partials != [] {
      var n := |partials| - 1;
      DistinctIdsCount(partials[..n]);
      assert IdSet(partials) == IdSet(partials[..n]) + {partials[n].1};
    }
  }

  /** The shares of the collected replies. */
  ghost predicate CollectedShares(replies: seq<(Reply, u32)>, threshold: nat, shares: map<nat, nat>) {
    && shares.Keys == QuorumIds(replies, threshold)
    && forall k :: 0 <= k < |replies| && Collected(replies, threshold, k) ==>
         replies[k].0.signature == Point(shares[replies[k].1])
  }

  lemma CollectedShareAt(replies: seq<(Reply, u32)>, threshold: nat, k: nat)
    requires var quorum := Quorum(Successes(replies), threshold); AllDecodable(quorum) && DistinctIds(quorum)
    requires Collected(replies, threshold, k)
    ensures var shares := SharesOf(Quorum(Successes(replies), threshold));
            replies[k].1 in shares && replies[k].0.signature == Point(shares[replies[k].1])
  {
    var quorum := Quorum(Successes(replies), threshold);
    SuccessAt(replies, k);
    SharesAreThePartials(quorum);
    assert quorum[SignedCount(replies[..k])] == (replies[k].0.signature, replies[k].1);
  }

  /**
    A signature is returned exactly when at least threshold participants sign and
    all collected partials decode. It is then the interpolation of exactly those
    partials, max(threshold, 1) at most, the earliest to arrive, each of another
    participant of the account. With fewer than threshold there is an error.
   */
  lemma OutcomeIff(r: nat, participants: set<nat>, threshold: nat, replies: seq<(Reply, u32)>)
    requires GroupOrder(r) && OneReplyEach(participants, replies)
    ensures var outcome := Outcome(r, threshold, replies);
            && (outcome == Err(NotEnoughPartials) <==> SignedCount(replies) < threshold)
            && (outcome.Ok? <==>
                && SignedCount(replies) >= threshold
                && forall k :: 0 <= k < |replies| && Collected(replies, threshold, k) ==> replies[k].0.signature.Point?)
            && (outcome.Ok? ==>
                  exists shares :: CollectedShares(replies, threshold, shares) && ShareMap(r, shares)
                                && outcome.value == Aggregate(r, shares))
    ensures |QuorumIds(replies, threshold)| == QuorumSize(SignedCount(replies), threshold)
    ensures QuorumIds(replies, threshold) <= participants
  {
    var quorum := Quorum(Successes(replies), threshold);
    SuccessesCount(replies);
    QuorumIdsAre(replies, threshold);
    QuorumIdsSize(participants, replies, threshold);
    DistinctSuccesses(participants, replies);
    DecodableIff(replies, threshold);
    if AllDecodable(quorum) {
      SharesBounded(quorum);
      forall k | 0 <= k < |replies| && Collected(replies, threshold, k)
        ensures replies[k].1 in SharesOf(quorum) && replies[k].0.signature == Point(SharesOf(quorum)[replies[k].1])
      {
        CollectedShareAt(replies, threshold, k);
      }
      assert CollectedShares(replies, threshold, SharesOf(quorum));
    }
  }

  lemma DecodableIff(replies: seq<(Reply, u32)>, threshold: nat)
    ensures AllDecodable(Quorum(Successes(replies), threshold)) <==>
            forall k :: 0 <= k < |replies| && Collected(replies, threshold, k) ==> replies[k].0.signature.Point?
  {
    var quorum := Quorum(Successes(replies), threshold);
    SuccessesCount(replies);
    if AllDecodable(quorum) {
      forall k | 0 <= k < |replies| && Collected(replies, threshold, k)
        ensures replies[k].0.signature.Point?
      {
        SuccessAt(replies, k);
        assert quorum[SignedCount(replies[..k])].0.Point?;
      }
    }
    if forall k :: 0 <= k < |replies| && Collected(replies, threshold, k) ==> replies[k].0.signature.Point? {
      forall j | 0 <= j < |quorum|
        ensures quorum[j].0.Point?
      {
        var k := SuccessFrom(replies, j);
        assert Collected(replies, threshold, k);
      }
    }
  }

  /** Every signed reply is the participant's true partial signature. */
  ghost predicate HonestReplies(r: nat, f: seq<int>, msg: int, replies: seq<(Reply, u32)>)
    requires r > 0
  {
    forall k :: 0 <= k < |replies| && replies[k].0.Signed? ==>
                  replies[k].0.signature == Point(TrueShare(r, f, msg, replies[k].1))
  }

  /**
    With a sharing polynomial of at most threshold coefficients, the protocol
    returns the master signature as soon as threshold participants sign, for
    every arrival order and failure pattern, and an error otherwise.
   */
  lemma ProtocolReturnsMasterIff(r: nat, f: seq<int>, msg: int, participants: set<nat>, threshold: nat,
                                 replies: seq<(Reply, u32)>)
    requires GroupOrder(r) && OneReplyEach(participants, replies) && HonestReplies(r, f, msg, replies)
    requires threshold >= 1 && |f| <= threshold
    ensures Outcome(r, threshold, replies) ==
            if SignedCount(replies) >= threshold then Ok(TrueShare(r, f, msg, 0)) else Err(NotEnoughPartials)
  {
    OutcomeIff(r, participants, threshold, replies);
    if SignedCount(replies) >= threshold {
      var shares :| CollectedShares(replies, threshold, shares) && ShareMap(r, shares)
                 && Outcome(r, threshold, replies).value == Aggregate(r, shares);
      CollectedAreHonest(r, f, msg, threshold, replies, shares);
      assert |shares| == |shares.Keys|;
      QuorumRecoversMaster(r, f, msg, shares);
    }
  }

  lemma CollectedAreHonest(r: nat, f: seq<int>, msg: int, threshold: nat, replies: seq<(Reply, u32)>,
                           shares: map<nat, nat>)
    requires r > 0 && HonestReplies(r, f, msg, replies) && CollectedShares(replies, threshold, shares)
    ensures HonestShares(r, f, msg, shares)
  {
    forall i | i in shares
      ensures shares[i] == TrueShare(r, f, msg, i)
    {
      var k :| 0 <= k < |replies| && Collected(replies, threshold, k) && replies[k].1 == i;
    }
  }

  /** A threshold of zero, which nothing rejects, yields the identity point when every participant fails. */
  lemma ZeroThresholdSignsNothing(r: nat, replies: seq<(Reply, u32)>)
    requires GroupOrder(r) && SignedCount(replies) == 0
    ensures Outcome(r, 0, replies) == Ok(0)
  {
    SuccessesCount(replies);
    var none: map<nat, nat> := map[];
    assert none.Keys - none.Keys == none.Keys;
    ZeroSum(r, none);
  }

  /** With a threshold of zero the first success alone is returned as the signature. */
  lemma ZeroThresholdTakesFirst(r: nat, replies: seq<(Reply, u32)>, k: nat)
    requires GroupOrder(r) && Collected(replies, 0, k) && replies[k].0.signature.Point?
    ensures Outcome(r, 0, replies) == Ok(replies[k].0.signature.exponent % r)
  {
    SuccessAt(replies, k);
    var first := Successes(replies)[0];
    assert Quorum(Successes(replies), 0) == [first];
    SharesOfOne(first);
    SingleShare(r, SharesOf([first]), first.1);
  }

  /** The replies with every signature replaced by the true one of the participant that is filed there. */
  function Honestly(r: nat, f: seq<int>, msg: int, wide: Filing, replies: seq<(Reply, u32)>): seq<(Reply, u32)>
    requires r > 0 && OneReplyEach(wide.Keys, replies)
  {
    seq(|replies|, k requires 0 <= k < |replies| =>
      if replies[k].0.Signed? then (Signed(Point(TrueShare(r, f, msg, wide[replies[k].1]))), replies[k].1)
      else replies[k])
  }

  lemma {:induction false} HonestSuccesses(r: nat, f: seq<int>, msg: int, wide: Filing, replies: seq<(Reply, u32)>)
    requires r > 0 && OneReplyEach(wide.Keys, replies)
    ensures var honest, partials := Successes(Honestly(r, f, msg, wide, replies)), Successes(replies);
            && |honest| == |partials|
            && forall k :: 0 <= k < |partials| ==>
                 && partials[k].1 in wide
                 && honest[k] == (Point(TrueShare(r, f, msg, wide[partials[k].1])), partials[k].1)
  {
    if replies != [] {
      var n := |replies| - 1;
      HonestSuccesses(r, f, msg, wide, replies[..n]);
      SuccessesSnoc(replies);
      SuccessesSnoc(Honestly(r, f, msg, wide, replies));
      assert Honestly(r, f, msg, wide, replies)[..n] == Honestly(r, f, msg, wide, replies[..n]);
    }
  }

  /** The participants of the quorum, as they are filed. */
  function QuorumFiling(wide: Filing, replies: seq<(Reply, u32)>, threshold: nat): Filing {
    map i | i in QuorumIds(replies, threshold) && i in wide :: wide[i]
  }

  lemma HonestShareAt(r: nat, f: seq<int>, msg: int, wide: Filing, honest: seq<Partial>, i: nat)
    requires r > 0 && DistinctIds(honest) && AllDecodable(honest) && i in IdSet(honest) && i in wide
    requires forall k :: 0 <= k < |honest| ==>
               honest[k].1 in wide && honest[k].0 == Point(TrueShare(r, f, msg, wide[honest[k].1]))
    ensures i in SharesOf(honest) && SharesOf(honest)[i] == TrueShare(r, f, msg, wide[i])
  {
    SharesAreThePartials(honest);
    var k :| 0 <= k < |honest| && honest[k].1 == i;
  }

  /** Honest partials of distinct participants are the true shares of these participants. */
  lemma HonestShareMap(r: nat, f: seq<int>, msg: int, wide: Filing, honest: seq<Partial>)
    requires r > 0 && DistinctIds(honest) && AllDecodable(honest) && IdSet(honest) == wide.Keys
    requires forall k :: 0 <= k < |honest| ==>
               honest[k].1 in wide && honest[k].0 == Point(TrueShare(r, f, msg, wide[honest[k].1]))
    ensures SharesOf(honest) == RealShares(r, f, msg, wide)
  {
    SharesBounded(honest);
    assert SharesOf(honest).Keys == wide.Keys;
    forall i | i in wide
      ensures SharesOf(honest)[i] == TrueShare(r, f, msg, wide[i])
    {
      HonestShareAt(r, f, msg, wide, honest, i);
    }
  }

  lemma QuorumIsFiled(r: nat, wide: Filing, replies: seq<(Reply, u32)>, threshold: nat)
    requires Filed(r, wide) && OneReplyEach(wide.Keys, replies)
    ensures Filed(r, QuorumFiling(wide, replies, threshold))
    ensures QuorumFiling(wide, replies, threshold).Keys == QuorumIds(replies, threshold)
  {
    QuorumIdsSize(wide.Keys, replies, threshold);
  }

  /** The honest partials of the quorum, one by one. */
  lemma HonestPartials(r: nat, f: seq<int>, msg: int, wide: Filing, threshold: nat, replies: seq<(Reply, u32)>)
    requires Filed(r, wide) && OneReplyEach(wide.Keys, replies)
    ensures var honest := Quorum(Successes(Honestly(r, f, msg, wide, replies)), threshold);
            var quorum := Quorum(Successes(replies), threshold);
            && |honest| == |quorum|
            && forall k :: 0 <= k < |quorum| ==>
                 && quorum[k].1 in wide
                 && honest[k] == (Point(TrueShare(r, f, msg, wide[quorum[k].1])), quorum[k].1)
  {
    HonestSuccesses(r, f, msg, wide, replies);
  }

  lemma HonestQuorum(r: nat, f: seq<int>, msg: int, wide: Filing, threshold: nat, replies: seq<(Reply, u32)>)
    requires Filed(r, wide) && OneReplyEach(wide.Keys, replies)
    ensures var honest := Quorum(Successes(Honestly(r, f, msg, wide, replies)), threshold);
            && |honest| == QuorumSize(SignedCount(replies), threshold) && AllDecodable(honest)
            && SharesOf(honest) == RealShares(r, f, msg, QuorumFiling(wide, replies, threshold))
  {
    var quorum := Quorum(Successes(replies), threshold);
    var honest := Quorum(Successes(Honestly(r, f, msg, wide, replies)), threshold);
    HonestPartials(r, f, msg, wide, threshold, replies);
    DistinctSuccesses(wide.Keys, replies);
    QuorumIsFiled(r, wide, replies, threshold);
    QuorumIdsAre(replies, threshold);
    assert IdSet(honest) == IdSet(quorum);
    HonestShareMap(r, f, msg, QuorumFiling(wide, replies, threshold), honest);
  }

  lemma HonestOutcome(r: nat, f: seq<int>, msg: int, wide: Filing, threshold: nat, replies: seq<(Reply, u32)>)
    requires Filed(r, wide) && OneReplyEach(wide.Keys, replies) && Filed(r, QuorumFiling(wide, replies, threshold))
    ensures Outcome(r, threshold, Honestly(r, f, msg, wide, replies)) ==
            if SignedCount(replies) < threshold then Err(NotEnoughPartials)
            else Ok(Aggregate(r, RealShares(r, f, msg, QuorumFiling(wide, replies, threshold))))
  {
    HonestQuorum(r, f, msg, wide, threshold, replies);
    HonestSuccesses(r, f, msg, wide, replies);
    SuccessesCount(replies);
  }

  /** For this pattern of arrivals and failures, every polynomial of at most d coefficients is signed for. */
  ghost predicate SignsEvery(r: nat, wide: Filing, threshold: nat, replies: seq<(Reply, u32)>, d: nat)
    requires GroupOrder(r) && OneReplyEach(wide.Keys, replies)
  {
    forall f, msg :: |f| <= d ==>
      Outcome(r, threshold, Honestly(r, f, msg, wide, replies)) == Ok(TrueShare(r, f, msg, 0))
  }

  /** Signing is enough successes, and a quorum that recovers. */
  lemma SignsEveryIff(r: nat, wide: Filing, threshold: nat, replies: seq<(Reply, u32)>, d: nat)
    requires Filed(r, wide) && OneReplyEach(wide.Keys, replies)
    ensures Filed(r, QuorumFiling(wide, replies, threshold))
    ensures SignsEvery(r, wide, threshold, replies, d) <==>
            SignedCount(replies) >= threshold && RecoversEvery(r, QuorumFiling(wide, replies, threshold), d)
  {
    var quorum := QuorumFiling(wide, replies, threshold);
    QuorumIsFiled(r, wide, replies, threshold);
    forall f, msg
      ensures Outcome(r, threshold, Honestly(r, f, msg, wide, replies)) ==
              if SignedCount(replies) < threshold then Err(NotEnoughPartials)
              else Ok(Aggregate(r, RealShares(r, f, msg, quorum)))
    {
      HonestOutcome(r, f, msg, wide, threshold, replies);
    }
    if SignedCount(replies) < threshold {
      var none: seq<int> := [];
      assert |none| <= d && Outcome(r, threshold, Honestly(r, none, 0, wide, replies)).Err?;
    }
  }

  /**
    Honest participants, however they are filed, in any pattern of arrivals and
    failures, yield the master signature for every polynomial of at most d
    coefficients exactly when threshold of them succeed and the weights of the
    quorum get the first d powers of the real identifiers right.
   */
  lemma ProtocolSignsIff(r: nat, wide: Filing, threshold: nat, replies: seq<(Reply, u32)>, d: nat)
    requires Filed(r, wide) && OneReplyEach(wide.Keys, replies)
    ensures Filed(r, QuorumFiling(wide, replies, threshold))
    ensures SignsEvery(r, wide, threshold, replies, d) <==>
            && SignedCount(replies) >= threshold
            && forall j: nat :: j < d ==> RightMoment(r, QuorumFiling(wide, replies, threshold), j)
  {
    SignsEveryIff(r, wide, threshold, replies, d);
    MomentsIff(r, QuorumFiling(wide, replies, threshold), d);
  }

  lemma QuorumFilingSize(r: nat, wide: Filing, replies: seq<(Reply, u32)>, threshold: nat)
    requires Filed(r, wide) && OneReplyEach(wide.Keys, replies)
    ensures |QuorumFiling(wide, replies, threshold)| == QuorumSize(SignedCount(replies), threshold)
  {
    var quorum := QuorumFiling(wide, replies, threshold);
    QuorumIsFiled(r, wide, replies, threshold);
    QuorumIdsSize(wide.Keys, replies, threshold);
    assert |quorum| == |quorum.Keys|;
  }

  /** For polynomials of exactly the size of the quorum: each of its members must have the right weight. */
  lemma QuorumWeightsIff(r: nat, wide: Filing, threshold: nat, replies: seq<(Reply, u32)>)
    requires Filed(r, wide) && OneReplyEach(wide.Keys, replies)
    ensures Filed(r, QuorumFiling(wide, replies, threshold))
    ensures SignsEvery(r, wide, threshold, replies, QuorumSize(SignedCount(replies), threshold)) <==>
            && SignedCount(replies) >= threshold
            && var quorum := QuorumFiling(wide, replies, threshold);
               forall i :: i in quorum ==> RightWeight(r, quorum, i)
  {
    QuorumFilingSize(r, wide, replies, threshold);
    SignsEveryIff(r, wide, threshold, replies, QuorumSize(SignedCount(replies), threshold));
    TruncatedQuorumIff(r, QuorumFiling(wide, replies, threshold));
  }

  /**
    With nonzero identifiers of which none is truncated: every polynomial of at
    most d coefficients is signed for exactly when threshold participants succeed
    and at least d partials, max(threshold, 1) at most, are collected. A threshold
    of zero thus serves polynomials of one coefficient only.
   */
  lemma ThresholdSufficesIff(r: nat, participants: set<nat>, threshold: nat, replies: seq<(Reply, u32)>, d: nat)
    requires GroupOrder(r) && (forall i :: i in participants ==> 0 < i < U32) && OneReplyEach(participants, replies)
    ensures OneReplyEach(Untruncated(participants).Keys, replies)
    ensures SignsEvery(r, Untruncated(participants), threshold, replies, d) <==>
            SignedCount(replies) >= threshold && d <= QuorumSize(SignedCount(replies), threshold)
  {
    var wide, ids := Untruncated(participants), QuorumIds(replies, threshold);
    assert wide.Keys == participants;
    SignsEveryIff(r, wide, threshold, replies, d);
    QuorumIsFiled(r, wide, replies, threshold);
    assert QuorumFiling(wide, replies, threshold) == Untruncated(ids);
    QuorumIdsSize(participants, replies, threshold);
    RecoversEveryIff(r, ids, d);
  }
}
