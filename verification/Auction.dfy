/**
  The header auction: validation of one reply, the pick among the repeated
  requests to a relay, and the best bid over all relays.
 */
module Auction {
  import opened Wrappers
  import opened PbsErrors
  import opened GasLimit
  import HeaderTiming

  /** The fields of a signed header that validation reads; the signature by whether it verifies for its key. */
  datatype Header = Header(blockHash: nat, parentHash: nat, txRoot: nat, value: nat, timestamp: nat,
                           relayKey: nat, signatureVerifies: bool, block: Block)

  /** What the caller and the configuration expect of a header. */
  datatype Context = Context(parentHash: nat, slotTimestamp: nat, minBid: nat, skipSigverify: bool,
                             extraValidation: bool)

  /** The root of an empty transactions list. */
  const EMPTY_TX_ROOT: nat := 0x7ffe241ea60187fdb0187bfa22de35d1f9bed7ab061d9401fd47e34a54fbede1

  /** How a header request ends; an answer comes with the parent block as far as it is known by then. */
  datatype Reply =
    | NotAnswered(error: PbsError)
    | ErrorStatus(code: nat)
    | NoContent
    | Undecodable
    | Answered(header: Header, parent: Option<Block>)

  /** `validate_header_data`: the first check that fails. */
  function ValidateHeaderData(h: Header, ctx: Context): Option<string> {
    if h.blockHash == 0 then Some("empty blockhash")
    else if h.parentHash != ctx.parentHash then Some("parent hash mismatch")
    else if h.txRoot == EMPTY_TX_ROOT then Some("empty tx root")
    else if h.value < ctx.minBid then Some("bid below minimum")
    else if h.timestamp != ctx.slotTimestamp then Some("wrong timestamp")
    else None
  }

  /** `validate_signature`. */
  function ValidateSignature(h: Header, relayKey: nat): Option<string> {
    if h.relayKey != relayKey then Some("pubkey mismatch")
    else if !h.signatureVerifies then Some("failed signature verification")
    else None
  }

  /** What a relay's reply to one request is worth. */
  function ProcessReply(ctx: Context, relayKey: nat, reply: Reply): Result<Option<Header>, PbsError> {
    match reply
    case NotAnswered(error) => Err(error)
    case ErrorStatus(code) => Err(RelayResponse(code))
    case NoContent => Ok(None)
    case Undecodable => Err(OtherError)
    case Answered(h, parent) =>
      if ValidateHeaderData(h, ctx).Some? then Err(OtherError)
      else if !ctx.skipSigverify && ValidateSignature(h, relayKey).Some? then Err(OtherError)
      else if ctx.extraValidation && parent.Some? && !ExtraValid(parent.value, h.block) then Err(OtherError)
      else Ok(Some(h))
  }

  /** An acceptable header, with no order among its conditions. */
  predicate Acceptable(ctx: Context, relayKey: nat, h: Header, parent: Option<Block>) {
    && h.blockHash != 0 && h.txRoot != EMPTY_TX_ROOT
    && h.parentHash == ctx.parentHash && h.timestamp == ctx.slotTimestamp && h.value >= ctx.minBid
    && (ctx.skipSigverify || (h.relayKey == relayKey && h.signatureVerifies))
    && (ctx.extraValidation && parent.Some? ==> ExtraValid(parent.value, h.block))
  }

  /** A request of a relay, by its start time. */
  datatype Request = Request(startTime: nat, reply: Reply)

  /** A relay and its requests: a single one, or several of a timing game. */
  datatype Relay = Relay(key: nat, repeated: bool, requests: seq<Request>)

  predicate Yields(ctx: Context, relay: Relay, k: nat)
    requires k < |relay.requests|
  {
    var reply := relay.requests[k].reply;
    reply.Answered? && Acceptable(ctx, relay.key, reply.header, reply.parent)
  }

  lemma AcceptedIff(ctx: Context, relay: Relay, k: nat)
    requires k < |relay.requests|
    ensures var res := ProcessReply(ctx, relay.key, relay.requests[k].reply);
            (res.Ok? && res.value.Some? <==> Yields(ctx, relay, k)) &&
            (Yields(ctx, relay, k) ==> res.value.value == relay.requests[k].reply.header)
  {
  }

  /** Request k is the relay's latest one that yields a header, the last of several started together. */
  ghost predicate LatestYield(ctx: Context, relay: Relay, k: nat) {
    && k < |relay.requests| && Yields(ctx, relay, k)
    && forall j :: 0 <= j < |relay.requests| && Yields(ctx, relay, j) ==>
         && relay.requests[j].startTime <= relay.requests[k].startTime
         && (j > k ==> relay.requests[j].startTime < relay.requests[k].startTime)
  }

  /** What a relay's requests come to: the header of the latest that yields one, or nothing. */
  ghost predicate IsPick(ctx: Context, relay: Relay, pick: Option<Header>) {
    match pick
    case Some(h) => exists k: nat :: LatestYield(ctx, relay, k) && h == relay.requests[k].reply.header
    case None => forall k: nat :: k < |relay.requests| ==> !Yields(ctx, relay, k)
  }

  /** The header of a relay: of its only request, or of the latest that succeeded. */
  method RelayHeader(ctx: Context, relay: Relay) returns (pick: Option<Header>)
    requires !relay.repeated ==> |relay.requests| == 1
    ensures IsPick(ctx, relay, pick)
  {
    if !relay.repeated {
      AcceptedIff(ctx, relay, 0);
      var res := ProcessReply(ctx, relay.key, relay.requests[0].reply);
      pick := if res.Ok? then res.value else None;
      assert pick.Some? ==> LatestYield(ctx, relay, 0);
      return;
    }
    pick := None;
    var best := 0;
    ghost var at: nat := 0;
    for k := 0 to |relay.requests|
      invariant pick.None? ==> forall j: nat :: j < k ==> !Yields(ctx, relay, j)
      invariant pick.Some? ==>
                  && at < k && Yields(ctx, relay, at) && pick.value == relay.requests[at].reply.header
                  && best == relay.requests[at].startTime
                  && forall j: nat :: j < k && Yields(ctx, relay, j) ==>
                       relay.requests[j].startTime <= best && (j > at ==> relay.requests[j].startTime < best)
    {
      AcceptedIff(ctx, relay, k);
      var res := ProcessReply(ctx, relay.key, relay.requests[k].reply);
      if res.Ok? && res.value.Some? && (pick.None? || best <= relay.requests[k].startTime) {
        pick, best, at := res.value, relay.requests[k].startTime, k;
      }
    }
    assert pick.Some? ==> LatestYield(ctx, relay, at);
  }

  /** A relay has only one pick, whatever way it is found. */
  lemma PickIsUnique(ctx: Context, relay: Relay, p: Option<Header>, q: Option<Header>)
    requires IsPick(ctx, relay, p) && IsPick(ctx, relay, q)
    ensures p == q
  {
    PickedIff(ctx, relay, p);
    PickedIff(ctx, relay, q);
    if p.Some? && q.Some? {
      var k: nat :| LatestYield(ctx, relay, k) && p.value == relay.requests[k].reply.header;
      var l: nat :| LatestYield(ctx, relay, l) && q.value == relay.requests[l].reply.header;
      SameLatest(ctx, relay, k, l);
    }
  }

  /** Some request of the relay yields a header. */
  ghost predicate HasYield(ctx: Context, relay: Relay) {
    exists k: nat :: k < |relay.requests| && Yields(ctx, relay, k)
  }

  /** There is a pick exactly if some request yields a header. */
  lemma PickedIff(ctx: Context, relay: Relay, pick: Option<Header>)
    requires IsPick(ctx, relay, pick)
    ensures pick.Some? <==> HasYield(ctx, relay)
  {
  }

  lemma SameLatest(ctx: Context, relay: Relay, k: nat, l: nat)
    requires LatestYield(ctx, relay, k) && LatestYield(ctx, relay, l)
    ensures k == l
  {
  }

  /** Index w holds a greatest value, and the last one of it. */
  ghost predicate LastGreatest(picks: seq<Option<Header>>, w: nat) {
    && w < |picks| && picks[w].Some?
    && forall i :: 0 <= i < |picks| && picks[i].Some? ==>
         picks[i].value.value <= picks[w].value.value && (i > w ==> picks[i].value.value < picks[w].value.value)
  }

  /** The bid of greatest value; among equals the last. */
  method BestBid(picks: seq<Option<Header>>) returns (bid: Option<Header>, ghost winner: nat)
    ensures bid.None? <==> forall i :: 0 <= i < |picks| ==> picks[i].None?
    ensures bid.Some? ==> LastGreatest(picks, winner) && bid == picks[winner]
  {
    bid, winner := None, 0;
    for i := 0 to |picks|
      invariant bid.None? <==> forall j :: 0 <= j < i ==> picks[j].None?
      invariant bid.Some? ==> LastGreatest(picks[..i], winner) && bid == picks[winner]
    {
      if picks[i].Some? && (bid.None? || bid.value.value <= picks[i].value.value) {
        bid, winner := picks[i], i;
      }
    }
    assert picks[..|picks|] == picks;
  }

  /**
    `get_header`: a bid is returned exactly when the slot is not late and some
    relay has an acceptable header. It is the pick of one relay, no relay's pick
    is worth more, and among equals the last relay wins.
   */
  method GetHeader(ctx: Context, timeoutMs: nat, lateInSlotMs: nat, msIntoSlot: nat, relays: seq<Relay>)
    returns (bid: Option<Header>, ghost picks: seq<Option<Header>>, ghost winner: nat)
    requires forall i :: 0 <= i < |relays| && !relays[i].repeated ==> |relays[i].requests| == 1
    ensures bid.Some? <==>
              timeoutMs > 0 && msIntoSlot < lateInSlotMs && exists i :: 0 <= i < |relays| && HasYield(ctx, relays[i])
    ensures bid.Some? ==>
              && |picks| == |relays| && (forall i :: 0 <= i < |relays| ==> IsPick(ctx, relays[i], picks[i]))
              && LastGreatest(picks, winner) && bid == picks[winner]
  {
    if HeaderTiming.MaxTimeout(timeoutMs, lateInSlotMs, msIntoSlot) == 0 {
      return None, [], 0;
    }
    var results: seq<Option<Header>> := [];
    for i := 0 to |relays|
      invariant |results| == i
      invariant forall j :: 0 <= j < i ==>
                  IsPick(ctx, relays[j], results[j]) && (results[j].Some? <==> HasYield(ctx, relays[j]))
    {
      var pick := RelayHeader(ctx, relays[i]);
      PickedIff(ctx, relays[i], pick);
      results := results + [pick];
    }
    picks := results;
    bid, winner := BestBid(results);
  }

  /** A pick has passed every check, against the parent block its request saw. */
  lemma PickIsAcceptable(ctx: Context, relay: Relay, h: Header)
    requires IsPick(ctx, relay, Some(h))
    ensures exists k: nat :: k < |relay.requests| && relay.requests[k].reply.Answered? &&
              relay.requests[k].reply.header == h && Acceptable(ctx, relay.key, h, relay.requests[k].reply.parent)
  {
    var k: nat :| LatestYield(ctx, relay, k) && h == relay.requests[k].reply.header;
    assert Yields(ctx, relay, k);
  }
}
