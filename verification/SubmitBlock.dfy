/** Submitting a signed blinded block to all relays and taking the first good answer. */
module SubmitBlock {
  import opened Wrappers
  import opened PbsErrors
  import opened Retry

  datatype ApiVersion = V1 | V2

  /** What the answer is checked against. */
  datatype BlindedBlock = BlindedBlock(blockHash: nat, commitments: seq<nat>)

  datatype Payload = Payload(blockHash: nat, blobs: seq<nat>, commitments: seq<nat>, proofs: seq<nat>)

  datatype Reply = NotAnswered(error: PbsError) | ErrorStatus(code: nat) | Undecodable | Answered(payload: Payload)

  /** The blobs of the payload are the committed ones: equally many of each part, and equal commitments. */
  predicate BlobsMatch(block: BlindedBlock, payload: Payload) {
    |block.commitments| == |payload.blobs| == |payload.proofs| && block.commitments == payload.commitments
  }

  /** `validate_unblinded_block_electra`, with the place of the first mismatch. */
  method ValidateUnblindedBlock(block: BlindedBlock, payload: Payload) returns (ok: bool, mismatch: Option<nat>)
    ensures ok <==> BlobsMatch(block, payload)
    ensures mismatch.Some? <==>
            !ok && |block.commitments| == |payload.blobs| == |payload.commitments| == |payload.proofs|
    ensures mismatch.Some? ==>
              && mismatch.value < |block.commitments| == |payload.commitments|
              && block.commitments[mismatch.value] != payload.commitments[mismatch.value]
              && block.commitments[..mismatch.value] == payload.commitments[..mismatch.value]
  {
    var n := |block.commitments|;
    if n != |payload.blobs| || n != |payload.commitments| || n != |payload.proofs| {
      return false, None;
    }
    for i := 0 to n
      invariant block.commitments[..i] == payload.commitments[..i]
    {
      if block.commitments[i] != payload.commitments[i] {
        return false, Some(i);
      }
    }
    assert block.commitments[..n] == block.commitments && payload.commitments[..n] == payload.commitments;
    return true, None;
  }

  /** A payload that may be returned; a version 2 answer carries none to check. */
  predicate Good(block: BlindedBlock, version: ApiVersion, payload: Payload) {
    version.V1? ==> payload.blockHash == block.blockHash && BlobsMatch(block, payload)
  }

  /** A request ends well. */
  predicate Succeeds(block: BlindedBlock, version: ApiVersion, reply: Reply) {
    (reply.Answered? && Good(block, version, reply.payload)) || (version.V2? && reply.Undecodable?)
  }

  /** What one request comes to. */
  function Outcome(block: BlindedBlock, version: ApiVersion, reply: Reply): Result<Option<Payload>, PbsError> {
    if Succeeds(block, version, reply) then Ok(if version.V1? then Some(reply.payload) else None)
    else
      match reply
      case NotAnswered(error) => Err(error)
      case ErrorStatus(code) => Err(RelayResponse(code))
      case _ => Err(OtherError)
  }

  /** `send_submit_block`: what one request to a relay comes to. */
  method SendSubmitBlock(block: BlindedBlock, version: ApiVersion, reply: Reply)
    returns (res: Result<Option<Payload>, PbsError>)
    ensures res == Outcome(block, version, reply)
  {
    match reply {
      case NotAnswered(error) => return Err(error);
      case ErrorStatus(code) => return Err(RelayResponse(code));
      case _ =>
    }
    if version != V1 {
      return Ok(None);
    }
    if reply.Undecodable? {
      return Err(OtherError);
    }
    if block.blockHash != reply.payload.blockHash {
      return Err(OtherError);
    }
    var ok, _ := ValidateUnblindedBlock(block, reply.payload);
    if !ok {
      return Err(OtherError);
    }
    return Ok(Some(reply.payload));
  }

  /** How a relay and the timer behave over the attempts of a task. */
  datatype Exchange = Exchange(reply: Reply, latencyMs: nat, oversleptMs: nat)

  type Relay = nat -> Exchange

  /** The relay as the retry loop sees it. */
  function Attempts(block: BlindedBlock, version: ApiVersion, relay: Relay): Environment<Option<Payload>> {
    (k: nat) => Attempt(Outcome(block, version, relay(k).reply), relay(k).latencyMs, relay(k).oversleptMs)
  }

  /** A reply after which the request is made again: none in time, no connection, or a status from 500 to 508. */
  predicate Retried(reply: Reply) {
    match reply
    case NotAnswered(Reqwest(timedOut, connectFailed)) => timedOut || connectFailed
    case NotAnswered(RelayResponse(code)) => 500 <= code <= 508
    case ErrorStatus(code) => 500 <= code <= 508
    case _ => false
  }

  /** The request is made again after attempt j: its reply asks for it, and a sleep of 250(j + 1) ms leaves time. */
  predicate Again(timeoutMs: nat, relay: Relay, j: nat) {
    Retried(relay(j).reply) && relay(j).latencyMs + 250 * (j + 1) + relay(j).oversleptMs < timeoutMs
  }

  /** Attempt k of the task is reached and succeeds. */
  ghost predicate SucceedsAt(block: BlindedBlock, version: ApiVersion, timeoutMs: nat, relay: Relay, k: nat) {
    Succeeds(block, version, relay(k).reply) && forall j :: 0 <= j < k ==> Again(timeoutMs, relay, j)
  }

  lemma AgainIff(block: BlindedBlock, version: ApiVersion, timeoutMs: nat, relay: Relay, j: nat)
    ensures GoesOn(timeoutMs, None, Attempts(block, version, relay), j) <==> Again(timeoutMs, relay, j)
  {
  }

  ghost predicate TaskSucceeds(block: BlindedBlock, version: ApiVersion, timeoutMs: nat, relay: Relay) {
    exists k: nat :: SucceedsAt(block, version, timeoutMs, relay, k)
  }

  /** One relay's task: it succeeds exactly if some attempt that is reached does, with what that attempt brought. */
  method SubmitToRelay(block: BlindedBlock, version: ApiVersion, timeoutMs: nat, relay: Relay)
    returns (res: Result<Option<Payload>, PbsError>)
    ensures res.Ok? <==> TaskSucceeds(block, version, timeoutMs, relay)
    ensures res.Ok? ==> exists k: nat :: SucceedsAt(block, version, timeoutMs, relay, k)
                                      && res == Outcome(block, version, relay(k).reply)
  {
    var env := Attempts(block, version, relay);
    var timeouts;
    res, timeouts := SubmitWithTimeout(timeoutMs, env);
    ghost var last := |timeouts| - 1;
    forall j | 0 <= j < last
      ensures Again(timeoutMs, relay, j)
    {
      AgainIff(block, version, timeoutMs, relay, j);
    }
    if res.Ok? {
      assert SucceedsAt(block, version, timeoutMs, relay, last);
    } else {
      forall k: nat
        ensures !SucceedsAt(block, version, timeoutMs, relay, k)
      {
        NoSuccessAfterFailure(block, version, timeoutMs, relay, last, k);
      }
    }
  }

  lemma NoSuccessAfterFailure(block: BlindedBlock, version: ApiVersion, timeoutMs: nat, relay: Relay, last: nat, k: nat)
    requires EndsAfter(timeoutMs, None, Attempts(block, version, relay), last + 1)
    requires !Succeeds(block, version, relay(last).reply)
    ensures !SucceedsAt(block, version, timeoutMs, relay, k)
  {
    if k < last {
      assert GoesOn(timeoutMs, None, Attempts(block, version, relay), k);
      AgainIff(block, version, timeoutMs, relay, k);
    } else if k > last {
      AgainIff(block, version, timeoutMs, relay, last);
    }
  }

  /**
    `submit_block` over the relays in the order their tasks end, each with its
    retries: the first success wins, a version 1 answer carries exactly the
    signed block's payload, and an error means that every task has failed.
   */
  method SubmitToAll(block: BlindedBlock, version: ApiVersion, timeoutMs: nat, relays: seq<Relay>)
    returns (res: Result<Option<Payload>, PbsError>)
    requires |relays| > 0
    ensures res.Err? <==> forall i :: 0 <= i < |relays| ==> !TaskSucceeds(block, version, timeoutMs, relays[i])
    ensures res.Ok? ==> exists i, k: nat :: 0 <= i < |relays| && SucceedsAt(block, version, timeoutMs, relays[i], k)
                                 && (forall j :: 0 <= j < i ==> !TaskSucceeds(block, version, timeoutMs, relays[j]))
                                 && res == Outcome(block, version, relays[i](k).reply)
    ensures res.Ok? && version.V2? ==> res.value == None
    ensures res.Ok? && version.V1? ==>
              res.value.Some? && res.value.value.blockHash == block.blockHash && BlobsMatch(block, res.value.value)
  {
    res := Err(OtherError);
    for i := 0 to |relays|
      invariant res.Err? && forall j :: 0 <= j < i ==> !TaskSucceeds(block, version, timeoutMs, relays[j])
    {
      res := SubmitToRelay(block, version, timeoutMs, relays[i]);
      if res.Ok? {
        return;
      }
    }
  }
}
