/** The extra validation of a header against its parent, and what it bounds along a chain. */
module GasLimit {
  const ADJUSTMENT_FACTOR: nat := 1024
  const MINIMUM: nat := 5_000

  datatype Block = Block(number: nat, gasLimit: nat)

  /** `check_gas_limit`, on 64-bit values whose sum does not overflow. */
  predicate CheckGasLimit(gasLimit: nat, parentGasLimit: nat) {
    var maxDelta := parentGasLimit / ADJUSTMENT_FACTOR;
    if gasLimit >= parentGasLimit + maxDelta then false
    else if gasLimit <= parentGasLimit - maxDelta then false
    else if gasLimit < MINIMUM then false
    else true
  }

  /** Accepted is exactly a limit of at least 5000 that is less than a whole 1024th of its parent's away from it. */
  lemma GasLimitIff(gasLimit: nat, parentGasLimit: nat)
    ensures var distance := if gasLimit >= parentGasLimit then gasLimit - parentGasLimit else parentGasLimit - gasLimit;
            CheckGasLimit(gasLimit, parentGasLimit) <==> gasLimit >= 5000 && 1024 * (distance + 1) <= parentGasLimit
  {
  }

  /** `extra_validation` accepts the header. */
  predicate ExtraValid(parent: Block, header: Block) {
    header.number == parent.number + 1 && CheckGasLimit(header.gasLimit, parent.gasLimit)
  }

  /** Each block of the chain was accepted on top of the one before. */
  predicate AcceptedChain(blocks: seq<Block>) {
    forall k :: 0 <= k < |blocks| - 1 ==> ExtraValid(blocks[k], blocks[k + 1])
  }

  function Pow(base: nat, n: nat): nat {
    if n == 0 then 1 else base * Pow(base, n - 1)
  }

  lemma {:induction false} PowPositive(base: nat, n: nat)
    requires base > 0
    ensures Pow(base, n) > 0
  {
    if n > 0 {
      PowPositive(base, n - 1);
    }
  }

  lemma StepBounds(g: nat, g': nat)
    requires CheckGasLimit(g', g)
    ensures 1023 * g < 1024 * g' < 1025 * g
  {
  }

  lemma BoundStep(low: nat, mid: nat, high: nat, g0: nat, g: nat, g': nat)
    requires low * g0 <= mid * g <= high * g0 && 1023 * g < 1024 * g' < 1025 * g && mid > 0
    ensures (1023 * low) * g0 < (1024 * mid) * g' < (1025 * high) * g0
  {
    assert mid * (1023 * g) < mid * (1024 * g') < mid * (1025 * g) by {
      Scale(mid, 1023 * g, 1024 * g');
      Scale(mid, 1024 * g', 1025 * g);
    }
    assert mid * (1024 * g') == (1024 * mid) * g';
    assert (1023 * low) * g0 == 1023 * (low * g0);
    assert (1025 * high) * g0 == 1025 * (high * g0);
    assert mid * (1023 * g) == 1023 * (mid * g);
    assert mid * (1025 * g) == 1025 * (mid * g);
  }

  lemma {:induction false} Scale(m: nat, a: int, b: int)
    requires m > 0 && a < b
    ensures m * a < m * b
  {
    if m > 1 {
      Scale(m - 1, a, b);
      assert m * a == (m - 1) * a + a;
      assert m * b == (m - 1) * b + b;
    }
  }

  /**
    Over a chain of n accepted headers the number grows by n, every accepted
    limit is at least the minimum, and the limit drifts by less than a factor of
    1023/1024 or 1025/1024 per block.
   */
  lemma {:induction false} GasLimitAlongChain(blocks: seq<Block>)
    requires |blocks| >= 2 && AcceptedChain(blocks)
    ensures var n := |blocks| - 1;
            && blocks[n].number == blocks[0].number + n
            && (forall k :: 1 <= k <= n ==> blocks[k].gasLimit >= MINIMUM)
            && Pow(1023, n) * blocks[0].gasLimit < Pow(1024, n) * blocks[n].gasLimit < Pow(1025, n) * blocks[0].gasLimit
  {
    var n := |blocks| - 1;
    assert ExtraValid(blocks[n - 1], blocks[n]);
    StepBounds(blocks[n - 1].gasLimit, blocks[n].gasLimit);
    if n == 1 {
      BoundStep(1, 1, 1, blocks[0].gasLimit, blocks[0].gasLimit, blocks[1].gasLimit);
    } else {
      GasLimitAlongChain(blocks[..n]);
      PowPositive(1024, n - 1);
      BoundStep(Pow(1023, n - 1), Pow(1024, n - 1), Pow(1025, n - 1),
                blocks[0].gasLimit, blocks[n - 1].gasLimit, blocks[n].gasLimit);
    }
  }
}
