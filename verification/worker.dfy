/**
 The worker tasks (`check_block` in src/main.rs) and what all of them send
 together: each task filters its block's candidates through trial division
 against the shared seed primes and sends every survivor.
 */
module Worker {
  import opened Arith
  import opened Seqs
  import opened TrialDivision
  import opened Partition

  /** `check_block`: the candidates that pass trial division, in the order they were given. */
  function CheckBlock(primes: seq<nat>, cands: seq<nat>): (r: seq<nat>)
    requires Positive(primes)
    ensures forall x :: x in r <==> x in cands && IsPrime(x, primes)
    ensures StrictlyAscending(cands) ==> StrictlyAscending(r)
    ensures |r| <= |cands|
    decreases |cands|
  {
    if |cands| == 0 then []
    else
      var rest := CheckBlock(primes, cands[1..]);
      if IsPrime(cands[0], primes) then
        assert StrictlyAscending(cands) ==> StrictlyAscending([cands[0]] + rest) by {
          if StrictlyAscending(cands) {
            forall y | y in rest
              ensures cands[0] < y
            {
              var k :| 1 <= k < |cands| && cands[k] == y;
            }
            AppendAscending([cands[0]], rest);
          }
        }
        [cands[0]] + rest
      else
        rest
  }

  /** The values sent for one block. */
  function BlockOutput(primes: seq<nat>, b: Block): seq<nat>
    requires Positive(primes)
  {
    CheckBlock(primes, Candidates(b))
  }

  /** A block's output lies inside the block and is ascending. */
  lemma BlockOutputBounds(primes: seq<nat>, b: Block)
    requires Positive(primes)
    ensures StrictlyAscending(BlockOutput(primes, b))
    ensures forall x :: x in BlockOutput(primes, b) ==> b.low <= x < b.hi
  {
  }

  /** The output of each block, in submission order. */
  function Outputs(primes: seq<nat>, blocks: seq<Block>): (r: seq<seq<nat>>)
    requires Positive(primes)
    ensures |r| == |blocks|
    ensures forall k :: 0 <= k < |blocks| ==> r[k] == BlockOutput(primes, blocks[k])
    decreases |blocks|
  {
    if |blocks| == 0 then []
    else Outputs(primes, blocks[..|blocks| - 1]) + [BlockOutput(primes, blocks[|blocks| - 1])]
  }

  /**
   Everything the worker tasks send, block after block in submission order.
   The channel delivers these values in some interleaving; only their multiset
   matters to the collector.
   */
  function SendAll(primes: seq<nat>, blocks: seq<Block>): seq<nat>
    requires Positive(primes)
  {
    Concat(Outputs(primes, blocks))
  }

  /** A value sent for some block was one of that block's candidates and passed trial division. */
  lemma SentFromBlock(primes: seq<nat>, blocks: seq<Block>, x: nat) returns (k: nat)
    requires Positive(primes) && x in SendAll(primes, blocks)
    ensures k < |blocks| && x in Candidates(blocks[k]) && IsPrime(x, primes)
  {
    var outs := Outputs(primes, blocks);
    k :| 0 <= k < |outs| && x in outs[k];
    assert outs[k] == BlockOutput(primes, blocks[k]);
  }

  /** Every candidate of a sent block that passes trial division is sent. */
  lemma BlockPrimeSent(primes: seq<nat>, blocks: seq<Block>, k: nat, x: nat)
    requires Positive(primes) && k < |blocks|
    requires x in Candidates(blocks[k]) && IsPrime(x, primes)
    ensures x in SendAll(primes, blocks)
  {
    var outs := Outputs(primes, blocks);
    assert x in outs[k];
    assert InSome(outs, x);
  }

  /** Every block ends no later than any later block starts. */
  predicate Ordered(blocks: seq<Block>) {
    forall i, j :: 0 <= i < j < |blocks| ==> blocks[i].hi <= blocks[j].low
  }

  /** The outputs of ordered blocks follow one another, so everything sent is strictly ascending. */
  lemma SendAllAscending(primes: seq<nat>, blocks: seq<Block>)
    requires Positive(primes) && Ordered(blocks)
    ensures StrictlyAscending(SendAll(primes, blocks))
  {
    var outs := Outputs(primes, blocks);
    forall k | 0 <= k < |outs|
      ensures StrictlyAscending(outs[k])
    {
      BlockOutputBounds(primes, blocks[k]);
    }
    forall i, j, x, y | 0 <= i < j < |outs| && x in outs[i] && y in outs[j]
      ensures x < y
    {
      BlockOutputBounds(primes, blocks[i]);
      BlockOutputBounds(primes, blocks[j]);
    }
    ConcatAscending(outs);
  }

  /** Sending one more block appends that block's output. */
  lemma SendAllStep(primes: seq<nat>, blocks: seq<Block>, k: nat)
    requires Positive(primes) && k < |blocks|
    ensures SendAll(primes, blocks[..k + 1]) == SendAll(primes, blocks[..k]) + BlockOutput(primes, blocks[k])
  {
    var outs := Outputs(primes, blocks[..k + 1]);
    assert outs[..k] == Outputs(primes, blocks[..k]);
    assert outs[k] == BlockOutput(primes, blocks[k]);
  }

  /** The submission loop: each block's worker output, in submission order. */
  method RunWorkers(primes: seq<nat>, blocks: seq<Block>) returns (sent: seq<nat>)
    requires Positive(primes)
    ensures sent == SendAll(primes, blocks)
  {
    sent := [];
    var k := 0;
    while k < |blocks|
      invariant 0 <= k <= |blocks|
      invariant sent == SendAll(primes, blocks[..k])
    {
      SendAllStep(primes, blocks, k);
      sent := sent + CheckBlock(primes, Candidates(blocks[k]));
      k := k + 1;
    }
    assert blocks[..|blocks|] == blocks;
  }
}
