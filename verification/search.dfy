/**
 The whole search of `main` (src/main.rs) with its threads taken out: seed
 primes up to the root, one worker task per block, the seed primes sent after
 the tasks, and the collector sorting and encoding whatever the channel
 delivered. The channel is modelled by the multiset of values sent; any
 arrival order with that multiset is allowed.
 */
module Search {
  import opened Arith
  import opened Seqs
  import opened TrialDivision
  import opened SeedSieve
  import opened Partition
  import opened Worker
  import opened Collector

  /** The seed primes of the search: `find_prime_vec(max_track)`, the odd primes below the root. */
  function Seeds(max: nat): seq<nat> {
    OddPrimesBelow(Isqrt(max))
  }

  /** What the worker tasks send, block after block in submission order. */
  function WorkerSent(max: nat): seq<nat>
    requires max >= 1
  {
    OddPrimesBelowUsable(Isqrt(max));
    SendAll(Seeds(max), Blocks(Isqrt(max), max))
  }

  /** Everything put on the channel: the worker outputs, then the seed primes. */
  function Sent(max: nat): seq<nat>
    requires max >= 1
  {
    WorkerSent(max) + Seeds(max)
  }

  /**
   Trial division by the seed primes decides primality for every block
   candidate. A prime factor of such a candidate up to its root is odd and at
   most the root of `max`; it is not the root itself, since no candidate is a
   multiple of the root, so it is one of the seeds.
   */
  lemma SeedsDecideCandidates(max: nat, x: nat)
    requires max >= 1
    requires x % 2 == 1 && Isqrt(max) < x < max && x % Isqrt(max) != 0
    ensures Positive(Seeds(max))
    ensures IsPrime(x, Seeds(max)) <==> Prime(x)
  {
    var root := Isqrt(max);
    var seeds := Seeds(max);
    OddPrimesBelowUsable(root);
    IsqrtMonotone(x, max);
    forall p | 2 <= p <= Isqrt(x) && Prime(p) && Divides(p, x)
      ensures p in seeds
    {
      OddDivisor(p, x);
    }
    TrialDivisionDecides(x, seeds);
  }

  /** The submitted blocks are ordered: each ends before any later one begins. */
  lemma SubmittedBlocksOrdered(root: nat, max: nat)
    requires root >= 1
    ensures Ordered(Blocks(root, max))
  {
    var bs := Blocks(root, max);
    forall i, j | 0 <= i < j < |bs|
      ensures bs[i].hi <= bs[j].low
    {
      BlocksOrdered(root, max, i + 1, j + 1);
    }
  }

  /** A prime above the root is never a multiple of the root (when the root is 1 there is no such prime below `max`). */
  lemma PrimeNotMultipleOfRoot(max: nat, x: nat)
    requires max >= 1 && Prime(x) && x % 2 == 1 && Isqrt(max) < x < max
    ensures x % Isqrt(max) != 0
  {
    var root := Isqrt(max);
    if root >= 2 {
      assert !Divides(root, x);
    }
  }

  /**
   Whatever the workers send for the blocks of `root` and `max` is an odd
   candidate strictly between `root` and `max`, not a multiple of `root`, that
   passed trial division.
   */
  lemma SendAllCandidate(seeds: seq<nat>, root: nat, max: nat, x: nat)
    requires Positive(seeds) && root >= 1 && x in SendAll(seeds, Blocks(root, max))
    ensures x % 2 == 1 && root < x < max && x % root != 0 && IsPrime(x, seeds)
  {
    var blocks := Blocks(root, max);
    var k := SentFromBlock(seeds, blocks, x);
    SubmittedCandidate(root, max, k, x);
  }

  /**
   Whatever a worker sends is an odd candidate strictly between the root and
   `max`, not a multiple of the root, that passed trial division by the seeds.
   */
  lemma WorkerSentCandidate(max: nat, x: nat)
    requires max >= 1 && x in WorkerSent(max)
    ensures x % 2 == 1 && Isqrt(max) < x < max && x % Isqrt(max) != 0
    ensures Positive(Seeds(max)) && IsPrime(x, Seeds(max))
  {
    OddPrimesBelowUsable(Isqrt(max));
    SendAllCandidate(Seeds(max), Isqrt(max), max, x);
  }

  /** Whatever a worker sends is an odd prime strictly between the root and `max`. */
  lemma WorkerSentSound(max: nat, x: nat)
    requires max >= 1 && x in WorkerSent(max)
    ensures OddPrime(x) && Isqrt(max) < x < max
  {
    WorkerSentCandidate(max, x);
    SeedsDecideCandidates(max, x);
  }

  /** An odd prime strictly between the root and `max` passes trial division by the seeds. */
  lemma SeedsAcceptPrime(max: nat, x: nat)
    requires max >= 1 && OddPrime(x) && Isqrt(max) < x < max
    ensures Positive(Seeds(max)) && IsPrime(x, Seeds(max))
  {
    PrimeNotMultipleOfRoot(max, x);
    SeedsDecideCandidates(max, x);
  }

  /** Every odd prime strictly between the root and `max` is sent by the worker of its block. */
  lemma WorkerSentComplete(max: nat, x: nat)
    requires max >= 1 && OddPrime(x) && Isqrt(max) < x < max
    ensures x in WorkerSent(max)
  {
    var root, seeds := Isqrt(max), Seeds(max);
    PrimeNotMultipleOfRoot(max, x);
    var k := SubmittedCover(root, max, x);
    SeedsAcceptPrime(max, x);
    BlockPrimeSent(seeds, Blocks(root, max), k, x);
  }

  /**
   The workers send exactly the odd primes strictly between the root and
   `max`, in ascending order.
   */
  lemma WorkerSentExactly(max: nat)
    requires max >= 1
    ensures StrictlyAscending(WorkerSent(max))
    ensures forall x: nat :: x in WorkerSent(max) <==> OddPrime(x) && Isqrt(max) < x < max
  {
    OddPrimesBelowUsable(Isqrt(max));
    SubmittedBlocksOrdered(Isqrt(max), max);
    SendAllAscending(Seeds(max), Blocks(Isqrt(max), max));
    forall x: nat
      ensures x in WorkerSent(max) <==> OddPrime(x) && Isqrt(max) < x < max
    {
      if x in WorkerSent(max) {
        WorkerSentSound(max, x);
      }
      if OddPrime(x) && Isqrt(max) < x < max {
        WorkerSentComplete(max, x);
      }
    }
  }

  /** The seed primes are the ascending odd primes below the root. */
  lemma SeedsExactly(max: nat)
    ensures StrictlyAscending(Seeds(max))
    ensures forall x: nat :: x in Seeds(max) <==> OddPrime(x) && 3 <= x < Isqrt(max)
  {
  }

  /**
   Everything sent, seeds first, is already ascending and consists of the odd
   primes below `max` other than the root.
   */
  lemma SentAscendingExactly(max: nat)
    requires max >= 1
    ensures StrictlyAscending(Seeds(max) + WorkerSent(max))
    ensures forall x: nat :: x in Seeds(max) + WorkerSent(max) <==>
              OddPrime(x) && 3 <= x < max && x != Isqrt(max)
  {
    var root := Isqrt(max);
    var seeds, workers := Seeds(max), WorkerSent(max);
    SeedsExactly(max);
    WorkerSentExactly(max);
    assert StrictlyAscending(seeds + workers) by {
      assert forall x, y :: x in seeds && y in workers ==> x < y;
      AppendAscending(seeds, workers);
    }
    forall x: nat
      ensures x in seeds + workers <==> OddPrime(x) && 3 <= x < max && x != root
    {
      IsqrtAtMost(max);
    }
  }

  /** Everything sent is an odd prime below `max` other than its root, and every such prime is sent. */
  lemma SentExactly(max: nat)
    requires max >= 1
    ensures forall x: nat :: x in Sent(max) <==> OddPrime(x) && 3 <= x < max && x != Isqrt(max)
  {
    SentAscendingExactly(max);
    var seeds, workers := Seeds(max), WorkerSent(max);
    forall x: nat
      ensures x in workers + seeds <==> x in seeds + workers
    {
    }
  }

  /** Every value sent fits in a 32-bit word. */
  lemma SentAreWords(max: nat)
    requires 1 <= max <= U32Max
    ensures AllWords(Sent(max))
  {
    var s := Sent(max);
    SentExactly(max);
    forall k | 0 <= k < |s|
      ensures s[k] <= U32Max
    {
      assert s[k] in s;
    }
  }

  /**
   End-to-end result for a bound `max`: whatever order the channel delivers
   the sent values in, the collector's byte stream decodes to the strictly
   ascending list of odd primes in `[3, max)` without the root of `max`,
   four bytes per prime.
   */
  lemma OutputIsOddPrimes(max: nat, received: seq<nat>)
    requires 1 <= max <= U32Max
    requires multiset(received) == multiset(Sent(max))
    ensures AllWords(received)
    ensures StrictlyAscending(DecodeAll(Collect(received)))
    ensures forall x: nat :: x in DecodeAll(Collect(received)) <==>
              OddPrime(x) && 3 <= x < max && x != Isqrt(max)
    ensures |Collect(received)| == 4 * |DecodeAll(Collect(received))|
    ensures AllWords(DecodeAll(Collect(received)))
    ensures Collect(received) == EncodeAll(DecodeAll(Collect(received)))
  {
    SentAreWords(max);
    forall k | 0 <= k < |received|
      ensures received[k] <= U32Max
    {
      assert received[k] in multiset(received);
      assert received[k] in Sent(max);
    }
    var asc := Seeds(max) + WorkerSent(max);
    SentAscendingExactly(max);
    AscendingIsSorted(asc);
    var out := DecodeAll(Collect(received));
    assert multiset(asc) == multiset(Sent(max));
    SortedDeterminedByMultiset(out, asc);
    DecodeAllRoundTrip(Collect(received));
  }

  /**
   The root of `2^32 - 1` is 65535, and neither of them is prime. With
   `OutputWhenBoundsComposite` this gives the program's own result: for
   `max = 2^32 - 1` the output decodes to exactly the odd primes up to and
   including `2^32 - 1`.

   The bound is a parameter pinned by the precondition rather than the literal
   `U32Max` written into the statements: a literal argument lets the verifier
   unfold the recursive definitions (`Isqrt`, `OddPrimesBelow`) on it, step by
   step, which makes every statement about the literal bound too costly to
   check. A caller holding `max == U32Max` gets the same facts.
   */
  lemma U32Constants(max: nat)
    requires max == U32Max
    ensures Isqrt(max) == 65535
    ensures !Prime(Isqrt(max)) && !Prime(max)
  {
    IsqrtUnique(max, 65535);
    assert Divides(3, 65535);
    assert Divides(3, max);
  }

  /**
   For the program's own bound the partition ends exactly: `65535 * 65537`
   is `2^32 - 1`, so the last boundary is reached without overflow and the
   loop submits 65536 blocks.
   */
  lemma U32Partition()
    ensures CheckedMul(65535, 65537, U32Max) == Some(U32Max)
    ensures BlockCount(65535, U32Max) == 65536
    ensures Hi(65535, U32Max, 65536) == U32Max
  {
    FinalBlock(65535, U32Max);
  }

  /** The odd primes in `[3, max)` without a composite root are the odd primes up to a composite `max`. */
  lemma SkipsOnlyComposites(max: nat, x: nat)
    requires !Prime(Isqrt(max)) && !Prime(max)
    ensures (OddPrime(x) && 3 <= x < max && x != Isqrt(max)) <==> x in OddPrimesBelow(max + 1)
  {
  }

  /**
   When neither the root nor `max` is prime, the output stream is, byte for
   byte, the big-endian encoding of the ascending odd primes up to and
   including `max`.
   */
  lemma OutputWhenBoundsComposite(max: nat, received: seq<nat>)
    requires 1 <= max <= U32Max
    requires !Prime(Isqrt(max)) && !Prime(max)
    requires multiset(received) == multiset(Sent(max))
    ensures AllWords(received)
    ensures DecodeAll(Collect(received)) == OddPrimesBelow(max + 1)
    ensures AllWords(OddPrimesBelow(max + 1))
    ensures Collect(received) == EncodeAll(OddPrimesBelow(max + 1))
  {
    OutputIsOddPrimes(max, received);
    var out := DecodeAll(Collect(received));
    forall x: nat
      ensures x in out <==> x in OddPrimesBelow(max + 1)
    {
      SkipsOnlyComposites(max, x);
    }
    AscendingDeterminedByMembers(out, OddPrimesBelow(max + 1));
  }

  /**
   `main` with its threads taken out: seed primes, the enumerated blocks each
   filtered by a worker, then the seed primes, in the order they are sent.
   */
  method SearchPrimes(max: nat) returns (sent: seq<nat>)
    requires 1 <= max <= U32Max
    ensures sent == Sent(max)
    ensures forall x: nat :: x in sent <==> OddPrime(x) && 3 <= x < max && x != Isqrt(max)
  {
    var root := Isqrt(max);
    var seeds := FindPrimeVec(root);
    OddPrimesBelowUsable(root);
    var blocks := EnumerateBlocks(root, max);
    var fromWorkers := RunWorkers(seeds, blocks);
    sent := fromWorkers + seeds;
    SentExactly(max);
  }
}
