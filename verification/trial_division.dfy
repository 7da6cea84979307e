/**
 The primality test of the search (`is_prime` in src/main.rs): a candidate is
 accepted when none of the known primes up to its square root divides it.
 */
module TrialDivision {
  import opened Arith
  import opened Seqs

  /** Every entry can serve as a divisor; the program would panic on a zero divisor. */
  predicate Positive(primes: seq<nat>) {
    forall k :: 0 <= k < |primes| ==> primes[k] > 0
  }

  /**
   The iterator chain of the test: walk `primes` from the front while the
   entries are at most `limit`, and require that none of them divides `i`.
   The walk stops at the first entry above `limit`, even if smaller ones follow.
   */
  function NoDivisorUpTo(i: nat, limit: nat, primes: seq<nat>): bool
    requires Positive(primes)
  {
    if |primes| == 0 || primes[0] > limit then true
    else !Divides(primes[0], i) && NoDivisorUpTo(i, limit, primes[1..])
  }

  /** Trial division of `i` by the entries of `primes` up to the floor square root of `i`. */
  function IsPrime(i: nat, primes: seq<nat>): bool
    requires Positive(primes)
  {
    NoDivisorUpTo(i, Isqrt(i), primes)
  }

  /**
   On a sorted divisor list the front walk examines exactly the entries up to
   the limit, so the test fails exactly when one of those entries divides `i`.
   */
  lemma {:induction false} NoDivisorUpToMeaning(i: nat, limit: nat, primes: seq<nat>)
    requires Positive(primes) && Sorted(primes)
    ensures NoDivisorUpTo(i, limit, primes) <==>
            forall k :: 0 <= k < |primes| && primes[k] <= limit ==> !Divides(primes[k], i)
    decreases |primes|
  {
    if |primes| == 0 {
    } else if primes[0] > limit {
      forall k | 0 <= k < |primes|
        ensures primes[k] > limit
      {
        assert primes[0] <= primes[k];
      }
    } else {
      var rest := primes[1..];
      NoDivisorUpToMeaning(i, limit, rest);
      if NoDivisorUpTo(i, limit, primes) {
        forall k | 0 <= k < |primes| && primes[k] <= limit
          ensures !Divides(primes[k], i)
        {
          if k > 0 {
            assert primes[k] == rest[k - 1];
          }
        }
      } else if !Divides(primes[0], i) {
        var k :| 0 <= k < |rest| && rest[k] <= limit && Divides(rest[k], i);
        assert primes[k + 1] == rest[k];
      }
    }
  }

  /** `is_prime(i, primes)` holds exactly when no entry at most the root of `i` divides `i`. */
  lemma IsPrimeMeaning(i: nat, primes: seq<nat>)
    requires Positive(primes) && Sorted(primes)
    ensures IsPrime(i, primes) <==>
            forall k :: 0 <= k < |primes| && primes[k] <= Isqrt(i) ==> !Divides(primes[k], i)
  {
    NoDivisorUpToMeaning(i, Isqrt(i), primes);
  }

  /** `primes` contains every prime up to the root of `i` that divides `i`. */
  predicate CoversDivisors(primes: seq<nat>, i: nat) {
    forall p :: 2 <= p <= Isqrt(i) && Prime(p) && Divides(p, i) ==> p in primes
  }

  /** Every entry is at least 2, as every prime is. */
  predicate AtLeastTwo(primes: seq<nat>) {
    forall k :: 0 <= k < |primes| ==> primes[k] >= 2
  }

  /**
   Trial division decides primality once the divisor list is sorted, holds no
   entry below 2, and contains every prime divisor of `i` up to its root.
   */
  lemma TrialDivisionDecides(i: nat, primes: seq<nat>)
    requires i >= 2
    requires Sorted(primes) && AtLeastTwo(primes)
    requires CoversDivisors(primes, i)
    ensures IsPrime(i, primes) <==> Prime(i)
  {
    IsPrimeMeaning(i, primes);
    IsqrtBelow(i);
    if !Prime(i) {
      var d := LeastDivisor(i);
      LeastDivisorIsPrime(i);
      LeastDivisorBelowRoot(i);
      assert d in primes;
      var k :| 0 <= k < |primes| && primes[k] == d;
      assert primes[k] <= Isqrt(i) && Divides(primes[k], i);
    }
  }
}
