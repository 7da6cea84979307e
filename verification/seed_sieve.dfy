/**
 The single-threaded seed sieve (`find_prime_vec` in src/main.rs): odd
 candidates from 3 upwards are kept when trial division by the primes kept so
 far accepts them.
 */
module SeedSieve {
  import opened Arith
  import opened Seqs
  import opened TrialDivision

  /** An odd prime; the search never considers 2. */
  predicate OddPrime(x: nat) {
    x % 2 == 1 && Prime(x)
  }

  /** Reference definition: the odd primes in `[3, n)`, ascending. */
  function OddPrimesBelow(n: nat): (r: seq<nat>)
    ensures StrictlyAscending(r)
    ensures forall x :: x in r <==> 3 <= x < n && OddPrime(x)
    decreases n
  {
    if n <= 3 then []
    else
      var prev := OddPrimesBelow(n - 1);
      if OddPrime(n - 1) then
        AppendAscending(prev, [n - 1]);
        prev + [n - 1]
      else
        prev
  }

  /** The odd primes below `n` are a sorted list of usable divisors. */
  lemma OddPrimesBelowUsable(n: nat)
    ensures Sorted(OddPrimesBelow(n)) && AtLeastTwo(OddPrimesBelow(n)) && Positive(OddPrimesBelow(n))
  {
    var ps := OddPrimesBelow(n);
    AscendingIsSorted(ps);
    forall k | 0 <= k < |ps|
      ensures ps[k] >= 2
    {
      assert ps[k] in ps;
    }
  }

  /**
   Before candidate `i` is tested, the odd primes below `i` form a sufficient
   divisor list for it: every prime factor of the odd `i` up to its root is an
   odd prime below `i`.
   */
  lemma OddPrimesBelowSuffice(i: nat)
    requires i >= 3 && i % 2 == 1
    ensures Sorted(OddPrimesBelow(i)) && AtLeastTwo(OddPrimesBelow(i))
    ensures CoversDivisors(OddPrimesBelow(i), i)
  {
    var ps := OddPrimesBelow(i);
    OddPrimesBelowUsable(i);
    IsqrtBelow(i);
    forall p | 2 <= p <= Isqrt(i) && Prime(p) && Divides(p, i)
      ensures p in ps
    {
      OddDivisor(p, i);
    }
  }

  /**
   The sieve loop. Before each candidate `i`, `ret` is exactly the odd primes
   below `i`, which makes it a sufficient divisor list for `i`.
   */
  method FindPrimeVec(maxPrime: nat) returns (ret: seq<nat>)
    ensures ret == OddPrimesBelow(maxPrime)
    ensures StrictlyAscending(ret)
    ensures forall x :: x in ret <==> 3 <= x < maxPrime && OddPrime(x)
  {
    ret := [];
    var i := 3;
    while i < maxPrime
      invariant 3 <= i && i % 2 == 1
      invariant i == 3 || i <= maxPrime + 1
      invariant ret == OddPrimesBelow(i)
      decreases maxPrime - i
    {
      SieveStep(i);
      if IsPrime(i, ret) {
        ret := ret + [i];
      }
      i := i + 2;
    }
    SieveExit(i, maxPrime);
  }

  /** Trial division by the odd primes below an odd `i` decides whether `i` is prime. */
  lemma SieveTestExact(i: nat)
    requires i >= 3 && i % 2 == 1
    ensures Positive(OddPrimesBelow(i))
    ensures IsPrime(i, OddPrimesBelow(i)) <==> OddPrime(i)
  {
    OddPrimesBelowUsable(i);
    OddPrimesBelowSuffice(i);
    TrialDivisionDecides(i, OddPrimesBelow(i));
  }

  /** The odd primes below `i + 2` are those below `i`, followed by `i` when it is prime. */
  lemma OddPrimesBelowNext(i: nat)
    requires i >= 3 && i % 2 == 1
    ensures OddPrimesBelow(i + 2) == if OddPrime(i) then OddPrimesBelow(i) + [i] else OddPrimesBelow(i)
  {
    assert !OddPrime(i + 1);
  }

  /** One step of the sieve: testing odd `i` against the odd primes below it extends them to those below `i + 2`. */
  lemma SieveStep(i: nat)
    requires i >= 3 && i % 2 == 1
    ensures Positive(OddPrimesBelow(i))
    ensures OddPrimesBelow(i + 2) ==
            if IsPrime(i, OddPrimesBelow(i)) then OddPrimesBelow(i) + [i] else OddPrimesBelow(i)
  {
    SieveTestExact(i);
    OddPrimesBelowNext(i);
  }

  /** Where the sieve loop stops, no odd prime lies between `maxPrime` and the stopping candidate. */
  lemma SieveExit(i: nat, maxPrime: nat)
    requires 3 <= i && i % 2 == 1 && maxPrime <= i
    requires i == 3 || i <= maxPrime + 1
    ensures OddPrimesBelow(i) == OddPrimesBelow(maxPrime)
  {
    if i == maxPrime + 1 {
      assert !OddPrime(maxPrime);
    } else if i == 3 {
      assert OddPrimesBelow(3) == [];
    }
  }
}
