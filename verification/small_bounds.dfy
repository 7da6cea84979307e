/**
 The search at two small bounds, where every value can be written out: the
 seed sieve below 10, and the whole search for a bound of 9, whose root 3 is
 prime and is therefore missing from the output.
 */
module SmallBounds {
  import opened Arith
  import opened Seqs
  import opened SeedSieve
  import opened Search

  /** `find_prime_vec(10)` keeps 3, 5 and 7 and rejects 9. */
  lemma SmallSeeds()
    ensures OddPrimesBelow(10) == [3, 5, 7]
  {
    assert Prime(3) && Prime(5) && Prime(7) && !Prime(9) by {
      assert !Divides(2, 7) && !Divides(3, 7) && !Divides(4, 7) && !Divides(5, 7) && !Divides(6, 7);
      assert !Divides(2, 5) && !Divides(3, 5) && !Divides(4, 5);
      assert !Divides(2, 3);
      assert Divides(3, 9);
    }
  }

  /**
   For a bound of 9 the root is 3. The seeds are the odd primes below 3, none,
   and the blocks hold the odd numbers strictly between the multiples of 3, so
   3 itself is never tested: only 5 and 7 are sent.
   */
  lemma NineSkipsRoot()
    ensures Isqrt(9) == 3
    ensures Sent(9) == [5, 7]
  {
    IsqrtUnique(9, 3);
    assert Prime(5) && Prime(7) by {
      assert !Divides(2, 7) && !Divides(3, 7) && !Divides(4, 7) && !Divides(5, 7) && !Divides(6, 7);
      assert !Divides(2, 5) && !Divides(3, 5) && !Divides(4, 5);
    }
    SentAscendingExactly(9);
    var s := Seeds(9) + WorkerSent(9);
    forall x: nat
      ensures x in s <==> x in [5, 7]
    {
    }
    AscendingDeterminedByMembers(s, [5, 7]);
  }
}
