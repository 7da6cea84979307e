/**
 Orderings on sequences of naturals shared by the sieve, the workers and the
 collector: non-decreasing ("sorted") and strictly ascending sequences, and the
 facts that pin such a sequence down by its contents.
 */
module Seqs {

  /** Every element is at most every later one. */
  predicate Sorted(s: seq<nat>) {
    forall i, j :: 0 <= i < j < |s| ==> s[i] <= s[j]
  }

  /** Every element is strictly below every later one (sorted, no duplicates). */
  predicate StrictlyAscending(s: seq<nat>) {
    forall i, j :: 0 <= i < j < |s| ==> s[i] < s[j]
  }

  /** Concatenating two ascending runs, the first entirely below the second, stays ascending. */
  lemma AppendAscending(a: seq<nat>, b: seq<nat>)
    requires StrictlyAscending(a) && StrictlyAscending(b)
    requires forall x, y :: x in a && y in b ==> x < y
    ensures StrictlyAscending(a + b)
  {
    var c := a + b;
    forall i, j | 0 <= i < j < |c|
      ensures c[i] < c[j]
    {
      if j < |a| {
        assert c[i] == a[i] && c[j] == a[j];
      } else if i >= |a| {
        assert c[i] == b[i - |a|] && c[j] == b[j - |a|];
      } else {
        assert c[i] == a[i] && c[j] == b[j - |a|];
        assert a[i] in a && b[j - |a|] in b;
      }
    }
  }

  /** The head of a strictly ascending sequence is below every other element. */
  lemma HeadIsLeast(s: seq<nat>, x: nat)
    requires StrictlyAscending(s) && x in s
    ensures s[0] <= x
  {
    var k :| 0 <= k < |s| && s[k] == x;
    if k > 0 {
      assert s[0] < s[k];
    }
  }

  /**
   In ascending sequences with the same head, an element of `a`'s tail that
   also lies in `b` lies in `b`'s tail.
   */
  lemma TailMember(a: seq<nat>, b: seq<nat>, x: nat)
    requires StrictlyAscending(a) && |a| > 0 && |b| > 0 && a[0] == b[0]
    requires x in a[1..] && x in b
    ensures x in b[1..]
  {
    var k :| 1 <= k < |a| && a[k] == x;
    assert a[0] < a[k];
    var t :| 0 <= t < |b| && b[t] == x;
    assert b[t] == b[1..][t - 1];
  }

  /**
   Two strictly ascending sequences with the same elements are equal: the
   contents alone determine such a sequence.
   */
  lemma {:induction false} AscendingDeterminedByMembers(a: seq<nat>, b: seq<nat>)
    requires StrictlyAscending(a) && StrictlyAscending(b)
    requires forall x :: x in a <==> x in b
    ensures a == b
    decreases |a|
  {
    assert |a| > 0 ==> a[0] in b;
    assert |b| > 0 ==> b[0] in a;
    if |a| > 0 {
      HeadIsLeast(a, b[0]);
      HeadIsLeast(b, a[0]);
      forall x
        ensures x in a[1..] <==> x in b[1..]
      {
        if x in a[1..] {
          assert x in a;
          TailMember(a, b, x);
        }
        if x in b[1..] {
          assert x in b;
          TailMember(b, a, x);
        }
      }
      AscendingDeterminedByMembers(a[1..], b[1..]);
      assert a == [a[0]] + a[1..];
      assert b == [b[0]] + b[1..];
    }
  }

  /** A strictly ascending sequence is in particular sorted. */
  lemma AscendingIsSorted(s: seq<nat>)
    requires StrictlyAscending(s)
    ensures Sorted(s)
  {
  }

  /** The least element of a non-empty multiset heads every sorted arrangement of it. */
  lemma SortedHeadIsMinimum(s: seq<nat>, x: nat)
    requires Sorted(s) && x in multiset(s)
    ensures s[0] <= x
  {
    assert x in s;
    var k :| 0 <= k < |s| && s[k] == x;
    if k > 0 {
      assert s[0] <= s[k];
    }
  }

  /**
   Sorting is deterministic: two sorted sequences holding the same multiset of
   values are equal, whatever order the values arrived in.
   */
  lemma {:induction false} SortedDeterminedByMultiset(a: seq<nat>, b: seq<nat>)
    requires Sorted(a) && Sorted(b)
    requires multiset(a) == multiset(b)
    ensures a == b
    decreases |a|
  {
    if |a| == 0 {
      assert |multiset(b)| == 0;
    } else {
      assert |b| == |multiset(b)| == |multiset(a)| == |a|;
      assert a[0] in multiset(a);
      assert b[0] in multiset(b);
      SortedHeadIsMinimum(b, a[0]);
      SortedHeadIsMinimum(a, b[0]);
      assert a[0] == b[0];
      assert a == [a[0]] + a[1..];
      assert b == [b[0]] + b[1..];
      calc {
        multiset(a[1..]);
        multiset(a) - multiset{a[0]};
        multiset(b) - multiset{b[0]};
        multiset(b[1..]);
      }
      SortedDeterminedByMultiset(a[1..], b[1..]);
    }
  }

  /** `x` lies in one of the runs `outs`. */
  predicate InSome(outs: seq<seq<nat>>, x: nat) {
    exists k :: 0 <= k < |outs| && x in outs[k]
  }

  /** The runs of `outs` one after another. */
  function Concat(outs: seq<seq<nat>>): (r: seq<nat>)
    ensures forall x :: x in r <==> InSome(outs, x)
    decreases |outs|
  {
    if |outs| == 0 then []
    else
      var r := Concat(outs[..|outs| - 1]);
      forall x
        ensures x in r + outs[|outs| - 1] <==> InSome(outs, x)
      {
        ConcatSplit(outs, x);
      }
      r + outs[|outs| - 1]
  }

  /** A value lies in one of a non-empty list of runs when it lies in one of the earlier runs or in the last. */
  lemma ConcatSplit(outs: seq<seq<nat>>, x: nat)
    requires |outs| > 0
    ensures InSome(outs, x) <==> InSome(outs[..|outs| - 1], x) || x in outs[|outs| - 1]
  {
    var init, n := outs[..|outs| - 1], |outs| - 1;
    if InSome(init, x) {
      var k :| 0 <= k < n && x in init[k];
      assert init[k] == outs[k];
    }
    if InSome(outs, x) {
      var k :| 0 <= k < |outs| && x in outs[k];
      if k < n {
        assert init[k] == outs[k];
      }
    }
  }

  /** Every run is ascending, and every value of an earlier run is below every value of a later one. */
  predicate Layered(outs: seq<seq<nat>>) {
    (forall k :: 0 <= k < |outs| ==> StrictlyAscending(outs[k])) &&
    (forall i, j, x, y :: 0 <= i < j < |outs| && x in outs[i] && y in outs[j] ==> x < y)
  }

  /** Layered runs concatenate to a strictly ascending sequence. */
  lemma {:induction false} ConcatAscending(outs: seq<seq<nat>>)
    requires Layered(outs)
    ensures StrictlyAscending(Concat(outs))
    decreases |outs|
  {
    if |outs| > 0 {
      var init, last := outs[..|outs| - 1], outs[|outs| - 1];
      assert Layered(init) by {
        forall k | 0 <= k < |init|
          ensures init[k] == outs[k]
        {
        }
      }
      ConcatAscending(init);
      var r := Concat(init);
      forall x, y | x in r && y in last
        ensures x < y
      {
        var i :| 0 <= i < |init| && x in init[i];
        assert init[i] == outs[i];
      }
      AppendAscending(r, last);
    }
  }
}
