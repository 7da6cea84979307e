/**
 The work partitioner in `main` (src/main.rs): the range above the seed primes
 is cut at the multiples of the root, `point(i)`, and block `i` holds the odd
 candidates from just above `point(i)` up to, excluding, `point(i + 1)`.

 The program works in an unsigned 32-bit word whose largest value is also the
 search bound. The model keeps that coincidence but makes the bound a
 parameter `max`: `checked_mul` and `checked_add` overflow exactly when their
 result would exceed `max`, and `root` plays the part of `max_track`. With
 `max == U32Max` and `root == 65535` this is the program itself.
 */
module Partition {
  import opened Arith
  import opened Seqs

  datatype Option<T> = None | Some(value: T)

  /** `checked_mul` in a word whose largest value is `max`. */
  function CheckedMul(a: nat, b: nat, max: nat): Option<nat> {
    if a * b <= max then Some(a * b) else None
  }

  /** `checked_add` in a word whose largest value is `max`. */
  function CheckedAdd(a: nat, b: nat, max: nat): Option<nat> {
    if a + b <= max then Some(a + b) else None
  }

  /** `n | 1`: setting the lowest bit turns an even number into the next odd one. */
  function SetLowBit(n: nat): (r: nat)
    ensures r % 2 == 1 && n <= r <= n + 1
  {
    if n % 2 == 0 then n + 1 else n
  }

  /** `point(i)`: the `i`-th multiple of the root, or `max` when the product overflows. */
  function Point(root: nat, max: nat, i: nat): nat {
    match CheckedMul(root, i, max)
    case Some(n) => n
    case None => max
  }

  /** `low` of block `i`: the next odd number above `point(i)`, or `point(i)` itself when adding 1 overflows. */
  function Low(root: nat, max: nat, i: nat): nat {
    match CheckedAdd(Point(root, max, i), 1, max)
    case Some(n) => SetLowBit(n)
    case None => Point(root, max, i)
  }

  /** `hi` of block `i`: the next boundary, `point(i + 1)`. */
  function Hi(root: nat, max: nat, i: nat): nat {
    Point(root, max, i + 1)
  }

  /** The half-open range of one worker task; its candidates are every other number from `low`. */
  datatype Block = Block(low: nat, hi: nat)

  /** The block the loop builds in iteration `i`. */
  function BlockAt(root: nat, max: nat, i: nat): Block {
    Block(Low(root, max, i), Hi(root, max, i))
  }

  /** `(low..hi).step_by(2)`: `low`, `low + 2`, ... while below `hi`. */
  function StepBy2(low: nat, hi: nat): (r: seq<nat>)
    ensures StrictlyAscending(r)
    ensures forall x :: x in r <==> low <= x < hi && (x - low) % 2 == 0
    decreases hi - low
  {
    if low >= hi then []
    else
      var rest := StepBy2(low + 2, hi);
      AppendAscending([low], rest);
      [low] + rest
  }

  /** The candidates a worker receives for a block. */
  function Candidates(b: Block): seq<nat> {
    StepBy2(b.low, b.hi)
  }

  /** Boundaries never exceed `max`; below `max` they are the exact multiple `root * i`. */
  lemma PointBounds(root: nat, max: nat, i: nat)
    ensures Point(root, max, i) <= max
    ensures Point(root, max, i) < max ==> Point(root, max, i) == root * i
    ensures root * i <= max ==> Point(root, max, i) == root * i
  {
  }

  /** `point` is non-decreasing in the block index. */
  lemma PointMonotone(root: nat, max: nat, i: nat, j: nat)
    requires i <= j
    ensures Point(root, max, i) <= Point(root, max, j)
  {
    MulMonotone(root, i, j);
  }

  /** Below `max`, consecutive boundaries are exactly `root` apart, so they strictly increase. */
  lemma PointStep(root: nat, max: nat, i: nat)
    requires Point(root, max, i + 1) < max
    ensures Point(root, max, i) == root * i
    ensures Point(root, max, i + 1) == root * i + root
  {
    PointMonotone(root, max, i, i + 1);
    assert root * (i + 1) == root * i + root;
  }

  /**
   `low` is odd and lies just above `point(i)` while `point(i)` is below `max`;
   once `point(i)` has reached `max`, `low == hi == max` and the block is empty.
   */
  lemma LowBounds(root: nat, max: nat, i: nat)
    ensures Point(root, max, i) < max ==>
              Low(root, max, i) % 2 == 1 &&
              Point(root, max, i) < Low(root, max, i) <= Point(root, max, i) + 2
    ensures Point(root, max, i) == max ==>
              Low(root, max, i) == max && Hi(root, max, i) == max && Candidates(BlockAt(root, max, i)) == []
  {
    PointBounds(root, max, i);
    PointBounds(root, max, i + 1);
    PointMonotone(root, max, i, i + 1);
  }

  /** Stepping by two from the least odd number above `p` visits exactly the odd numbers above `p`. */
  lemma OddSteps(p: nat, low: nat, hi: nat, x: nat)
    requires low % 2 == 1 && p < low <= p + 2
    ensures x in StepBy2(low, hi) <==> x % 2 == 1 && p < x < hi
  {
    assert x % 2 == 1 && p < x ==> low <= x;
    assert low <= x ==> ((x - low) % 2 == 0 <==> x % 2 == 1);
  }

  /**
   A block holds exactly the odd numbers strictly between its two boundaries:
   the boundary `point(i)` itself is never a candidate.
   */
  lemma BlockMembership(root: nat, max: nat, i: nat, x: nat)
    ensures x in Candidates(BlockAt(root, max, i)) <==>
            x % 2 == 1 && Point(root, max, i) < x < Point(root, max, i + 1)
  {
    var p := Point(root, max, i);
    LowBounds(root, max, i);
    PointBounds(root, max, i + 1);
    if p < max {
      OddSteps(p, Low(root, max, i), Hi(root, max, i), x);
    }
  }

  /** Two different blocks share no candidate. */
  lemma BlocksDisjoint(root: nat, max: nat, i: nat, j: nat, x: nat)
    requires i != j
    ensures !(x in Candidates(BlockAt(root, max, i)) && x in Candidates(BlockAt(root, max, j)))
  {
    BlockMembership(root, max, i, x);
    BlockMembership(root, max, j, x);
    if i < j {
      PointMonotone(root, max, i + 1, j);
    } else {
      PointMonotone(root, max, j + 1, i);
    }
  }

  /** Every block ends no later than any later block starts. */
  lemma BlocksOrdered(root: nat, max: nat, i: nat, j: nat)
    requires i < j
    ensures BlockAt(root, max, i).hi <= BlockAt(root, max, j).low
  {
    LowBounds(root, max, j);
    PointBounds(root, max, j);
    PointMonotone(root, max, i + 1, j);
  }

  /**
   Reference count of blocks: the loop stops at the first `i` whose `hi` is
   `max`, which is one less than the least multiple of `root` reaching `max`,
   and never before the first iteration.
   */
  function BlockCount(root: nat, max: nat): nat
    requires root >= 1
  {
    if max <= 2 * root then 1 else (max + root - 1) / root - 1
  }

  /** The last block, and only the last, ends at `max`. */
  lemma FinalBlock(root: nat, max: nat)
    requires root >= 1
    ensures BlockCount(root, max) >= 1
    ensures Hi(root, max, BlockCount(root, max)) == max
    ensures forall k :: 1 <= k < BlockCount(root, max) ==> Hi(root, max, k) < max
  {
    var n := BlockCount(root, max);
    if max <= 2 * root {
      assert root * 2 == 2 * root;
    } else {
      var c := (max + root - 1) / root;
      assert max + root - 1 == root * c + (max + root - 1) % root;
      assert root * c >= max;
      assert root * (c - 1) == root * c - root;
      assert root * (c - 1) < max;
      if c <= 2 {
        MulMonotone(root, c, 2);
      }
      assert n == c - 1 && n >= 1;
      assert Point(root, max, n + 1) == max;
      forall k | 1 <= k < n
        ensures Hi(root, max, k) < max
      {
        MulMonotone(root, k + 1, c - 1);
      }
    }
  }

  /** Any index whose block is the first to end at `max` is the block count. */
  lemma BlockCountUnique(root: nat, max: nat, i: nat)
    requires root >= 1 && i >= 1
    requires Hi(root, max, i) == max
    requires forall k :: 1 <= k < i ==> Hi(root, max, k) < max
    ensures i == BlockCount(root, max)
  {
    FinalBlock(root, max);
  }

  /** The first `n` blocks, block `k + 1` at position `k`. */
  function BlocksUpTo(root: nat, max: nat, n: nat): (r: seq<Block>)
    ensures |r| == n
    ensures forall k :: 0 <= k < n ==> r[k] == BlockAt(root, max, k + 1)
  {
    if n == 0 then [] else BlocksUpTo(root, max, n - 1) + [BlockAt(root, max, n)]
  }

  /** Reference list of the blocks the loop submits. */
  function Blocks(root: nat, max: nat): seq<Block>
    requires root >= 1
  {
    BlocksUpTo(root, max, BlockCount(root, max))
  }

  /**
   The enumeration loop: build block `i`, submit it, and stop once its `hi`
   equals `max`. It terminates because each `hi` below `max` is `root` more
   than the previous boundary.
   */
  method EnumerateBlocks(root: nat, max: nat) returns (blocks: seq<Block>)
    requires root >= 1
    ensures blocks == Blocks(root, max)
    ensures |blocks| >= 1 && blocks[|blocks| - 1].hi == max
    ensures forall k :: 0 <= k < |blocks| - 1 ==> blocks[k].hi < max
  {
    blocks := [];
    var i := 1;
    while true
      invariant i >= 1 && |blocks| == i - 1
      invariant forall k :: 0 <= k < |blocks| ==> blocks[k] == BlockAt(root, max, k + 1)
      invariant forall k :: 1 <= k < i ==> Hi(root, max, k) < max
      invariant Point(root, max, i) <= max
      decreases max - Point(root, max, i)
    {
      var low := Low(root, max, i);
      var hi := Point(root, max, i + 1);
      blocks := blocks + [Block(low, hi)];
      if hi == max {
        BlockCountUnique(root, max, i);
        return;
      }
      PointBounds(root, max, i + 1);
      PointStep(root, max, i);
      i := i + 1;
    }
  }

  /**
   Coverage: every odd `x` above the root and below `max` that is not a
   boundary (not a multiple of the root) lies in block `x / root`, which is
   one of the submitted blocks.
   */
  lemma BlocksCover(root: nat, max: nat, x: nat)
    requires root >= 1
    requires x % 2 == 1 && root < x < max && x % root != 0
    ensures 1 <= x / root <= BlockCount(root, max)
    ensures x in Candidates(BlockAt(root, max, x / root))
  {
    var j := x / root;
    assert x == root * j + x % root;
    assert root * (j + 1) == root * j + root;
    PointBounds(root, max, j);
    PointBounds(root, max, j + 1);
    BlockMembership(root, max, j, x);
    FinalBlock(root, max);
    var n := BlockCount(root, max);
    if j > n {
      PointMonotone(root, max, n + 1, j);
    }
  }

  /** A number strictly between two consecutive multiples of `root` is not a multiple of `root`. */
  lemma BetweenMultiples(root: nat, j: nat, x: nat)
    requires root >= 1 && root * j < x < root * j + root
    ensures x % root != 0
  {
    DivModUnique(x, root, j, x - root * j);
  }

  /**
   The converse of coverage: a candidate of any block is odd, lies above the
   root and below `max`, is not a multiple of the root, and belongs to one of
   the submitted blocks.
   */
  lemma BlockContents(root: nat, max: nat, j: nat, x: nat)
    requires root >= 1 && j >= 1
    requires x in Candidates(BlockAt(root, max, j))
    ensures x % 2 == 1 && root < x < max && x % root != 0
    ensures j <= BlockCount(root, max)
  {
    BlockMembership(root, max, j, x);
    PointBounds(root, max, j);
    PointBounds(root, max, j + 1);
    MulMonotone(root, 1, j);
    assert root * (j + 1) == root * j + root;
    BetweenMultiples(root, j, x);
    FinalBlock(root, max);
    var n := BlockCount(root, max);
    if j > n {
      PointMonotone(root, max, n + 1, j);
    }
  }

  /** A candidate of a submitted block is odd, lies above the root and below `max`, and is not a multiple of the root. */
  lemma SubmittedCandidate(root: nat, max: nat, k: nat, x: nat)
    requires root >= 1 && k < |Blocks(root, max)|
    requires x in Candidates(Blocks(root, max)[k])
    ensures x % 2 == 1 && root < x < max && x % root != 0
  {
    BlockContents(root, max, k + 1, x);
  }

  /** Every odd non-multiple of the root between the root and `max` is a candidate of a submitted block. */
  lemma SubmittedCover(root: nat, max: nat, x: nat) returns (k: nat)
    requires root >= 1
    requires x % 2 == 1 && root < x < max && x % root != 0
    ensures k < |Blocks(root, max)| && x in Candidates(Blocks(root, max)[k])
  {
    BlocksCover(root, max, x);
    k := x / root - 1;
  }
}
