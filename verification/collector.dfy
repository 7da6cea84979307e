/**
 The collector thread of `main` (src/main.rs): it gathers every value the
 channel delivers, sorts them, and writes each as four big-endian bytes.
 */
module Collector {
  import opened Arith
  import opened Seqs

  type byte = b: nat | b < 256

  /** Every value fits in the unsigned 32-bit word the channel carries. */
  predicate AllWords(xs: seq<nat>) {
    forall k :: 0 <= k < |xs| ==> xs[k] <= U32Max
  }

  /** A value at most every element of a sorted sequence can be put in front of it. */
  lemma PrependSorted(h: nat, t: seq<nat>)
    requires Sorted(t)
    requires forall y :: y in t ==> h <= y
    ensures Sorted([h] + t)
  {
    var r := [h] + t;
    forall i, j | 0 <= i < j < |r|
      ensures r[i] <= r[j]
    {
      if i == 0 {
        assert r[j] == t[j - 1] && t[j - 1] in t;
      } else {
        assert r[i] == t[i - 1] && r[j] == t[j - 1];
      }
    }
  }

  /** Places `x` into a sorted sequence. */
  function Insert(x: nat, s: seq<nat>): (r: seq<nat>)
    requires Sorted(s)
    ensures Sorted(r)
    ensures multiset(r) == multiset(s) + multiset{x}
    decreases |s|
  {
    if |s| == 0 || x <= s[0] then
      PrependSorted(x, s);
      [x] + s
    else
      var rest := Insert(x, s[1..]);
      InsertBehindHead(x, s, rest);
      [s[0]] + rest
  }

  /** When `x` goes behind the head of `s`, the head stays in front of the rest. */
  lemma InsertBehindHead(x: nat, s: seq<nat>, rest: seq<nat>)
    requires Sorted(s) && |s| > 0 && s[0] < x
    requires Sorted(rest) && multiset(rest) == multiset(s[1..]) + multiset{x}
    ensures Sorted([s[0]] + rest)
    ensures multiset([s[0]] + rest) == multiset(s) + multiset{x}
  {
    assert s == [s[0]] + s[1..];
    forall y | y in rest
      ensures s[0] <= y
    {
      assert y in multiset(rest);
      if y != x {
        assert y in multiset(s[1..]);
        var k :| 0 <= k < |s[1..]| && s[1..][k] == y;
        assert s[k + 1] == y;
      }
    }
    PrependSorted(s[0], rest);
  }

  /**
   The collector's `sort`. Only its result matters: a sorted arrangement of
   the same values, which is unique.
   */
  function Sort(s: seq<nat>): (r: seq<nat>)
    ensures Sorted(r)
    ensures multiset(r) == multiset(s)
    decreases |s|
  {
    if |s| == 0 then []
    else
      assert s == [s[0]] + s[1..];
      Insert(s[0], Sort(s[1..]))
  }

  /** `u32::to_be_bytes`: the four bytes of `x`, most significant first. */
  function ToBeBytes(x: nat): (r: seq<byte>)
    requires x <= U32Max
    ensures |r| == 4
  {
    var y := x / 0x100;
    var z := y / 0x100;
    [z / 0x100, z % 0x100, y % 0x100, x % 0x100]
  }

  /** The value of four big-endian bytes. */
  function FromBeBytes(b: seq<byte>): (x: nat)
    requires |b| == 4
    ensures x <= U32Max
  {
    var b0: nat, b1: nat, b2: nat, b3: nat := b[0], b[1], b[2], b[3];
    ((b0 * 0x100 + b1) * 0x100 + b2) * 0x100 + b3
  }

  /** Decoding the four bytes of a word gives the word back. */
  lemma BeBytesRoundTrip(x: nat)
    requires x <= U32Max
    ensures FromBeBytes(ToBeBytes(x)) == x
  {
  }

  /** Every four bytes are the encoding of the word they decode to. */
  lemma BeBytesRoundTripBack(b: seq<byte>)
    requires |b| == 4
    ensures ToBeBytes(FromBeBytes(b)) == b
  {
    var b0: nat, b1: nat, b2: nat, b3: nat := b[0], b[1], b[2], b[3];
    var z := b0 * 0x100 + b1;
    var y := z * 0x100 + b2;
    var x := y * 0x100 + b3;
    DivModUnique(x, 0x100, y, b3);
    DivModUnique(y, 0x100, z, b2);
    DivModUnique(z, 0x100, b0, b1);
  }

  /** Writes each word as four big-endian bytes, one after another. */
  function EncodeAll(xs: seq<nat>): (r: seq<byte>)
    requires AllWords(xs)
    ensures |r| == 4 * |xs|
    decreases |xs|
  {
    if |xs| == 0 then [] else ToBeBytes(xs[0]) + EncodeAll(xs[1..])
  }

  /** Reads a byte stream back as consecutive big-endian words. */
  function DecodeAll(bs: seq<byte>): (r: seq<nat>)
    requires |bs| % 4 == 0
    ensures |r| == |bs| / 4
    decreases |bs|
  {
    if |bs| == 0 then [] else [FromBeBytes(bs[..4])] + DecodeAll(bs[4..])
  }

  /** The output stream decodes to exactly the words written, in order. */
  lemma {:induction false} EncodeAllRoundTrip(xs: seq<nat>)
    requires AllWords(xs)
    ensures DecodeAll(EncodeAll(xs)) == xs
    decreases |xs|
  {
    if |xs| > 0 {
      var bs := EncodeAll(xs);
      assert bs[..4] == ToBeBytes(xs[0]);
      assert bs[4..] == EncodeAll(xs[1..]);
      BeBytesRoundTrip(xs[0]);
      EncodeAllRoundTrip(xs[1..]);
      assert xs == [xs[0]] + xs[1..];
    }
  }

  /** Every byte stream of whole words is the encoding of the words it decodes to. */
  lemma {:induction false} DecodeAllRoundTrip(bs: seq<byte>)
    requires |bs| % 4 == 0
    ensures AllWords(DecodeAll(bs))
    ensures EncodeAll(DecodeAll(bs)) == bs
    decreases |bs|
  {
    if |bs| > 0 {
      DecodeAllRoundTrip(bs[4..]);
      BeBytesRoundTripBack(bs[..4]);
      assert bs == bs[..4] + bs[4..];
      assert DecodeAll(bs)[1..] == DecodeAll(bs[4..]);
    }
  }

  /** Sorting keeps every value a word. */
  lemma SortKeepsWords(s: seq<nat>)
    requires AllWords(s)
    ensures AllWords(Sort(s))
  {
    var r := Sort(s);
    forall k | 0 <= k < |r|
      ensures r[k] <= U32Max
    {
      assert r[k] in multiset(r);
      assert r[k] in multiset(s);
      var j :| 0 <= j < |s| && s[j] == r[k];
    }
  }

  /**
   The collector: every received value, sorted, written as big-endian words.
   The result does not depend on the order in which values arrived.
   */
  function Collect(received: seq<nat>): (out: seq<byte>)
    requires AllWords(received)
    ensures |out| == 4 * |received|
    ensures Sorted(DecodeAll(out))
    ensures multiset(DecodeAll(out)) == multiset(received)
  {
    SortKeepsWords(received);
    var sorted := Sort(received);
    EncodeAllRoundTrip(sorted);
    assert |sorted| == |multiset(sorted)| == |received|;
    EncodeAll(sorted)
  }

  /** Determinism: any two arrival orders of the same values give byte-identical output. */
  lemma CollectDeterministic(a: seq<nat>, b: seq<nat>)
    requires AllWords(a) && AllWords(b)
    requires multiset(a) == multiset(b)
    ensures Collect(a) == Collect(b)
  {
    SortedDeterminedByMultiset(Sort(a), Sort(b));
  }
}
