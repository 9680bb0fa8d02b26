/** Sums of sequences of integers: what the writer accumulates. */
module Sums {

  /** The sum of `s`, added up front to back as the writer receives values. */
  function SeqSum(s: seq<int>): int {
    if s == [] then 0 else SeqSum(s[..|s| - 1]) + s[|s| - 1]
  }

  /** Summing a concatenation sums the parts. */
  lemma {:induction false} SeqSumConcat(a: seq<int>, b: seq<int>)
    ensures SeqSum(a + b) == SeqSum(a) + SeqSum(b)
    decreases |b|
  {
    if b == [] {
      assert a + b == a;
    } else {
      var b' := b[..|b| - 1];
      assert (a + b)[..|a + b| - 1] == a + b';
      SeqSumConcat(a, b');
    }
  }

  /** The sum does not depend on the order of the values: two sequences with the
      same elements, counted with multiplicity, have the same sum. */
  lemma {:induction false} SeqSumPermutation(a: seq<int>, b: seq<int>)
    requires multiset(a) == multiset(b)
    ensures SeqSum(a) == SeqSum(b)
    decreases |a|
  {
    if a == [] {
      assert |b| == |multiset(b)|;
    } else {
      var x, a' := a[|a| - 1], a[..|a| - 1];
      assert a == a' + [x];
      assert x in multiset(b);
      var j :| 0 <= j < |b| && b[j] == x;
      var b1, b2 := b[..j], b[j + 1..];
      assert b == b1 + [x] + b2;
      CancelOne(a', x, b1, b2);
      SeqSumPermutation(a', b1 + b2);
      SumWithout(b1, x, b2);
    }
  }

  /** Taking the same element out of two equal multisets leaves equal multisets. */
  lemma CancelOne(a: seq<int>, x: int, b1: seq<int>, b2: seq<int>)
    requires multiset(a + [x]) == multiset(b1 + [x] + b2)
    ensures multiset(a) == multiset(b1 + b2)
  {
    calc {
      multiset(a);
      multiset(a + [x]) - multiset{x};
      multiset(b1 + [x] + b2) - multiset{x};
      { assert multiset(b1 + [x] + b2) == multiset(b1) + multiset(b2) + multiset{x}; }
      multiset(b1) + multiset(b2);
      multiset(b1 + b2);
    }
  }

  /** Taking one value out of the middle of a sequence takes it out of the sum. */
  lemma SumWithout(b1: seq<int>, x: int, b2: seq<int>)
    ensures SeqSum(b1 + [x] + b2) == SeqSum(b1 + b2) + x
  {
    SeqSumConcat(b1 + [x], b2);
    SeqSumConcat(b1, [x]);
    SeqSumConcat(b1, b2);
    assert SeqSum([x]) == x by {
      assert [x][..0] == [];
    }
  }
}
