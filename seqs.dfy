/**
 * `Array.prototype.filter` on immutable sequences, shared by the mistake list,
 * the article store, the library view and the highlight ledger.
 */
module Seqs {

  /** `xs.filter(keep)`: the elements that satisfy `keep`, in their original order. */
  function Filter<T(!new)>(xs: seq<T>, keep: T -> bool): (r: seq<T>)
    ensures |r| <= |xs|
    ensures forall x :: x in r <==> x in xs && keep(x)
  {
    if xs == [] then []
    else (if keep(xs[0]) then [xs[0]] else []) + Filter(xs[1..], keep)
  }

  /** Filtering distributes over concatenation: the survivors keep their relative order. */
  lemma {:induction false} FilterConcat<T(!new)>(a: seq<T>, b: seq<T>, keep: T -> bool)
    ensures Filter(a + b, keep) == Filter(a, keep) + Filter(b, keep)
  {
    if a == [] {
      assert a + b == b;
    } else {
      assert (a + b)[0] == a[0];
      assert (a + b)[1..] == a[1..] + b;
      FilterConcat(a[1..], b, keep);
    }
  }

  /** A filter that rejects nothing returns its input unchanged. */
  lemma {:induction false} FilterKeepsAll<T(!new)>(xs: seq<T>, keep: T -> bool)
    requires forall x :: x in xs ==> keep(x)
    ensures Filter(xs, keep) == xs
  {
    if xs != [] {
      assert xs[0] in xs;
      FilterKeepsAll(xs[1..], keep);
      assert [xs[0]] + xs[1..] == xs;
    }
  }

  /** Filtering twice by the same test is filtering once. */
  lemma FilterIdempotent<T(!new)>(xs: seq<T>, keep: T -> bool)
    ensures Filter(Filter(xs, keep), keep) == Filter(xs, keep)
  {
    FilterKeepsAll(Filter(xs, keep), keep);
  }

  /** A test and its negation split a sequence into two parts that together hold every element. */
  lemma {:induction false} FilterPartition<T(!new)>(xs: seq<T>, keep: T -> bool, reject: T -> bool)
    requires forall x :: reject(x) == !keep(x)
    ensures multiset(Filter(xs, keep)) + multiset(Filter(xs, reject)) == multiset(xs)
  {
    if xs != [] {
      var x, rest := xs[0], xs[1..];
      FilterPartition(rest, keep, reject);
      var head := if keep(x) then [x] else [];
      var other := if reject(x) then [x] else [];
      assert Filter(xs, keep) == head + Filter(rest, keep);
      assert Filter(xs, reject) == other + Filter(rest, reject);
      assert xs == [x] + rest;
      MultisetsAdd(head, Filter(rest, keep), other, Filter(rest, reject), [x], rest);
    }
  }

  /** Two splits side by side are a split of the concatenation. */
  lemma MultisetsAdd<T>(a1: seq<T>, a2: seq<T>, b1: seq<T>, b2: seq<T>, c1: seq<T>, c2: seq<T>)
    requires multiset(a1) + multiset(b1) == multiset(c1)
    requires multiset(a2) + multiset(b2) == multiset(c2)
    ensures multiset(a1 + a2) + multiset(b1 + b2) == multiset(c1 + c2)
  {
  }
}
