/** Sequence vocabulary shared by the work generator: index ranges, mapping,
    concatenation, and the facts about them that the generator's proofs use
    (lengths, indexing into uniform blocks, permutation invariance). */
module Seqs {

  /** `0..n` collected into a vector. */
  function Range(n: nat): (r: seq<nat>)
    ensures |r| == n && forall k :: 0 <= k < n ==> r[k] == k
  {
    seq(n, k requires 0 <= k < n => k)
  }

  /** `(0..n).rev()` collected into a vector. */
  function RevRange(n: nat): (r: seq<nat>)
    ensures |r| == n && forall k :: 0 <= k < n ==> r[k] == n - 1 - k
  {
    seq(n, k requires 0 <= k < n => n - 1 - k)
  }

  function Map<A, B>(f: A -> B, xs: seq<A>): (r: seq<B>)
    ensures |r| == |xs| && forall k :: 0 <= k < |xs| ==> r[k] == f(xs[k])
  {
    seq(|xs|, k requires 0 <= k < |xs| => f(xs[k]))
  }

  /** The blocks one after the other. */
  function Concat<T>(xss: seq<seq<T>>): seq<T> {
    if xss == [] then [] else Concat(xss[..|xss| - 1]) + xss[|xss| - 1]
  }

  ghost predicate IsPermutation<T>(a: seq<T>, b: seq<T>) {
    multiset(a) == multiset(b)
  }

  lemma RangeSnoc(n: nat)
    ensures Range(n + 1) == Range(n) + [n]
    ensures RevRange(n + 1) == [n] + RevRange(n)
  {
  }

  /** Reversing `0..n` permutes it. */
  lemma {:induction false} RevRangeIsPermutation(n: nat)
    ensures IsPermutation(RevRange(n), Range(n))
  {
    if n > 0 {
      RevRangeIsPermutation(n - 1);
      RangeSnoc(n - 1);
    }
  }

  lemma MapSnoc<A, B>(f: A -> B, xs: seq<A>, x: A)
    ensures Map(f, xs + [x]) == Map(f, xs) + [f(x)]
  {
  }

  lemma MapAppend<A, B>(f: A -> B, xs: seq<A>, ys: seq<A>)
    ensures Map(f, xs + ys) == Map(f, xs) + Map(f, ys)
  {
  }

  lemma ConcatSnoc<T>(xss: seq<seq<T>>, xs: seq<T>)
    ensures Concat(xss + [xs]) == Concat(xss) + xs
  {
    assert (xss + [xs])[..|xss|] == xss;
  }

  lemma {:induction false} ConcatAppend<T>(xss: seq<seq<T>>, yss: seq<seq<T>>)
    ensures Concat(xss + yss) == Concat(xss) + Concat(yss)
    decreases |yss|
  {
    if yss == [] {
      assert xss + yss == xss;
    } else {
      var init := yss[..|yss| - 1];
      var last := yss[|yss| - 1];
      assert yss == init + [last];
      assert xss + yss == (xss + init) + [last];
      ConcatAppend(xss, init);
      ConcatSnoc(xss + init, last);
      ConcatSnoc(init, last);
    }
  }

  /** Blocks of a common length `n` give `|xss| * n` elements. */
  lemma {:induction false} ConcatUniformLength<T>(xss: seq<seq<T>>, n: nat)
    requires forall i :: 0 <= i < |xss| ==> |xss[i]| == n
    ensures |Concat(xss)| == |xss| * n
  {
    if xss != [] {
      var k := |xss| - 1;
      ConcatUniformLength(xss[..k], n);
      assert |xss| * n == k * n + n by {
        assert |xss| == k + 1;
      }
    }
  }

  /** In blocks of a common length `n`, element `j` of block `k` sits at
      index `k * n + j`. */
  lemma {:induction false} ConcatUniformIndex<T>(xss: seq<seq<T>>, n: nat, k: nat, j: nat)
    requires forall i :: 0 <= i < |xss| ==> |xss[i]| == n
    requires k < |xss| && j < n
    ensures k * n + j < |Concat(xss)| && Concat(xss)[k * n + j] == xss[k][j]
  {
    var init := xss[..|xss| - 1];
    ConcatUniformLength(init, n);
    ConcatUniformLength(xss, n);
    if k < |xss| - 1 {
      ConcatUniformIndex(init, n, k, j);
      MulLess(k, n, j, |xss| - 1);
    }
  }

  /** In blocks of a common length `n`, block `k` is the slice
      `[k * n, k * n + n)`. */
  lemma ConcatUniformSlice<T>(xss: seq<seq<T>>, n: nat, k: nat)
    requires forall i :: 0 <= i < |xss| ==> |xss[i]| == n
    requires k < |xss|
    ensures k * n + n <= |Concat(xss)| && Concat(xss)[k * n..k * n + n] == xss[k]
  {
    ConcatUniformLength(xss, n);
    MulLessEq(k, n, |xss|);
    forall j | 0 <= j < n
      ensures Concat(xss)[k * n..k * n + n][j] == xss[k][j]
    {
      ConcatUniformIndex(xss, n, k, j);
    }
  }

  /** `ConcatUniformSlice` for every block at once. */
  lemma ConcatUniformSlices<T>(xss: seq<seq<T>>, n: nat)
    requires forall i :: 0 <= i < |xss| ==> |xss[i]| == n
    ensures |Concat(xss)| == |xss| * n
    ensures forall k: nat :: k < |xss| ==> k * n + n <= |Concat(xss)| && Concat(xss)[k * n..k * n + n] == xss[k]
  {
    ConcatUniformLength(xss, n);
    forall k: nat | k < |xss|
      ensures k * n + n <= |Concat(xss)| && Concat(xss)[k * n..k * n + n] == xss[k]
    {
      ConcatUniformSlice(xss, n, k);
    }
  }

  lemma MulLess(k: nat, n: nat, j: nat, m: nat)
    requires k < m && j < n
    ensures k * n + j < m * n
  {
    MulLessEq(k, n, m);
  }

  lemma MulLessEq(k: nat, n: nat, m: nat)
    requires k < m
    ensures k * n + n <= m * n
  {
    var d: nat := m - k - 1;
    var dn: nat := d * n;
    assert m * n == k * n + n + dn by {
      assert m == k + 1 + d;
    }
  }

  /** Removing one element from a permutation of `a + [x]`. */
  lemma PermutationSplit<T>(a: seq<T>, x: T, b: seq<T>) returns (p: nat)
    requires IsPermutation(a + [x], b)
    ensures p < |b| && b[p] == x
    ensures b == b[..p] + [x] + b[p + 1..]
    ensures IsPermutation(a, b[..p] + b[p + 1..])
  {
    assert x in multiset(a + [x]);
    assert x in b;
    p :| 0 <= p < |b| && b[p] == x;
    assert b == b[..p] + [x] + b[p + 1..];
    calc {
      multiset(a) + multiset{x};
      multiset(a + [x]);
      multiset(b);
      multiset(b[..p] + [x] + b[p + 1..]);
      multiset(b[..p] + b[p + 1..]) + multiset{x};
    }
    assert multiset(a) == (multiset(a) + multiset{x}) - multiset{x};
    assert multiset(b[..p] + b[p + 1..]) == (multiset(b[..p] + b[p + 1..]) + multiset{x}) - multiset{x};
  }

  /** Mapping a permutation gives a permutation. */
  lemma {:induction false} MapPermutation<A, B>(f: A -> B, xs: seq<A>, ys: seq<A>)
    requires IsPermutation(xs, ys)
    ensures IsPermutation(Map(f, xs), Map(f, ys))
    decreases |xs|
  {
    if xs == [] {
      assert ys == [];
    } else {
      var init, last := xs[..|xs| - 1], xs[|xs| - 1];
      assert xs == init + [last];
      var p := PermutationSplit(init, last, ys);
      var rest := ys[..p] + ys[p + 1..];
      MapPermutation(f, init, rest);
      MapSnoc(f, init, last);
      MapAppend(f, ys[..p], ys[p + 1..]);
      MapAppend(f, ys[..p] + [last], ys[p + 1..]);
      MapSnoc(f, ys[..p], last);
    }
  }

  /** Concatenating a permutation of the blocks permutes the elements. */
  lemma {:induction false} ConcatPermutation<T>(xss: seq<seq<T>>, yss: seq<seq<T>>)
    requires IsPermutation(xss, yss)
    ensures IsPermutation(Concat(xss), Concat(yss))
    decreases |xss|
  {
    if xss == [] {
      assert yss == [];
    } else {
      var init, last := xss[..|xss| - 1], xss[|xss| - 1];
      assert xss == init + [last];
      var p := PermutationSplit(init, last, yss);
      ConcatPermutation(init, yss[..p] + yss[p + 1..]);
      ConcatAppend(yss[..p], yss[p + 1..]);
      ConcatAppend(yss[..p] + [last], yss[p + 1..]);
      ConcatSnoc(yss[..p], last);
    }
  }

  /** Permuting inside each block permutes the elements. */
  lemma {:induction false} ConcatPointwisePermutation<T>(xss: seq<seq<T>>, yss: seq<seq<T>>)
    requires |xss| == |yss|
    requires forall i :: 0 <= i < |xss| ==> IsPermutation(xss[i], yss[i])
    ensures IsPermutation(Concat(xss), Concat(yss))
  {
    if xss != [] {
      ConcatPointwisePermutation(xss[..|xss| - 1], yss[..|yss| - 1]);
    }
  }
}
