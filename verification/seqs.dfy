/**
 * Filtering and mapping a list in one left-to-right pass, the shape shared by
 * three loops of the client: the segment parser (keep the lines that parse),
 * the library-directory list comprehension (keep the directories that exist)
 * and the batch loop (keep the files whose recognition succeeded).
 */
module Seqs {
  import opened Wrappers

  /** The list of values of the `Some` results of `f` over `xs`, in order. */
  function FilterMap<A, B>(xs: seq<A>, f: A -> Option<B>): (ys: seq<B>)
    ensures |ys| <= |xs|
    decreases |xs|
  {
    if xs == [] then []
    else FilterMap(xs[..|xs| - 1], f) + Kept(f(xs[|xs| - 1]))
  }

  function Kept<B>(o: Option<B>): seq<B>
  {
    match o
    case None => []
    case Some(v) => [v]
  }

  /** Filtering a concatenation filters each part: an element never affects another. */
  lemma {:induction false} FilterMapAppend<A, B>(xs: seq<A>, zs: seq<A>, f: A -> Option<B>)
    ensures FilterMap(xs + zs, f) == FilterMap(xs, f) + FilterMap(zs, f)
    decreases |zs|
  {
    if zs == [] {
      assert xs + zs == xs;
    } else {
      var n := |zs| - 1;
      assert (xs + zs)[..|xs + zs| - 1] == xs + zs[..n];
      assert (xs + zs)[|xs + zs| - 1] == zs[n];
      FilterMapAppend(xs, zs[..n], f);
    }
  }

  /** One more element of a prefix adds what that element yields. */
  lemma FilterMapStep<A, B>(xs: seq<A>, i: nat, f: A -> Option<B>)
    requires i < |xs|
    ensures FilterMap(xs[..i + 1], f) == FilterMap(xs[..i], f) + Kept(f(xs[i]))
  {
    assert xs[..i + 1][..i] == xs[..i];
  }

  /** An element whose result is `None` contributes nothing and does not stop the pass. */
  lemma FilterMapSkips<A, B>(xs: seq<A>, x: A, zs: seq<A>, f: A -> Option<B>)
    requires f(x).None?
    ensures FilterMap(xs + [x] + zs, f) == FilterMap(xs, f) + FilterMap(zs, f)
  {
    FilterMapAppend(xs + [x], zs, f);
    assert (xs + [x])[..|xs|] == xs;
  }

  /** An element whose result is `Some(v)` contributes exactly `v`, in its place. */
  lemma FilterMapKeeps<A, B>(xs: seq<A>, x: A, zs: seq<A>, f: A -> Option<B>)
    requires f(x).Some?
    ensures FilterMap(xs + [x] + zs, f) == FilterMap(xs, f) + [f(x).value] + FilterMap(zs, f)
  {
    FilterMapAppend(xs + [x], zs, f);
    assert (xs + [x])[..|xs|] == xs;
  }

  /** The positions of `xs` whose result is `Some`, in increasing order. */
  ghost function KeptIndices<A, B>(xs: seq<A>, f: A -> Option<B>): seq<nat>
    decreases |xs|
  {
    if xs == [] then []
    else
      var n := |xs| - 1;
      KeptIndices(xs[..n], f) + (if f(xs[n]).Some? then [n] else [])
  }

  /**
   * `idx` and `ys` trace a filter-map of `xs` by `f`: the k-th value is the result
   * of the element at position idx[k], positions increase, and every element
   * whose result is `Some` has its position listed.
   */
  ghost predicate Traced<A, B>(xs: seq<A>, f: A -> Option<B>, idx: seq<nat>, ys: seq<B>)
  {
    && |idx| == |ys|
    && (forall k :: 0 <= k < |idx| ==> idx[k] < |xs| && f(xs[idx[k]]) == Some(ys[k]))
    && (forall k, l :: 0 <= k < l < |idx| ==> idx[k] < idx[l])
    && (forall i :: 0 <= i < |xs| && f(xs[i]).Some? ==> i in idx)
  }

  /**
   * FilterMap keeps one value per element whose result is `Some` and nothing else,
   * in the elements' order: the k-th value is the result of the k-th such element.
   */
  lemma {:induction false} FilterMapTrace<A, B>(xs: seq<A>, f: A -> Option<B>)
    ensures Traced(xs, f, KeptIndices(xs, f), FilterMap(xs, f))
    decreases |xs|
  {
    if xs != [] {
      var pre := xs[..|xs| - 1];
      FilterMapTrace(pre, f);
      if f(xs[|xs| - 1]).Some? {
        KeptLast(xs, f);
      } else {
        SkippedLast(xs, f);
      }
    }
  }

  /** The trace step for a last element that is kept. */
  lemma KeptLast<A, B>(xs: seq<A>, f: A -> Option<B>)
    requires xs != [] && f(xs[|xs| - 1]).Some?
    requires var pre := xs[..|xs| - 1]; Traced(pre, f, KeptIndices(pre, f), FilterMap(pre, f))
    ensures Traced(xs, f, KeptIndices(xs, f), FilterMap(xs, f))
  {
    var n := |xs| - 1;
    var pre := xs[..n];
    var idx0, ys0 := KeptIndices(pre, f), FilterMap(pre, f);
    var idx, ys := KeptIndices(xs, f), FilterMap(xs, f);
    assert idx == idx0 + [n];
    assert ys == ys0 + [f(xs[n]).value];
    assert forall i :: 0 <= i < n ==> xs[i] == pre[i];
    forall k | 0 <= k < |idx| ensures idx[k] < |xs| && f(xs[idx[k]]) == Some(ys[k]) {
      if k < |idx0| {
        assert idx[k] == idx0[k] && ys[k] == ys0[k];
      }
    }
    forall i | 0 <= i < |xs| && f(xs[i]).Some? ensures i in idx {
      if i < n {
        assert i in idx0;
      }
    }
  }

  /** The trace step for a last element that is skipped. */
  lemma SkippedLast<A, B>(xs: seq<A>, f: A -> Option<B>)
    requires xs != [] && f(xs[|xs| - 1]).None?
    requires var pre := xs[..|xs| - 1]; Traced(pre, f, KeptIndices(pre, f), FilterMap(pre, f))
    ensures Traced(xs, f, KeptIndices(xs, f), FilterMap(xs, f))
  {
    var n := |xs| - 1;
    var pre := xs[..n];
    var idx, ys := KeptIndices(xs, f), FilterMap(xs, f);
    assert idx == KeptIndices(pre, f);
    assert ys == FilterMap(pre, f);
    forall k | 0 <= k < |idx| ensures idx[k] < |xs| && f(xs[idx[k]]) == Some(ys[k]) {
      assert xs[idx[k]] == pre[idx[k]];
    }
    forall i | 0 <= i < |xs| && f(xs[i]).Some? ensures i in idx {
      assert i < n && xs[i] == pre[i];
    }
  }
}
