/** Python's filtering list comprehension `[f(x) for x in xs if keep(f(x))]`, the
    shape of both the block list and the row list of the parser. */
module Seqs {

  function FilterMap<T, U>(xs: seq<T>, f: T -> U, keep: U -> bool): (r: seq<U>)
    ensures |r| <= |xs|
    ensures forall k :: 0 <= k < |r| ==> keep(r[k])
    decreases |xs|
  {
    if xs == [] then []
    else (if keep(f(xs[0])) then [f(xs[0])] else []) + FilterMap(xs[1..], f, keep)
  }

  /** Positions, counted from `base`, of the elements that the comprehension keeps. */
  function KeptIndices<T, U>(xs: seq<T>, f: T -> U, keep: U -> bool, base: nat): seq<nat>
    decreases |xs|
  {
    if xs == [] then []
    else (if keep(f(xs[0])) then [base] else []) + KeptIndices(xs[1..], f, keep, base + 1)
  }

  predicate StrictlyIncreasing(idx: seq<nat>) {
    forall i, j :: 0 <= i < j < |idx| ==> idx[i] < idx[j]
  }

  /** The comprehension yields, for each kept position, the image of that element. */
  lemma {:induction false} FilterMapImages<T, U>(xs: seq<T>, f: T -> U, keep: U -> bool, base: nat)
    ensures |KeptIndices(xs, f, keep, base)| == |FilterMap(xs, f, keep)|
    ensures forall k :: 0 <= k < |KeptIndices(xs, f, keep, base)| ==>
      var i := KeptIndices(xs, f, keep, base)[k];
      base <= i < base + |xs| && FilterMap(xs, f, keep)[k] == f(xs[i - base])
    decreases |xs|
  {
    if xs != [] {
      var r' := FilterMap(xs[1..], f, keep);
      var idx' := KeptIndices(xs[1..], f, keep, base + 1);
      FilterMapImages(xs[1..], f, keep, base + 1);
      var r := FilterMap(xs, f, keep);
      var idx := KeptIndices(xs, f, keep, base);
      var hr: seq<U> := if keep(f(xs[0])) then [f(xs[0])] else [];
      var h: seq<nat> := if keep(f(xs[0])) then [base] else [];
      assert r == hr + r';
      assert idx == h + idx';
      forall k | 0 <= k < |idx| ensures base <= idx[k] < base + |xs| && r[k] == f(xs[idx[k] - base]) {
        if k >= |h| {
          assert idx[k] == idx'[k - |h|] && r[k] == r'[k - |h|];
          assert xs[1..][idx'[k - |h|] - (base + 1)] == xs[idx[k] - base];
        }
      }
    }
  }

  /** The kept positions are in input order and lie in `[base, base + |xs|)`. */
  lemma {:induction false} KeptIndicesOrdered<T, U>(xs: seq<T>, f: T -> U, keep: U -> bool, base: nat)
    ensures StrictlyIncreasing(KeptIndices(xs, f, keep, base))
    ensures forall i :: i in KeptIndices(xs, f, keep, base) ==> base <= i < base + |xs|
    decreases |xs|
  {
    if xs != [] {
      var idx' := KeptIndices(xs[1..], f, keep, base + 1);
      KeptIndicesOrdered(xs[1..], f, keep, base + 1);
      var idx := KeptIndices(xs, f, keep, base);
      var h: seq<nat> := if keep(f(xs[0])) then [base] else [];
      assert idx == h + idx';
      forall i, j | 0 <= i < j < |idx| ensures idx[i] < idx[j] {
        assert idx[j] == idx'[j - |h|];
        if i >= |h| {
          assert idx[i] == idx'[i - |h|];
        } else {
          assert idx'[j - |h|] in idx';
        }
      }
    }
  }

  /** Exactly the elements whose image passes `keep` are kept. */
  lemma {:induction false} KeptIndicesComplete<T, U>(xs: seq<T>, f: T -> U, keep: U -> bool, base: nat)
    ensures forall j :: 0 <= j < |xs| ==> (keep(f(xs[j])) <==> base + j in KeptIndices(xs, f, keep, base))
    decreases |xs|
  {
    if xs != [] {
      var idx' := KeptIndices(xs[1..], f, keep, base + 1);
      KeptIndicesComplete(xs[1..], f, keep, base + 1);
      KeptIndicesOrdered(xs[1..], f, keep, base + 1);
      var idx := KeptIndices(xs, f, keep, base);
      var h: seq<nat> := if keep(f(xs[0])) then [base] else [];
      assert idx == h + idx';
      forall j | 0 <= j < |xs| ensures keep(f(xs[j])) <==> base + j in idx {
        if j > 0 {
          assert xs[j] == xs[1..][j - 1];
          assert base + j in idx <==> base + j in idx';
        } else {
          assert base !in idx';
        }
      }
    }
  }

  /** When every image passes `keep`, nothing is dropped. */
  lemma {:induction false} FilterMapAllKept<T, U>(xs: seq<T>, f: T -> U, keep: U -> bool)
    requires forall k :: 0 <= k < |xs| ==> keep(f(xs[k]))
    ensures |FilterMap(xs, f, keep)| == |xs|
    decreases |xs|
  {
    if xs != [] {
      assert keep(f(xs[0]));
      assert forall k :: 0 <= k < |xs[1..]| ==> xs[1..][k] == xs[k + 1];
      FilterMapAllKept(xs[1..], f, keep);
    }
  }

  /** Extending the input by one element extends the result by its image when kept. */
  lemma {:induction false} FilterMapSnoc<T, U>(xs: seq<T>, x: T, f: T -> U, keep: U -> bool)
    ensures FilterMap(xs + [x], f, keep) == FilterMap(xs, f, keep) + (if keep(f(x)) then [f(x)] else [])
    decreases |xs|
  {
    if xs == [] {
      assert xs + [x] == [x];
      assert [x][1..] == [];
    } else {
      assert (xs + [x])[0] == xs[0];
      assert (xs + [x])[1..] == xs[1..] + [x];
      FilterMapSnoc(xs[1..], x, f, keep);
    }
  }

  /** The result for a prefix one element longer. */
  lemma FilterMapPrefix<T, U>(xs: seq<T>, i: nat, f: T -> U, keep: U -> bool)
    requires i < |xs|
    ensures FilterMap(xs[..i + 1], f, keep) == FilterMap(xs[..i], f, keep) + (if keep(f(xs[i])) then [f(xs[i])] else [])
  {
    assert xs[..i + 1] == xs[..i] + [xs[i]];
    FilterMapSnoc(xs[..i], xs[i], f, keep);
  }
}
