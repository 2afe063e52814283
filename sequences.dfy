/**
 * Facts about sequences that the quote store relies on: the first
 * occurrence of a value, duplicate-free sequences, the first-seen
 * de-duplication that spreading a JavaScript `Set` performs, and
 * order-preserving subsequences (what `Array.prototype.filter` returns).
 */
module Sequences {

  ghost predicate NoDuplicates<T>(xs: seq<T>)
  {
    forall i, j :: 0 <= i < j < |xs| ==> xs[i] != xs[j]
  }

  /** The position of the first occurrence of `x` in `xs`. */
  function FirstIndex<T(==)>(xs: seq<T>, x: T): (k: nat)
    requires x in xs
    ensures k < |xs| && xs[k] == x
    ensures forall j :: 0 <= j < k ==> xs[j] != x
  {
    FirstIndexFrom(xs, x, 0)
  }

  /** The first position at or after `i` that holds `x`. */
  function FirstIndexFrom<T(==)>(xs: seq<T>, x: T, i: nat): (k: nat)
    requires i <= |xs| && exists j :: i <= j < |xs| && xs[j] == x
    ensures i <= k < |xs| && xs[k] == x
    ensures forall j :: i <= j < k ==> xs[j] != x
    decreases |xs| - i
  {
    if xs[i] == x then i else FirstIndexFrom(xs, x, i + 1)
  }

  /**
   * Each value of `xs` once, in the order of its first occurrence: the
   * insertion order of a JavaScript `Set` built from `xs`. Elements are
   * added in turn, and one already present is skipped.
   */
  function Distinct<T(==)>(xs: seq<T>): seq<T>
  {
    if xs == [] then []
    else
      var d := Distinct(xs[..|xs| - 1]);
      var x := xs[|xs| - 1];
      if x in d then d else d + [x]
  }

  /** What spreading a `Set` promises: the values of `xs`, each once,
      ordered by where they first occur in `xs`. */
  lemma DistinctSpec<T>(xs: seq<T>)
    ensures NoDuplicates(Distinct(xs))
    ensures forall i :: 0 <= i < |Distinct(xs)| ==> Distinct(xs)[i] in xs
    ensures forall i :: 0 <= i < |xs| ==> xs[i] in Distinct(xs)
    ensures forall i, j :: 0 <= i < j < |Distinct(xs)| ==>
              FirstIndex(xs, Distinct(xs)[i]) < FirstIndex(xs, Distinct(xs)[j])
  {
    DistinctNoDuplicates(xs);
    DistinctMembers(xs);
    DistinctOrder(xs);
  }

  lemma {:induction false} DistinctNoDuplicates<T>(xs: seq<T>)
    ensures NoDuplicates(Distinct(xs))
  {
    if xs != [] {
      DistinctNoDuplicates(xs[..|xs| - 1]);
    }
  }

  lemma {:induction false} DistinctMembers<T>(xs: seq<T>)
    ensures forall i :: 0 <= i < |Distinct(xs)| ==> Distinct(xs)[i] in xs
    ensures forall i :: 0 <= i < |xs| ==> xs[i] in Distinct(xs)
  {
    if xs != [] {
      var init, x := xs[..|xs| - 1], xs[|xs| - 1];
      DistinctMembers(init);
      assert xs == init + [x];
      forall i | 0 <= i < |xs| ensures xs[i] in Distinct(xs) {
        if i < |init| { assert xs[i] == init[i]; }
      }
    }
  }

  lemma {:induction false} DistinctOrder<T>(xs: seq<T>)
    ensures forall i :: 0 <= i < |Distinct(xs)| ==> Distinct(xs)[i] in xs
    ensures forall i, j :: 0 <= i < j < |Distinct(xs)| ==>
              FirstIndex(xs, Distinct(xs)[i]) < FirstIndex(xs, Distinct(xs)[j])
  {
    if xs != [] {
      var init, x := xs[..|xs| - 1], xs[|xs| - 1];
      DistinctOrder(init);
      DistinctMembers(init);
      assert xs == init + [x];
      DistinctOrderStep(init, x, Distinct(init), Distinct(xs));
    }
  }

  /** One step of DistinctOrder: `x` is appended to the distinct values
      `d` of `init` when it is new, and the order by first occurrence
      carries over from `init` to `init + [x]`. */
  lemma DistinctOrderStep<T>(init: seq<T>, x: T, d: seq<T>, e: seq<T>)
    requires e == if x in d then d else d + [x]
    requires forall i :: 0 <= i < |d| ==> d[i] in init
    requires forall i :: 0 <= i < |init| ==> init[i] in d
    requires forall i, j :: 0 <= i < j < |d| ==> FirstIndex(init, d[i]) < FirstIndex(init, d[j])
    ensures forall i :: 0 <= i < |e| ==> e[i] in init + [x]
    ensures forall i, j :: 0 <= i < j < |e| ==> FirstIndex(init + [x], e[i]) < FirstIndex(init + [x], e[j])
  {
    var xs := init + [x];
    // A value of `init` is first found at the same place in `xs`.
    forall i | 0 <= i < |d| ensures FirstIndex(xs, d[i]) == FirstIndex(init, d[i]) {
      var a, b := FirstIndex(xs, d[i]), FirstIndex(init, d[i]);
      assert xs[b] == d[i];
      assert a < |init| ==> xs[a] == init[a];
    }
    // A new value is first found at the end.
    if x !in d {
      assert forall j :: 0 <= j < |init| ==> xs[j] == init[j];
      assert FirstIndex(xs, x) == |init|;
    }
    forall i, j | 0 <= i < j < |e|
      ensures FirstIndex(xs, e[i]) < FirstIndex(xs, e[j])
    {
      assert e[i] == d[i];
      if j < |d| { assert e[j] == d[j]; } else { assert e[j] == x; }
    }
  }

  /** Adding a value to a `Set` appends it unless it is already there. */
  lemma DistinctAdd<T>(xs: seq<T>, x: T)
    ensures Distinct(xs + [x]) == if x in Distinct(xs) then Distinct(xs) else Distinct(xs) + [x]
  {
  }

  /** Appending never reorders or drops the distinct values seen so far:
      they stay a prefix of the longer sequence's distinct values. */
  lemma {:induction false} DistinctExtends<T>(xs: seq<T>, ys: seq<T>)
    ensures |Distinct(xs)| <= |Distinct(xs + ys)|
    ensures Distinct(xs + ys)[..|Distinct(xs)|] == Distinct(xs)
  {
    if ys == [] {
      assert xs + ys == xs;
    } else {
      var ys' := ys[..|ys| - 1];
      var zs, zs' := xs + ys, xs + ys';
      var x := ys[|ys| - 1];
      assert zs == zs' + [x];
      DistinctExtends(xs, ys');
      DistinctAdd(zs', x);
      var n, d := |Distinct(xs)|, Distinct(zs');
      assert (d + [x])[..n] == d[..n];
    }
  }

  /** `r` can be obtained from `s` by deleting elements, keeping order. */
  predicate IsSubsequence<T(==)>(r: seq<T>, s: seq<T>)
    decreases |s|
  {
    if r == [] then true
    else if s == [] then false
    else if r[0] == s[0] then IsSubsequence(r[1..], s[1..])
    else IsSubsequence(r, s[1..])
  }

  /** A subsequence takes no element more often than the sequence has it. */
  lemma {:induction false} SubsequenceMultiset<T>(r: seq<T>, s: seq<T>)
    requires IsSubsequence(r, s)
    ensures multiset(r) <= multiset(s)
    decreases |s|
  {
    if r != [] {
      assert s == [s[0]] + s[1..];
      if r[0] == s[0] {
        SubsequenceMultiset(r[1..], s[1..]);
        assert r == [r[0]] + r[1..];
      } else {
        SubsequenceMultiset(r, s[1..]);
      }
    }
  }
}
