/**
 The candidates of the alignment search: every ordering of a sequence of
 component indices, listed in the order in which Python's
 `itertools.permutations` yields them. For `range(n)` that order is the
 lexicographic one, and the orderings are exactly the permutations of
 0 .. n - 1.
 */
module Permutations {
  import opened Sequences

  /** A bijection of 0 .. n - 1, written as the tuple of its images. */
  predicate IsPermutation(p: seq<nat>, n: nat) {
    |p| == n && Distinct(p) && forall i :: 0 <= i < |p| ==> p[i] < n
  }

  /** `xs` without the element at position k. */
  function RemoveAt(xs: seq<nat>, k: nat): (r: seq<nat>)
    requires k < |xs|
    ensures |r| == |xs| - 1
    ensures forall i :: 0 <= i < |r| ==> r[i] == if i < k then xs[i] else xs[i + 1]
  {
    xs[..k] + xs[k + 1..]
  }

  function Prefixed(x: nat, ps: seq<seq<nat>>): (r: seq<seq<nat>>)
    ensures |r| == |ps|
    ensures forall i :: 0 <= i < |ps| ==> r[i] == [x] + ps[i]
  {
    seq(|ps|, i requires 0 <= i < |ps| => [x] + ps[i])
  }

  /**
   The orderings of `xs` as `itertools.permutations(xs)` yields them: the
   first position runs through xs[0], xs[1], ..., and for each choice the
   orderings of the remaining elements follow.
   */
  function Orderings(xs: seq<nat>): seq<seq<nat>>
    decreases |xs|, 1, 0
  {
    if |xs| == 0 then [[]] else OrderingsFrom(xs, 0)
  }

  /** The orderings of `xs` whose first element is one of xs[k..]. */
  function OrderingsFrom(xs: seq<nat>, k: nat): seq<seq<nat>>
    requires k <= |xs|
    decreases |xs|, 0, |xs| - k
  {
    if k == |xs| then []
    else Prefixed(xs[k], Orderings(RemoveAt(xs, k))) + OrderingsFrom(xs, k + 1)
  }

  lemma RemoveAtFacts(xs: seq<nat>, k: nat)
    requires k < |xs|
    ensures forall x :: x in RemoveAt(xs, k) ==> x in xs
    ensures forall i :: 0 <= i < |xs| && i != k ==> xs[i] in RemoveAt(xs, k)
    ensures Distinct(xs) ==> Distinct(RemoveAt(xs, k)) && xs[k] !in RemoveAt(xs, k)
    ensures StrictlyIncreasing(xs) ==> StrictlyIncreasing(RemoveAt(xs, k))
  {
    var r := RemoveAt(xs, k);
    forall i | 0 <= i < |xs| && i != k ensures xs[i] in r {
      if i < k { assert r[i] == xs[i]; } else { assert r[i - 1] == xs[i]; }
    }
  }

  /** Every listed ordering uses each element of `xs` once. */
  lemma {:induction false} OrderingsSound(xs: seq<nat>, p: seq<nat>)
    requires p in Orderings(xs)
    ensures |p| == |xs|
    ensures forall i :: 0 <= i < |p| ==> p[i] in xs
    ensures Distinct(xs) ==> Distinct(p)
    decreases |xs|, 1, 0
  {
    if |xs| > 0 {
      OrderingsFromSound(xs, 0, p);
    }
  }

  lemma {:induction false} OrderingsFromSound(xs: seq<nat>, k: nat, p: seq<nat>)
    requires k <= |xs| && p in OrderingsFrom(xs, k)
    ensures |p| == |xs|
    ensures forall i :: 0 <= i < |p| ==> p[i] in xs
    ensures Distinct(xs) ==> Distinct(p)
    decreases |xs|, 0, |xs| - k
  {
    var rest := RemoveAt(xs, k);
    var block := Prefixed(xs[k], Orderings(rest));
    if p in block {
      var m :| 0 <= m < |block| && block[m] == p;
      var q := Orderings(rest)[m];
      OrderingsSound(rest, q);
      RemoveAtFacts(xs, k);
      assert p == [xs[k]] + q;
      forall i | 0 <= i < |p| ensures p[i] in xs {
        if i > 0 { assert p[i] == q[i - 1]; }
      }
    } else {
      OrderingsFromSound(xs, k + 1, p);
    }
  }

  /** `p` lists the elements of `xs`, each once. */
  predicate IsArrangement(p: seq<nat>, xs: seq<nat>) {
    |p| == |xs| && Distinct(p) && forall i :: 0 <= i < |p| ==> p[i] in xs
  }

  /** Every ordering of `xs` is listed. */
  lemma {:induction false} OrderingsComplete(xs: seq<nat>, p: seq<nat>)
    requires Distinct(xs) && IsArrangement(p, xs)
    ensures p in Orderings(xs)
    decreases |xs|
  {
    if |xs| == 0 {
      assert p == [];
    } else {
      assert p[0] in xs;
      var j :| 0 <= j < |xs| && xs[j] == p[0];
      var rest, q := RemoveAt(xs, j), p[1..];
      TailInRest(xs, p, j);
      OrderingsComplete(rest, q);
      ChosenHeadListed(xs, j, q);
      assert p == [xs[j]] + q;
    }
  }

  /** After the first element, an ordering of `xs` is an ordering of the rest. */
  lemma TailInRest(xs: seq<nat>, p: seq<nat>, j: nat)
    requires Distinct(xs) && IsArrangement(p, xs)
    requires j < |xs| && xs[j] == p[0]
    ensures Distinct(RemoveAt(xs, j)) && IsArrangement(p[1..], RemoveAt(xs, j))
  {
    RemoveAtFacts(xs, j);
    forall i | 0 <= i < |p| - 1 ensures p[1..][i] in RemoveAt(xs, j) {
      assert p[1..][i] == p[i + 1] != p[0];
      var m :| 0 <= m < |xs| && xs[m] == p[i + 1];
    }
  }

  lemma ChosenHeadListed(xs: seq<nat>, j: nat, q: seq<nat>)
    requires j < |xs| && q in Orderings(RemoveAt(xs, j))
    ensures [xs[j]] + q in Orderings(xs)
  {
    var rest := Orderings(RemoveAt(xs, j));
    var idx :| 0 <= idx < |rest| && rest[idx] == q;
    assert Prefixed(xs[j], rest)[idx] == [xs[j]] + q;
    BlockInFrom(xs, 0, j, [xs[j]] + q);
  }

  lemma {:induction false} BlockInFrom(xs: seq<nat>, k: nat, j: nat, p: seq<nat>)
    requires k <= j < |xs|
    requires p in Prefixed(xs[j], Orderings(RemoveAt(xs, j)))
    ensures p in OrderingsFrom(xs, k)
    decreases j - k
  {
    if k < j {
      BlockInFrom(xs, k + 1, j, p);
    }
  }

  /** Listed in strictly increasing order, when `xs` is. */
  predicate Sorted(ps: seq<seq<nat>>) {
    forall i, j :: 0 <= i < j < |ps| ==> LexLess(ps[i], ps[j])
  }

  lemma PrefixedSorted(x: nat, ps: seq<seq<nat>>)
    requires Sorted(ps)
    ensures Sorted(Prefixed(x, ps))
  {
    var r := Prefixed(x, ps);
    forall i, j | 0 <= i < j < |r| ensures LexLess(r[i], r[j]) {
      assert r[i][1..] == ps[i] && r[j][1..] == ps[j];
    }
  }

  lemma ConcatSorted(a: seq<seq<nat>>, b: seq<seq<nat>>)
    requires Sorted(a) && Sorted(b)
    requires forall x, y :: x in a && y in b ==> LexLess(x, y)
    ensures Sorted(a + b)
  {
    var c := a + b;
    forall i, j | 0 <= i < j < |c| ensures LexLess(c[i], c[j]) {
      if j < |a| {
        assert c[i] == a[i] && c[j] == a[j];
      } else if i < |a| {
        assert c[i] in a && c[j] in b;
      } else {
        assert c[i] == b[i - |a|] && c[j] == b[j - |a|];
      }
    }
  }

  lemma {:induction false} OrderingsSorted(xs: seq<nat>)
    requires StrictlyIncreasing(xs)
    ensures Sorted(Orderings(xs))
    decreases |xs|, 1, 0
  {
    if |xs| > 0 {
      OrderingsFromSorted(xs, 0);
    }
  }

  lemma {:induction false} OrderingsFromSorted(xs: seq<nat>, k: nat)
    requires StrictlyIncreasing(xs) && k <= |xs|
    ensures Sorted(OrderingsFrom(xs, k))
    ensures forall p :: p in OrderingsFrom(xs, k) ==> k < |xs| && |p| > 0 && xs[k] <= p[0]
    decreases |xs|, 0, |xs| - k
  {
    if k < |xs| {
      var rest := RemoveAt(xs, k);
      RemoveAtFacts(xs, k);
      OrderingsSorted(rest);
      OrderingsFromSorted(xs, k + 1);
      var block := Prefixed(xs[k], Orderings(rest));
      var tail := OrderingsFrom(xs, k + 1);
      PrefixedSorted(xs[k], Orderings(rest));
      forall x | x in block ensures |x| > 0 && x[0] == xs[k] {
        var m :| 0 <= m < |block| && block[m] == x;
      }
      ConcatSorted(block, tail);
      forall p | p in block + tail ensures |p| > 0 && xs[k] <= p[0] {
        if p !in block {
          assert p in tail;
        }
      }
    }
  }

  /** The first ordering listed is `xs` itself. */
  lemma {:induction false} FirstOrdering(xs: seq<nat>)
    ensures |Orderings(xs)| > 0 && Orderings(xs)[0] == xs
    decreases |xs|
  {
    if |xs| > 0 {
      var rest := RemoveAt(xs, 0);
      assert rest == xs[1..];
      FirstOrdering(rest);
      assert Prefixed(xs[0], Orderings(rest))[0] == xs;
    }
  }

  /**
   The candidates for a rank-n alignment are exactly the permutations of
   0 .. n - 1, each listed once, in increasing lexicographic order, the
   identity first.
   */
  lemma PermutationsOfRange(n: nat)
    ensures forall p :: p in Orderings(Range(n)) <==> IsPermutation(p, n)
    ensures Sorted(Orderings(Range(n)))
    ensures |Orderings(Range(n))| > 0 && Orderings(Range(n))[0] == Range(n)
  {
    var xs := Range(n);
    forall p ensures p in Orderings(xs) <==> IsPermutation(p, n) {
      if p in Orderings(xs) {
        OrderingsSound(xs, p);
        forall i | 0 <= i < |p| ensures p[i] < n {
          var m :| 0 <= m < n && xs[m] == p[i];
        }
      }
      if IsPermutation(p, n) {
        forall i | 0 <= i < |p| ensures p[i] in xs {
          assert xs[p[i]] == p[i];
        }
        assert IsArrangement(p, xs);
        OrderingsComplete(xs, p);
      }
    }
    OrderingsSorted(xs);
    FirstOrdering(xs);
  }
}
