/**
 Factor alignment for two tensor decompositions: the brute-force search
 for the component permutation that maximises the product of absolute
 similarities, the per-component sign flip used when the two factors are
 shown side by side, and the default (identity) permutation used when a
 single factor is shown.

 A factor is represented as its (samples x rank) matrix, the `reshape(-1,
 rank)` view of the array: column r is component r flattened.
 */
module Decomposition {
  import opened Wrappers
  import opened Sequences
  import opened Permutations
  import opened RealArith

  /** A rank x rank similarity matrix. */
  predicate IsSquare(fms: seq<seq<real>>) {
    forall i :: 0 <= i < |fms| ==> |fms[i]| == |fms|
  }

  /** `p` chooses one column index below |fms| per row. */
  predicate IsAssignment(fms: seq<seq<real>>, p: seq<nat>) {
    IsSquare(fms) && |p| == |fms| && forall i :: 0 <= i < |p| ==> p[i] < |fms|
  }

  /** |fms[0][p[0]]| * ... * |fms[k-1][p[k-1]]|, multiplied left to right. */
  function PartialProduct(fms: seq<seq<real>>, p: seq<nat>, k: nat): (r: real)
    requires IsAssignment(fms, p) && k <= |p|
    ensures r >= 0.0
  {
    if k == 0 then 1.0 else PartialProduct(fms, p, k - 1) * Abs(fms[k - 1][p[k - 1]])
  }

  /** The score of a candidate permutation. */
  function Product(fms: seq<seq<real>>, p: seq<nat>): real
    requires IsAssignment(fms, p)
  {
    PartialProduct(fms, p, |p|)
  }

  /**
   `p` is the permutation the search keeps: no permutation scores more,
   and every permutation enumerated before it (lexicographically smaller)
   scores strictly less, so a later tie never replaces it.
   */
  ghost predicate FirstMaximiser(fms: seq<seq<real>>, p: seq<nat>) {
    && IsSquare(fms)
    && IsPermutation(p, |fms|)
    && (forall q :: IsPermutation(q, |fms|) ==> Product(fms, q) <= Product(fms, p))
    && (forall q :: IsPermutation(q, |fms|) && LexLess(q, p) ==> Product(fms, q) < Product(fms, p))
  }

  /** The outcome of `find_permutation`: a permutation, or the failed `assert best_prod != 0`. */
  datatype Alignment = Aligned(perm: seq<nat>) | Degenerate

  /**
   The search of `find_permutation` over a given similarity matrix: every
   permutation in `itertools.permutations` order, the product of the
   chosen absolute entries, replacement only on a strictly larger product,
   `best_prod` starting at 0.
   */
  method FindPermutation(fms: seq<seq<real>>) returns (result: Alignment)
    requires IsSquare(fms)
    ensures result.Degenerate? <==> forall q :: IsPermutation(q, |fms|) ==> Product(fms, q) == 0.0
    ensures result.Aligned? ==> FirstMaximiser(fms, result.perm) && Product(fms, result.perm) > 0.0
  {
    var n := |fms|;
    var candidates := Orderings(Range(n));
    PermutationsOfRange(n);
    forall j | 0 <= j < |candidates| ensures IsAssignment(fms, candidates[j]) {
      assert candidates[j] in candidates;
    }
    var bestProd := 0.0;
    var bestPerm: seq<nat> := [];
    ghost var bestIndex := 0;
    var k := 0;
    while k < |candidates|
      invariant 0 <= k <= |candidates|
      invariant bestProd == 0.0 ==> forall j :: 0 <= j < k ==> Product(fms, candidates[j]) == 0.0
      invariant bestProd != 0.0 ==> bestIndex < k && bestPerm == candidates[bestIndex]
      invariant bestProd != 0.0 ==> bestProd == Product(fms, bestPerm) > 0.0
      invariant forall j :: 0 <= j < k ==> Product(fms, candidates[j]) <= bestProd
      invariant bestProd != 0.0 ==> forall j :: 0 <= j < bestIndex ==> Product(fms, candidates[j]) < bestProd
    {
      var p := candidates[k];
      var prod := 1.0;
      var i := 0;
      while i < |p|
        invariant 0 <= i <= |p|
        invariant prod == PartialProduct(fms, p, i)
      {
        prod := prod * Abs(fms[i][p[i]]);
        i := i + 1;
      }
      if prod > bestProd {
        bestProd, bestPerm, bestIndex := prod, p, k;
      }
      k := k + 1;
    }
    if bestProd == 0.0 {
      SearchFoundNothing(fms, candidates);
      result := Degenerate;
    } else {
      SearchFoundFirstMaximiser(fms, candidates, bestIndex);
      result := Aligned(bestPerm);
    }
  }

  /** No candidate scored above 0, so no permutation does. */
  lemma SearchFoundNothing(fms: seq<seq<real>>, candidates: seq<seq<nat>>)
    requires IsSquare(fms) && candidates == Orderings(Range(|fms|))
    requires forall j :: 0 <= j < |candidates| ==> IsAssignment(fms, candidates[j])
    requires forall j :: 0 <= j < |candidates| ==> Product(fms, candidates[j]) == 0.0
    ensures forall q :: IsPermutation(q, |fms|) ==> Product(fms, q) == 0.0
  {
    PermutationsOfRange(|fms|);
    forall q | IsPermutation(q, |fms|) ensures Product(fms, q) == 0.0 {
      var j :| 0 <= j < |candidates| && candidates[j] == q;
    }
  }

  /** The candidate kept by the strict `>` is a first maximiser over all permutations. */
  lemma SearchFoundFirstMaximiser(fms: seq<seq<real>>, candidates: seq<seq<nat>>, bestIndex: nat)
    requires IsSquare(fms) && candidates == Orderings(Range(|fms|))
    requires forall j :: 0 <= j < |candidates| ==> IsAssignment(fms, candidates[j])
    requires bestIndex < |candidates|
    requires forall j :: 0 <= j < |candidates| ==> Product(fms, candidates[j]) <= Product(fms, candidates[bestIndex])
    requires forall j :: 0 <= j < bestIndex ==> Product(fms, candidates[j]) < Product(fms, candidates[bestIndex])
    ensures FirstMaximiser(fms, candidates[bestIndex])
  {
    var best := candidates[bestIndex];
    PermutationsOfRange(|fms|);
    forall q | IsPermutation(q, |fms|)
      ensures Product(fms, q) <= Product(fms, best)
      ensures LexLess(q, best) ==> Product(fms, q) < Product(fms, best)
    {
      var j :| 0 <= j < |candidates| && candidates[j] == q;
      LexIrreflexive(q);
      LexAsymmetric(q, best);
      assert bestIndex < j ==> LexLess(best, q);
    }
  }

  /** The search's result is determined: two first maximisers are equal. */
  lemma FirstMaximiserUnique(fms: seq<seq<real>>, p: seq<nat>, p': seq<nat>)
    requires FirstMaximiser(fms, p) && FirstMaximiser(fms, p')
    ensures p == p'
  {
    LexTotal(p, p');
  }

  lemma UnitIntervalProduct(x: real, y: real)
    requires 0.0 <= x <= 1.0 && 0.0 <= y <= 1.0
    ensures x * y <= 1.0
  {
    assert (1.0 - x) * y >= 0.0;
    assert y - x * y >= 0.0;
  }

  lemma {:induction false} ProductAtMostOne(fms: seq<seq<real>>, p: seq<nat>, k: nat)
    requires IsAssignment(fms, p) && k <= |p|
    requires forall i, j :: 0 <= i < |fms| && 0 <= j < |fms| ==> Abs(fms[i][j]) <= 1.0
    ensures PartialProduct(fms, p, k) <= 1.0
  {
    if k > 0 {
      ProductAtMostOne(fms, p, k - 1);
      UnitIntervalProduct(PartialProduct(fms, p, k - 1), Abs(fms[k - 1][p[k - 1]]));
    }
  }

  lemma {:induction false} IdentityProductIsOne(fms: seq<seq<real>>, k: nat)
    requires IsSquare(fms) && k <= |fms|
    requires forall i :: 0 <= i < |fms| ==> Abs(fms[i][i]) == 1.0
    ensures PartialProduct(fms, Range(|fms|), k) == 1.0
  {
    if k > 0 {
      IdentityProductIsOne(fms, k - 1);
    }
  }

  /** No permutation of 0 .. n - 1 is lexicographically smaller than the identity. */
  lemma IdentityIsLexLeast(n: nat, q: seq<nat>)
    requires IsPermutation(q, n)
    ensures !LexLess(q, Range(n))
  {
    PermutationsOfRange(n);
    var ps := Orderings(Range(n));
    var j :| 0 <= j < |ps| && ps[j] == q;
    LexIrreflexive(q);
    LexAsymmetric(q, Range(n));
    assert 0 < j ==> LexLess(ps[0], ps[j]);
  }

  /**
   When every |fms[i][j]| is at most 1 and the diagonal entries have
   absolute value 1 (as for two identical, column-normalised factors),
   the identity is the permutation the search returns.
   */
  lemma IdentityWinsOnUnitDiagonal(fms: seq<seq<real>>)
    requires IsSquare(fms)
    requires forall i, j :: 0 <= i < |fms| && 0 <= j < |fms| ==> Abs(fms[i][j]) <= 1.0
    requires forall i :: 0 <= i < |fms| ==> Abs(fms[i][i]) == 1.0
    ensures FirstMaximiser(fms, Range(|fms|)) && Product(fms, Range(|fms|)) == 1.0
    ensures forall p :: FirstMaximiser(fms, p) ==> p == Range(|fms|)
  {
    var n := |fms|;
    var id := Range(n);
    IdentityProductIsOne(fms, n);
    forall q | IsPermutation(q, n)
      ensures Product(fms, q) <= Product(fms, id)
      ensures !LexLess(q, id)
    {
      ProductAtMostOne(fms, q, n);
      IdentityIsLexLeast(n, q);
    }
    assert FirstMaximiser(fms, id);
    forall p | FirstMaximiser(fms, p) ensures p == id {
      FirstMaximiserUnique(fms, p, id);
    }
  }

  /** A factor matrix: every sample row has one entry per component. */
  predicate IsFactorMatrix(f: seq<seq<real>>, rank: nat) {
    forall s :: 0 <= s < |f| ==> |f[s]| == rank
  }

  /** Component r, flattened: `factor[..., r].ravel()`. */
  function Column(f: seq<seq<real>>, r: nat): (c: seq<real>)
    requires forall s :: 0 <= s < |f| ==> r < |f[s]|
    ensures |c| == |f| && forall s :: 0 <= s < |f| ==> c[s] == f[s][r]
  {
    seq(|f|, s requires 0 <= s < |f| => f[s][r])
  }

  function Dot(a: seq<real>, b: seq<real>): real
    requires |a| == |b|
  {
    if |a| == 0 then 0.0 else a[0] * b[0] + Dot(a[1..], b[1..])
  }

  function Scale(c: real, v: seq<real>): (r: seq<real>)
    ensures |r| == |v| && forall i :: 0 <= i < |v| ==> r[i] == c * v[i]
  {
    seq(|v|, i requires 0 <= i < |v| => c * v[i])
  }

  /** `np.sign`: -1, 0 or 1. */
  function Sign(x: real): real {
    if x > 0.0 then 1.0 else if x < 0.0 then -1.0 else 0.0
  }

  lemma {:induction false} DotScale(a: seq<real>, c: real, b: seq<real>)
    requires |a| == |b|
    ensures Dot(a, Scale(c, b)) == c * Dot(a, b)
    decreases |a|
  {
    if |a| > 0 {
      assert forall i :: 0 <= i < |b| - 1 ==> Scale(c, b)[1..][i] == Scale(c, b[1..])[i];
      assert Scale(c, b)[1..] == Scale(c, b[1..]);
      DotScale(a[1..], c, b[1..]);
    }
  }

  /**
   The loop of `compare_evolving_factors` over components r: the sign
   (1 unless `flip_sign`, otherwise the sign of the dot product of
   component r of the first factor with component permutation[r] of the
   second) and the second factor's component as it is shown beside
   component r, multiplied by that sign.
   */
  method CompareEvolvingFactors(f1: seq<seq<real>>, f2: seq<seq<real>>, rank: nat, permutation: seq<nat>, flipSign: bool)
    returns (signs: seq<real>, shown: seq<seq<real>>)
    requires IsFactorMatrix(f1, rank) && IsFactorMatrix(f2, rank)
    requires flipSign ==> |f1| == |f2|
    requires |permutation| >= rank && forall r :: 0 <= r < rank ==> permutation[r] < rank
    ensures |signs| == rank && |shown| == rank
    ensures forall r :: 0 <= r < rank ==>
      |shown[r]| == |f2| && shown[r] == Scale(signs[r], Column(f2, permutation[r]))
    ensures !flipSign ==> forall r :: 0 <= r < rank ==> signs[r] == 1.0
    ensures flipSign ==> forall r :: 0 <= r < rank ==>
      var d := Dot(Column(f1, r), Column(f2, permutation[r]));
      && (signs[r] == 1.0 <==> d > 0.0)
      && (signs[r] == -1.0 <==> d < 0.0)
      && (signs[r] == 0.0 <==> d == 0.0)
      && Dot(Column(f1, r), shown[r]) == Abs(d)
  {
    signs, shown := [], [];
    var r := 0;
    while r < rank
      invariant 0 <= r <= rank && |signs| == r && |shown| == r
      invariant forall t :: 0 <= t < r ==> shown[t] == Scale(signs[t], Column(f2, permutation[t]))
      invariant !flipSign ==> forall t :: 0 <= t < r ==> signs[t] == 1.0
      invariant flipSign ==> forall t :: 0 <= t < r ==>
        var d := Dot(Column(f1, t), Column(f2, permutation[t]));
        signs[t] == Sign(d) && Dot(Column(f1, t), shown[t]) == Abs(d)
    {
      var sign := 1.0;
      var fv2 := Column(f2, permutation[r]);
      if flipSign {
        var fv1 := Column(f1, r);
        sign := Sign(Dot(fv1, fv2));
        DotScale(fv1, sign, fv2);
      }
      signs, shown := signs + [sign], shown + [Scale(sign, fv2)];
      r := r + 1;
    }
  }

  /**
   `visualise_evolving_factor`: panel r shows component permutation[r];
   without a permutation, `tuple(range(rank))` is used, so panel r shows
   component r.
   */
  method VisualiseEvolvingFactor(f: seq<seq<real>>, rank: nat, permutation: Option<seq<nat>>)
    returns (panels: seq<seq<real>>)
    requires IsFactorMatrix(f, rank)
    requires permutation.Some? ==>
      |permutation.value| >= rank && forall r :: 0 <= r < rank ==> permutation.value[r] < rank
    ensures |panels| == rank
    ensures permutation.None? ==> forall r :: 0 <= r < rank ==> panels[r] == Column(f, r)
    ensures permutation.Some? ==> forall r :: 0 <= r < rank ==> panels[r] == Column(f, permutation.value[r])
  {
    var perm := if permutation.None? then Range(rank) else permutation.value;
    panels := [];
    var r := 0;
    while r < rank
      invariant 0 <= r <= rank && |panels| == r
      invariant forall t :: 0 <= t < r ==> panels[t] == Column(f, perm[t])
    {
      panels := panels + [Column(f, perm[r])];
      r := r + 1;
    }
  }

  /** The default permutation is a permutation, and the first one the search enumerates. */
  lemma DefaultPermutationIsIdentity(rank: nat)
    ensures IsPermutation(Range(rank), rank)
    ensures |Orderings(Range(rank))| > 0 && Orderings(Range(rank))[0] == Range(rank)
  {
    PermutationsOfRange(rank);
  }
}
