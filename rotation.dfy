/**
 `rotate_right` on a 3-D volume (height x width x slices), selecting
 slices on the last axis (`volume[..., idx]`), and element-wise maps such
 as taking a masked array's mask. A volume carries its shape alongside,
 since a sequence with no rows cannot record its width.
 */
module Rotation {

  datatype Shape = Shape(h: nat, w: nat, s: nat)

  type Volume<T> = seq<seq<seq<T>>>

  predicate HasShape<T>(a: Volume<T>, sh: Shape) {
    && |a| == sh.h
    && (forall i :: 0 <= i < |a| ==> |a[i]| == sh.w)
    && (forall i, j :: 0 <= i < |a| && 0 <= j < |a[i]| ==> |a[i][j]| == sh.s)
  }

  /** The shape after one quarter turn: the first two axes swap. */
  function Turned(sh: Shape): Shape {
    Shape(sh.w, sh.h, sh.s)
  }

  /** The shape after k quarter turns. */
  function ShapeAfter(sh: Shape, k: nat): Shape {
    if k % 2 == 0 then sh else Turned(sh)
  }

  /** The same height and width, with m slices. */
  function WithSlices(sh: Shape, m: nat): Shape {
    Shape(sh.h, sh.w, m)
  }

  /**
   `np.flip(image.transpose((1, 0, 2)), axis=0)`: row j of the result
   holds column W - 1 - j of the input, each voxel keeping its whole
   vector of slices.
   */
  function RotateRight<T>(a: Volume<T>, sh: Shape): (r: Volume<T>)
    requires HasShape(a, sh)
    ensures HasShape(r, Turned(sh))
    ensures forall j, i, k :: 0 <= j < sh.w && 0 <= i < sh.h && 0 <= k < sh.s ==>
      r[j][i][k] == a[i][sh.w - 1 - j][k]
  {
    seq(sh.w, j requires 0 <= j < sh.w =>
      seq(sh.h, i requires 0 <= i < sh.h => a[i][sh.w - 1 - j]))
  }

  /** `rotate_right` applied k times in succession. */
  function RotateTimes<T>(a: Volume<T>, sh: Shape, k: nat): (r: Volume<T>)
    requires HasShape(a, sh)
    ensures HasShape(r, ShapeAfter(sh, k))
  {
    if k == 0 then a else RotateRight(RotateTimes(a, sh, k - 1), ShapeAfter(sh, k - 1))
  }

  /** Two quarter turns reverse both the rows and the columns. */
  lemma HalfTurn<T>(a: Volume<T>, sh: Shape)
    requires HasShape(a, sh)
    ensures var b := RotateRight(RotateRight(a, sh), Turned(sh));
      forall i, j :: 0 <= i < sh.h && 0 <= j < sh.w ==> b[i][j] == a[sh.h - 1 - i][sh.w - 1 - j]
  {
  }

  /** Four quarter turns give back the original volume. */
  lemma FourQuarterTurns<T>(a: Volume<T>, sh: Shape)
    requires HasShape(a, sh)
    ensures RotateTimes(a, sh, 4) == a
  {
    var b := RotateTimes(a, sh, 2);
    assert RotateTimes(a, sh, 1) == RotateRight(a, sh);
    assert b == RotateRight(RotateRight(a, sh), Turned(sh));
    HalfTurn(a, sh);
    var c := RotateTimes(a, sh, 4);
    assert RotateTimes(a, sh, 3) == RotateRight(b, sh);
    assert c == RotateRight(RotateRight(b, sh), Turned(sh));
    HalfTurn(b, sh);
    forall i | 0 <= i < sh.h ensures c[i] == a[i] {
      forall j | 0 <= j < sh.w ensures c[i][j] == a[i][j] {
        assert c[i][j] == b[sh.h - 1 - i][sh.w - 1 - j];
      }
    }
  }

  /** `a[..., idx]`: the slices listed in idx, in that order. */
  function TakeSlices<T>(a: Volume<T>, sh: Shape, idx: seq<nat>): (r: Volume<T>)
    requires HasShape(a, sh) && forall k :: 0 <= k < |idx| ==> idx[k] < sh.s
    ensures HasShape(r, WithSlices(sh, |idx|))
    ensures forall i, j, k :: 0 <= i < sh.h && 0 <= j < sh.w && 0 <= k < |idx| ==>
      r[i][j][k] == a[i][j][idx[k]]
  {
    seq(sh.h, i requires 0 <= i < sh.h =>
      seq(sh.w, j requires 0 <= j < sh.w =>
        seq(|idx|, k requires 0 <= k < |idx| => a[i][j][idx[k]])))
  }

  /** Rotating the selected slices is selecting the same slices of the rotated volume. */
  lemma RotateCommutesWithSlicing<T>(a: Volume<T>, sh: Shape, idx: seq<nat>)
    requires HasShape(a, sh) && forall k :: 0 <= k < |idx| ==> idx[k] < sh.s
    ensures RotateRight(TakeSlices(a, sh, idx), WithSlices(sh, |idx|))
         == TakeSlices(RotateRight(a, sh), Turned(sh), idx)
  {
    var lhs := RotateRight(TakeSlices(a, sh, idx), WithSlices(sh, |idx|));
    var rhs := TakeSlices(RotateRight(a, sh), Turned(sh), idx);
    forall j | 0 <= j < sh.w ensures lhs[j] == rhs[j] {
      forall i | 0 <= i < sh.h ensures lhs[j][i] == rhs[j][i] {
        assert forall k :: 0 <= k < |idx| ==> lhs[j][i][k] == rhs[j][i][k];
      }
    }
  }

  /** The same for any number of quarter turns. */
  lemma {:induction false} RotateTimesCommutesWithSlicing<T>(a: Volume<T>, sh: Shape, idx: seq<nat>, k: nat)
    requires HasShape(a, sh) && forall t :: 0 <= t < |idx| ==> idx[t] < sh.s
    ensures RotateTimes(TakeSlices(a, sh, idx), WithSlices(sh, |idx|), k)
         == TakeSlices(RotateTimes(a, sh, k), ShapeAfter(sh, k), idx)
  {
    if k > 0 {
      RotateTimesCommutesWithSlicing(a, sh, idx, k - 1);
      var before := ShapeAfter(sh, k - 1);
      assert ShapeAfter(WithSlices(sh, |idx|), k - 1) == WithSlices(before, |idx|);
      RotateCommutesWithSlicing(RotateTimes(a, sh, k - 1), before, idx);
      assert Turned(before) == ShapeAfter(sh, k);
    }
  }

  /** f applied to every element. */
  function MapVolume<A, B>(a: Volume<A>, f: A -> B): (r: Volume<B>)
    ensures |r| == |a| && forall i :: 0 <= i < |a| ==> |r[i]| == |a[i]|
    ensures forall i, j :: 0 <= i < |a| && 0 <= j < |a[i]| ==> |r[i][j]| == |a[i][j]|
    ensures forall i, j, k :: 0 <= i < |a| && 0 <= j < |a[i]| && 0 <= k < |a[i][j]| ==>
      r[i][j][k] == f(a[i][j][k])
  {
    seq(|a|, i requires 0 <= i < |a| =>
      seq(|a[i]|, j requires 0 <= j < |a[i]| =>
        seq(|a[i][j]|, k requires 0 <= k < |a[i][j]| => f(a[i][j][k]))))
  }

  /** A companion array (a mask) computed element-wise moves with the rotation. */
  lemma {:induction false} RotateTimesCommutesWithMap<A, B>(a: Volume<A>, sh: Shape, f: A -> B, k: nat)
    requires HasShape(a, sh)
    ensures HasShape(MapVolume(a, f), sh)
    ensures RotateTimes(MapVolume(a, f), sh, k) == MapVolume(RotateTimes(a, sh, k), f)
  {
    if k > 0 {
      RotateTimesCommutesWithMap(a, sh, f, k - 1);
      var before := ShapeAfter(sh, k - 1);
      var b := RotateTimes(a, sh, k - 1);
      var lhs := RotateRight(MapVolume(b, f), before);
      var rhs := MapVolume(RotateRight(b, before), f);
      forall j | 0 <= j < before.w ensures lhs[j] == rhs[j] {
        forall i | 0 <= i < before.h ensures lhs[j][i] == rhs[j][i] {
          assert forall t :: 0 <= t < before.s ==> lhs[j][i][t] == rhs[j][i][t];
        }
      }
    }
  }

  /** Selecting slices commutes with an element-wise map. */
  lemma SliceCommutesWithMap<A, B>(a: Volume<A>, sh: Shape, idx: seq<nat>, f: A -> B)
    requires HasShape(a, sh) && forall k :: 0 <= k < |idx| ==> idx[k] < sh.s
    ensures HasShape(MapVolume(a, f), sh)
    ensures TakeSlices(MapVolume(a, f), sh, idx) == MapVolume(TakeSlices(a, sh, idx), f)
  {
    var lhs := TakeSlices(MapVolume(a, f), sh, idx);
    var rhs := MapVolume(TakeSlices(a, sh, idx), f);
    forall i | 0 <= i < sh.h ensures lhs[i] == rhs[i] {
      forall j | 0 <= j < sh.w ensures lhs[i][j] == rhs[i][j] {
        assert forall k :: 0 <= k < |idx| ==> lhs[i][j][k] == rhs[i][j][k];
      }
    }
  }
}
