/**
 The index arithmetic of the fMRI mosaic plots: which slices are tiled,
 how the data, its mask and the anatomical template are rotated and
 sliced before tiling, the default colour limits, and which time step
 each panel of the time-step grid shows.
 */
module TilePlots {
  import opened Wrappers
  import opened Sequences
  import opened RealArith
  import opened Rotation

  // ---------------------------------------------------------------------
  // Integer arithmetic used by the selection and the grid

  lemma MulCancel(x: int, y: int, d: int)
    requires d > 0 && x * d < y * d
    ensures x < y
  {
    assert (y - x) * d == y * d - x * d;
  }

  lemma MulMonotone(k: int, l: int, x: int)
    requires k <= l && x >= 0
    ensures k * x <= l * x
  {
    assert l * x - k * x == (l - k) * x;
  }

  /** Euclidean division bounds: q * d <= a < q * d + d for q = a / d. */
  lemma FloorBounds(a: int, d: int)
    requires d > 0
    ensures a / d * d <= a < a / d * d + d
  {
    assert a == d * (a / d) + a % d;
  }

  lemma DivMonotone(a: int, b: int, d: int)
    requires d > 0 && a <= b
    ensures a / d <= b / d
  {
    FloorBounds(a, d);
    FloorBounds(b, d);
    assert (b / d + 1) * d == b / d * d + d;
    MulCancel(a / d, b / d + 1, d);
  }

  lemma DivStrict(a: int, b: int, d: int)
    requires d > 0 && a + d <= b
    ensures a / d < b / d
  {
    FloorBounds(a, d);
    FloorBounds(b, d);
    MulCancel(a / d, b / d, d);
  }

  lemma DivExact(m: int, d: int)
    requires d > 0
    ensures d * m / d == m
  {
    FloorBounds(d * m, d);
    assert m * d == d * m;
    MulCancel(d * m / d, m + 1, d);
    MulCancel(m, d * m / d + 1, d);
  }

  /** Dividing c * i + j by c, with 0 <= j < c, gives back i and j. */
  lemma DivModOfRowMajor(c: int, i: int, j: int)
    requires c > 0 && 0 <= j < c
    ensures (c * i + j) / c == i && (c * i + j) % c == j
  {
    var t := c * i + j;
    FloorBounds(t, c);
    assert i * c == c * i;
    assert (i + 1) * c == c * i + c;
    MulCancel(t / c, i + 1, c);
    MulCancel(i, t / c + 1, c);
    assert t / c == i;
    assert t == c * (t / c) + t % c;
  }

  // ---------------------------------------------------------------------
  // Slice selection (the `slice_idx is None` branch of create_tile_plot)

  /**
   `np.linspace(0, stop, num).astype(int)` in exact arithmetic: point k is
   the floor of k * stop / (num - 1); a single point is 0, no points is
   the empty selection.
   */
  function Linspace(stop: nat, num: nat): (r: seq<nat>)
    ensures |r| == num
    ensures num > 0 ==> r[0] == 0
    ensures num > 1 ==> r[num - 1] == stop
  {
    if num == 0 then []
    else if num == 1 then [0]
    else LastPoint(stop, num); seq(num, k requires 0 <= k < num => LinspacePoint(stop, num, k))
  }

  function LinspacePoint(stop: nat, num: nat, k: nat): (p: nat)
    requires num > 1
  {
    k * stop / (num - 1)
  }

  /**
   The slices tiled when none are given: all of them in order when the
   num_tiles tiles can hold them, otherwise num_tiles evenly spaced ones,
   from the first slice to the last.
   */
  function SelectSlices(numSlices: nat, numTiles: nat): (idx: seq<nat>)
    ensures numTiles >= numSlices ==> idx == Range(numSlices)
    ensures numTiles < numSlices ==>
      && |idx| == numTiles
      && StrictlyIncreasing(idx)
      && (forall k :: 0 <= k < |idx| ==> idx[k] < numSlices)
      && (numTiles > 0 ==> idx[0] == 0)
      && (numTiles > 1 ==> idx[numTiles - 1] == numSlices - 1)
    ensures 1 < numTiles < numSlices ==> forall k :: 0 <= k < numTiles ==>
      idx[k] * (numTiles - 1) <= k * (numSlices - 1) < (idx[k] + 1) * (numTiles - 1)
  {
    if numTiles >= numSlices then Range(numSlices)
    else
      LinspaceSpread(numSlices - 1, numTiles);
      Linspace(numSlices - 1, numTiles)
  }

  lemma LinspaceSpread(stop: nat, num: nat)
    requires num <= stop
    ensures var r := Linspace(stop, num);
      && StrictlyIncreasing(r)
      && (forall k :: 0 <= k < num ==> r[k] <= stop)
      && (num > 0 ==> r[0] == 0)
      && (num > 1 ==> r[num - 1] == stop)
      && (num > 1 ==> forall k :: 0 <= k < num ==>
            r[k] * (num - 1) <= k * stop < (r[k] + 1) * (num - 1))
  {
    var r := Linspace(stop, num);
    if num > 1 {
      forall k | 0 <= k < num ensures r[k] * (num - 1) <= k * stop < (r[k] + 1) * (num - 1) {
        FloorBounds(k * stop, num - 1);
      }
      forall k, l | 0 <= k < l < num ensures r[k] < r[l] {
        PointsIncrease(stop, num, k, l);
      }
      forall k | 0 <= k < num ensures r[k] <= stop {
        PointAtMostStop(stop, num, k);
      }
      LastPoint(stop, num);
    }
  }

  lemma PointsIncrease(stop: nat, num: nat, k: nat, l: nat)
    requires 1 < num <= stop && k < l
    ensures LinspacePoint(stop, num, k) < LinspacePoint(stop, num, l)
  {
    MulMonotone(k + 1, l, stop);
    assert (k + 1) * stop == k * stop + stop;
    DivStrict(k * stop, l * stop, num - 1);
  }

  lemma PointAtMostStop(stop: nat, num: nat, k: nat)
    requires 1 < num && k < num
    ensures LinspacePoint(stop, num, k) <= stop
  {
    var d := num - 1;
    MulMonotone(k, d, stop);
    DivMonotone(k * stop, d * stop, d);
    DivExact(stop, d);
  }

  lemma LastPoint(stop: nat, num: nat)
    requires 1 < num
    ensures LinspacePoint(stop, num, num - 1) == stop
  {
    DivExact(stop, num - 1);
  }

  /** `slice_idx` as create_tile_plot resolves it. */
  function ChosenSlices(sliceIdx: Option<seq<nat>>, numSlices: nat, numRows: nat, numCols: nat): seq<nat> {
    if sliceIdx.Some? then sliceIdx.value else SelectSlices(numSlices, numRows * numCols)
  }

  predicate SlicesWithin(idx: seq<nat>, s: nat) {
    forall k :: 0 <= k < |idx| ==> idx[k] < s
  }

  // ---------------------------------------------------------------------
  // create_tile_plot: slicing and rotating the data, its mask and the template

  /** One element of a numpy masked array: its value and its mask bit. */
  datatype Voxel = Voxel(value: real, masked: bool)

  function MaskBit(v: Voxel): bool {
    v.masked
  }

  /**
   The three volumes create_tile_plot hands to `tile_image`: the selected
   slices of the data rotated `rotation` times, their mask, and the
   template, which is rotated whole and sliced afterwards. Each equals
   "select the slices, then rotate", so the tiles of all three line up.
   */
  method CreateTilePlot(image: Volume<Voxel>, sh: Shape, template: Volume<real>, tsh: Shape,
                        sliceIdx: Option<seq<nat>>, numRows: nat, numCols: nat, rotation: int)
    returns (img: Volume<Voxel>, imgMask: Volume<bool>, templateTiles: Volume<real>)
    requires HasShape(image, sh) && HasShape(template, tsh)
    requires SlicesWithin(ChosenSlices(sliceIdx, sh.s, numRows, numCols), sh.s)
    requires SlicesWithin(ChosenSlices(sliceIdx, sh.s, numRows, numCols), tsh.s)
    ensures var idx := ChosenSlices(sliceIdx, sh.s, numRows, numCols);
      var turns := if rotation < 0 then 0 else rotation;
      && img == RotateTimes(TakeSlices(image, sh, idx), WithSlices(sh, |idx|), turns)
      && HasShape(MapVolume(image, MaskBit), sh)
      && imgMask == RotateTimes(TakeSlices(MapVolume(image, MaskBit), sh, idx), WithSlices(sh, |idx|), turns)
      && templateTiles == RotateTimes(TakeSlices(template, tsh, idx), WithSlices(tsh, |idx|), turns)
  {
    var idx := ChosenSlices(sliceIdx, sh.s, numRows, numCols);
    var sliced := TakeSlices(image, sh, idx);
    var tmpl := template;
    img := sliced;
    var i: nat := 0;
    while i < rotation
      invariant rotation >= 0 ==> i <= rotation
      invariant rotation < 0 ==> i == 0
      invariant img == RotateTimes(sliced, WithSlices(sh, |idx|), i)
      invariant tmpl == RotateTimes(template, tsh, i)
    {
      img := RotateRight(img, ShapeAfter(WithSlices(sh, |idx|), i));
      tmpl := RotateRight(tmpl, ShapeAfter(tsh, i));
      i := i + 1;
    }
    imgMask := MapVolume(img, MaskBit);
    templateTiles := TakeSlices(tmpl, ShapeAfter(tsh, i), idx);
    RotateTimesCommutesWithSlicing(template, tsh, idx, i);
    RotateTimesCommutesWithMap(sliced, WithSlices(sh, |idx|), MaskBit, i);
    SliceCommutesWithMap(image, sh, idx, MaskBit);
  }

  // ---------------------------------------------------------------------
  // plot_tiled_fmri: default colour limits

  datatype ColourRange = ColourRange(vmin: real, vmax: real)

  /** The mosaic's elements, row by row. */
  function Flatten(mosaic: seq<seq<Voxel>>): (r: seq<Voxel>)
    ensures forall i, j :: 0 <= i < |mosaic| && 0 <= j < |mosaic[i]| ==> mosaic[i][j] in r
    ensures forall v :: v in r ==> exists i :: 0 <= i < |mosaic| && v in mosaic[i]
  {
    if |mosaic| == 0 then []
    else
      var init := mosaic[..|mosaic| - 1];
      assert forall i :: 0 <= i < |init| ==> init[i] == mosaic[i];
      Flatten(init) + mosaic[|mosaic| - 1]
  }

  /** x is the largest unmasked value among vs. */
  predicate IsUnmaskedMax(vs: seq<Voxel>, x: real) {
    Voxel(x, false) in vs && forall v :: v in vs && !v.masked ==> v.value <= x
  }

  /** A masked array's `max()`: the largest unmasked value, None when all are masked. */
  function UnmaskedMax(vs: seq<Voxel>): (r: Option<real>)
    ensures r.None? <==> forall v :: v in vs ==> v.masked
    ensures r.Some? ==> IsUnmaskedMax(vs, r.value)
  {
    if |vs| == 0 then None
    else
      var init, last := vs[..|vs| - 1], vs[|vs| - 1];
      assert vs == init + [last];
      var m := UnmaskedMax(init);
      if last.masked then m
      else if m.None? || last.value > m.value then Some(last.value)
      else m
  }

  /**
   The colour limits plot_tiled_fmri passes to `imshow`: an explicit vmax
   is kept, otherwise vmax is the absolute value of the largest unmasked
   value; an explicit vmin is kept, otherwise vmin is -vmax. With every
   element masked and no explicit vmax there is no number to use (numpy
   returns its `masked` constant), which is None here.
   */
  function ColourLimits(mosaic: seq<seq<Voxel>>, vmin: Option<real>, vmax: Option<real>): (r: Option<ColourRange>)
    ensures vmax.Some? ==> r.Some? && r.value.vmax == vmax.value
    ensures vmax.None? ==> (r.None? <==> forall v :: v in Flatten(mosaic) ==> v.masked)
    ensures vmax.None? && r.Some? ==> exists x :: IsUnmaskedMax(Flatten(mosaic), x) && r.value.vmax == Abs(x)
    ensures vmin.Some? && r.Some? ==> r.value.vmin == vmin.value
    ensures vmin.None? && r.Some? ==> r.value.vmin == -r.value.vmax
    ensures vmin.None? && vmax.None? && r.Some? ==> r.value.vmin <= 0.0 <= r.value.vmax
  {
    var top := if vmax.Some? then vmax
      else match UnmaskedMax(Flatten(mosaic)) {
        case None => None
        case Some(x) => Some(Abs(x))
      };
    if top.None? then None
    else Some(ColourRange(if vmin.Some? then vmin.value else -top.value, top.value))
  }

  /**
   As written, the default range can leave unmasked values outside it: a
   mosaic holding -3 and 1 gets the range [-1, 1], so -3 is clipped.
   */
  lemma ColourLimitsCanClipNegativeValues()
    ensures var mosaic := [[Voxel(-3.0, false), Voxel(1.0, false)]];
      && ColourLimits(mosaic, None, None) == Some(ColourRange(-1.0, 1.0))
      && Voxel(-3.0, false) in Flatten(mosaic)
  {
    var mosaic := [[Voxel(-3.0, false), Voxel(1.0, false)]];
    assert Flatten(mosaic) == mosaic[0];
    var vs := mosaic[0];
    assert vs[..1] == [Voxel(-3.0, false)];
    assert [Voxel(-3.0, false)][..0] == [];
    assert UnmaskedMax(vs[..1]) == Some(-3.0);
  }

  function AbsVoxel(v: Voxel): Voxel {
    Voxel(Abs(v.value), v.masked)
  }

  function AbsValues(vs: seq<Voxel>): (r: seq<Voxel>)
    ensures |r| == |vs| && forall i :: 0 <= i < |vs| ==> r[i] == AbsVoxel(vs[i])
  {
    seq(|vs|, i requires 0 <= i < |vs| => AbsVoxel(vs[i]))
  }

  /** Taking absolute values leaves every element's mask as it was. */
  lemma AbsValuesKeepMask(vs: seq<Voxel>)
    ensures (forall v :: v in AbsValues(vs) ==> v.masked) <==> (forall v :: v in vs ==> v.masked)
  {
    var avs := AbsValues(vs);
    forall v | v in vs ensures AbsVoxel(v) in avs {
      var i :| 0 <= i < |vs| && vs[i] == v;
      assert avs[i] == AbsVoxel(v);
    }
  }

  /**
   The symmetric range that contains every unmasked value: the default
   vmax is the largest absolute unmasked value.
   */
  function SymmetricColourLimits(mosaic: seq<seq<Voxel>>, vmin: Option<real>, vmax: Option<real>): (r: Option<ColourRange>)
    ensures vmax.Some? ==> r.Some? && r.value.vmax == vmax.value
    ensures vmax.None? ==> (r.None? <==> forall v :: v in Flatten(mosaic) ==> v.masked)
    ensures vmax.None? && r.Some? ==> IsUnmaskedMax(AbsValues(Flatten(mosaic)), r.value.vmax)
    ensures vmin.Some? && r.Some? ==> r.value.vmin == vmin.value
    ensures vmin.None? && r.Some? ==> r.value.vmin == -r.value.vmax
  {
    AbsValuesKeepMask(Flatten(mosaic));
    var top := if vmax.Some? then vmax else UnmaskedMax(AbsValues(Flatten(mosaic)));
    if top.None? then None
    else Some(ColourRange(if vmin.Some? then vmin.value else -top.value, top.value))
  }

  /** With both limits defaulted, every unmasked value lies within the symmetric range. */
  lemma SymmetricColourLimitsCover(mosaic: seq<seq<Voxel>>)
    ensures var r := SymmetricColourLimits(mosaic, None, None);
      && (r.None? <==> forall v :: v in Flatten(mosaic) ==> v.masked)
      && (r.Some? ==> forall v :: v in Flatten(mosaic) && !v.masked ==> r.value.vmin <= v.value <= r.value.vmax)
  {
    var vs := Flatten(mosaic);
    var avs := AbsValues(vs);
    var m := UnmaskedMax(avs);
    forall v | v in vs ensures AbsVoxel(v) in avs {
      var i :| 0 <= i < |vs| && vs[i] == v;
      assert avs[i] == AbsVoxel(v);
    }
    forall v | v in avs ensures exists u :: u in vs && v == AbsVoxel(u) {
      var i :| 0 <= i < |avs| && avs[i] == v;
      assert vs[i] in vs;
    }
    if m.Some? {
      forall v | v in vs && !v.masked ensures -m.value <= v.value <= m.value {
        assert AbsVoxel(v) in avs;
      }
    }
  }

  // ---------------------------------------------------------------------
  // create_fmri_timesteps_plot: the grid of time steps

  /** A panel of the time-step grid: hidden, or showing one time step. */
  datatype Panel = Hidden | Shows(timeStep: nat)

  /** The panel at row i, column j: the body of the inner loop. */
  function PanelAt(numCols: nat, numTimeSteps: nat, i: nat, j: nat): Panel {
    var timeStep := numCols * i + j;
    if timeStep >= numTimeSteps then Hidden else Shows(timeStep)
  }

  /** A time step below rows * cols sits at row t / cols, column t % cols. */
  lemma RowMajorPlacement(numRows: nat, numCols: nat, t: nat)
    requires t < numRows * numCols
    ensures numCols > 0 && t / numCols < numRows && t % numCols < numCols
    ensures numCols * (t / numCols) + t % numCols == t
  {
    assert numCols > 0;
    FloorBounds(t, numCols);
    assert numRows * numCols == numCols * numRows;
    MulCancel(t / numCols, numRows, numCols);
    assert t == numCols * (t / numCols) + t % numCols;
  }

  /**
   The panel grid of create_fmri_timesteps_plot, filled row-major: panel
   (i, j) shows time step num_cols * i + j and is hidden when no such time
   step exists. Every time step that fits lands in exactly one panel.
   */
  method CreateFmriTimestepsPlot(numRows: nat, numCols: nat, numTimeSteps: nat)
    returns (grid: seq<seq<Panel>>)
    ensures |grid| == numRows && forall i :: 0 <= i < numRows ==> |grid[i]| == numCols
    ensures forall i, j :: 0 <= i < numRows && 0 <= j < numCols ==>
      && (grid[i][j].Hidden? <==> numCols * i + j >= numTimeSteps)
      && (grid[i][j].Shows? ==> grid[i][j].timeStep == numCols * i + j)
    ensures forall t :: 0 <= t < numTimeSteps && t < numRows * numCols ==>
      numCols > 0 && t / numCols < numRows && grid[t / numCols][t % numCols] == Shows(t)
    ensures forall i, j :: 0 <= i < numRows && 0 <= j < numCols && grid[i][j].Shows? ==>
      i == grid[i][j].timeStep / numCols && j == grid[i][j].timeStep % numCols
  {
    grid := [];
    var i := 0;
    while i < numRows
      invariant 0 <= i <= numRows && |grid| == i
      invariant forall r :: 0 <= r < i ==> |grid[r]| == numCols
      invariant forall r, c :: 0 <= r < i && 0 <= c < numCols ==> grid[r][c] == PanelAt(numCols, numTimeSteps, r, c)
    {
      var row := [];
      var j := 0;
      while j < numCols
        invariant 0 <= j <= numCols && |row| == j
        invariant forall c :: 0 <= c < j ==> row[c] == PanelAt(numCols, numTimeSteps, i, c)
      {
        var timeStep := numCols * i + j;
        if timeStep >= numTimeSteps {
          row := row + [Hidden];
        } else {
          row := row + [Shows(timeStep)];
        }
        j := j + 1;
      }
      grid := grid + [row];
      i := i + 1;
    }
    GridPlacement(grid, numRows, numCols, numTimeSteps);
  }

  /** What the row-major filling means for a grid built from PanelAt. */
  lemma GridPlacement(grid: seq<seq<Panel>>, numRows: nat, numCols: nat, numTimeSteps: nat)
    requires |grid| == numRows && forall i :: 0 <= i < numRows ==> |grid[i]| == numCols
    requires forall i, j :: 0 <= i < numRows && 0 <= j < numCols ==> grid[i][j] == PanelAt(numCols, numTimeSteps, i, j)
    ensures forall i, j :: 0 <= i < numRows && 0 <= j < numCols ==>
      && (grid[i][j].Hidden? <==> numCols * i + j >= numTimeSteps)
      && (grid[i][j].Shows? ==> grid[i][j].timeStep == numCols * i + j)
    ensures forall t :: 0 <= t < numTimeSteps && t < numRows * numCols ==>
      numCols > 0 && t / numCols < numRows && grid[t / numCols][t % numCols] == Shows(t)
    ensures forall i, j :: 0 <= i < numRows && 0 <= j < numCols && grid[i][j].Shows? ==>
      i == grid[i][j].timeStep / numCols && j == grid[i][j].timeStep % numCols
  {
    forall i, j | 0 <= i < numRows && 0 <= j < numCols && grid[i][j].Shows?
      ensures i == grid[i][j].timeStep / numCols && j == grid[i][j].timeStep % numCols
    {
      DivModOfRowMajor(numCols, i, j);
    }
    forall t | 0 <= t < numTimeSteps && t < numRows * numCols
      ensures numCols > 0 && t / numCols < numRows && grid[t / numCols][t % numCols] == Shows(t)
    {
      RowMajorPlacement(numRows, numCols, t);
    }
  }
}
