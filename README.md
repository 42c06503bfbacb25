# PlotTools: verified model of factor alignment and fMRI mosaic indexing

PlotTools draws tensor-decomposition factors and fMRI volumes with
matplotlib. Under the drawing sit two small pieces of index and selection
logic, and this project models those in Dafny and proves what they promise.

**Factor alignment** (`src/plottools/tensor/decomposition.py`).
`find_permutation` compares two decompositions through a rank x rank
similarity matrix `fms`. It enumerates every permutation of the
components in `itertools.permutations` order. For each one it multiplies
the absolute similarities the permutation selects. It keeps the first
permutation with a strictly larger product, starting from a best product
of 0, and it fails with an assertion if nothing beats 0.
`compare_evolving_factors` then flips the sign of each matched component
of the second factor so that it agrees with the first. When
`visualise_evolving_factor` is given no permutation, it uses the identity.

- `Permutations` defines the enumeration (`Orderings`). It proves that the
  enumeration lists exactly the permutations of `0 .. rank-1`, in strictly
  increasing lexicographic order, with the identity first.
- `Decomposition.FindPermutation` is the search loop. Its contract says
  the result is a permutation that attains the largest product, that every
  lexicographically earlier permutation scores strictly less (the tie-break
  of the strict `>`), and that the search fails exactly when every product
  is 0. Lemmas show that this contract fixes the result uniquely. They also
  show that the identity wins when the diagonal entries have absolute value
  1 and no entry exceeds 1 in absolute value, which is the case for two
  identical factors.

**fMRI mosaics** (`plottools/fMRI/tile_plots.py`).

- `Rotation` models `rotate_right` on a height x width x slices volume,
  selection on the last axis (`volume[..., idx]`) and element-wise maps.
  It proves that four quarter turns give back the volume. It also proves
  that rotating commutes with slice selection and with taking the mask.
  `create_tile_plot` depends on that: it slices the data before rotating
  it, but rotates the whole template before slicing it.
- `TilePlots.SelectSlices` is the automatic slice choice. `CreateTilePlot`
  is the rotation loop of `create_tile_plot`. `ColourLimits` is the default
  colour range of `plot_tiled_fmri`. `CreateFmriTimestepsPlot` is the
  row-major panel grid of `create_fmri_timesteps_plot`.

Representation:
- A numpy masked array is a volume of `Voxel(value, masked)`, so the mask
  always moves with its data.
- A factor is its `reshape(-1, rank)` matrix: column r is component r,
  flattened.
- Numbers are exact `real`s and `int`s.

Three behaviours of the code are easy to misread, and the model follows the code:
- The automatic slice selection truncates `linspace` values. It does not
  round them to the nearest integer.
- The default `vmax` is `abs(max)`, not `max(abs)`. See Findings.
- The sign of a matched pair is `np.sign` of the dot product. It is 0, not
  +1 or -1, when the two components are orthogonal, and the second panel
  then shows all zeros.

## Model

| member | source | states |
|---|---|---|
| `Sequences.Range` | src/plottools/tensor/decomposition.py:10 | `range(n)` holds 0, 1, ..., n-1 in order |
| `RealArith.Abs` | src/plottools/tensor/decomposition.py:36 | `abs(x)` is non-negative and equals x or -x |
| `Decomposition.Column` | src/plottools/tensor/decomposition.py:72-73 | `factor[..., r].ravel()` holds entry r of every sample, in sample order |
| `TilePlots.Linspace` | plottools/fMRI/tile_plots.py:112 | `np.linspace(0, stop, num).astype(int)` has num points, starts at 0 and, with two or more points, ends at stop |
| `Permutations.OrderingsSound` | src/plottools/tensor/decomposition.py:33 | every enumerated candidate has one entry per component, drawn from the input, and has no repeats when the input has none |
| `Permutations.OrderingsComplete` | src/plottools/tensor/decomposition.py:33 | every arrangement of the component indices is enumerated |
| `Permutations.OrderingsSorted` | src/plottools/tensor/decomposition.py:33 | for increasing input, the candidates come in strictly increasing lexicographic order (itertools order for `range(rank)`) |
| `Permutations.FirstOrdering` | src/plottools/tensor/decomposition.py:33 | the first candidate enumerated is the input order itself |
| `Permutations.PermutationsOfRange` | src/plottools/tensor/decomposition.py:33 | the candidates for rank n are exactly the permutations of 0..n-1, sorted lexicographically, identity first |
| `Decomposition.PartialProduct` | src/plottools/tensor/decomposition.py:34-36 | the product of the absolute entries a permutation selects is never negative |
| `Decomposition.FindPermutation` | src/plottools/tensor/decomposition.py:30-44 | fails exactly when every permutation's product is 0; otherwise returns a permutation with the largest product, a product > 0, and every lexicographically earlier permutation scoring strictly less |
| `Decomposition.SearchFoundNothing` | src/plottools/tensor/decomposition.py:32-42 | if no enumerated candidate beats 0, no permutation has a non-zero product (the failing assert is justified) |
| `Decomposition.SearchFoundFirstMaximiser` | src/plottools/tensor/decomposition.py:33-40 | the candidate kept by the strict `>` scan beats or ties every permutation and strictly beats every earlier one |
| `Decomposition.FirstMaximiserUnique` | src/plottools/tensor/decomposition.py:38-40 | the tie-break rule determines the returned permutation uniquely |
| `Decomposition.IdentityIsLexLeast` | src/plottools/tensor/decomposition.py:33 | no permutation is lexicographically smaller than the identity, so the identity is enumerated first |
| `Decomposition.IdentityWinsOnUnitDiagonal` | src/plottools/tensor/decomposition.py:30-40 | if every entry is at most 1 in absolute value and the diagonal entries are exactly 1 in absolute value, the identity (product 1) is the only permutation the search can return |
| `Decomposition.CompareEvolvingFactors` | src/plottools/tensor/decomposition.py:69-79 | the two factors need equal sample counts only when signs are flipped; sign r is 1 without `flip_sign`, else +1/-1/0 exactly as the dot product of component r with component permutation[r] is positive/negative/zero; after the flip that dot product equals its absolute value (non-negative) |
| `Decomposition.VisualiseEvolvingFactor` | src/plottools/tensor/decomposition.py:6-18 | panel r shows component permutation[r], and component r when no permutation is given |
| `Decomposition.DefaultPermutationIsIdentity` | src/plottools/tensor/decomposition.py:9-10 | the default `tuple(range(rank))` is a permutation and is the first one the search enumerates |
| `Rotation.RotateRight` | plottools/fMRI/tile_plots.py:8-10 | shape (H, W, S) becomes (W, H, S) with out[j][i][s] = in[i][W-1-j][s] |
| `Rotation.RotateTimes` | plottools/fMRI/tile_plots.py:115-117 | after k quarter turns the height and width are swapped exactly when k is odd |
| `Rotation.HalfTurn` | plottools/fMRI/tile_plots.py:8-10 | two quarter turns reverse both rows and columns |
| `Rotation.FourQuarterTurns` | plottools/fMRI/tile_plots.py:115-117 | four quarter turns return the original volume |
| `Rotation.TakeSlices` | plottools/fMRI/tile_plots.py:114 | `volume[..., idx]` keeps height and width and holds slice idx[k] at position k |
| `Rotation.RotateCommutesWithSlicing` | plottools/fMRI/tile_plots.py:114-126 | rotating the selected slices equals selecting the same slices from the rotated volume |
| `Rotation.RotateTimesCommutesWithSlicing` | plottools/fMRI/tile_plots.py:114-126 | the same holds for any number of quarter turns, so the template tiles (rotate, then slice) match the data tiles (slice, then rotate) |
| `Rotation.RotateTimesCommutesWithMap` | plottools/fMRI/tile_plots.py:114-122 | the mask of a rotated masked volume is the rotated mask |
| `Rotation.SliceCommutesWithMap` | plottools/fMRI/tile_plots.py:114-121 | the mask of the selected slices is the selection of the mask |
| `TilePlots.SelectSlices` | plottools/fMRI/tile_plots.py:106-112 | with enough tiles, all slices in order; otherwise exactly num_tiles indices, strictly increasing, within range, from slice 0 to the last slice, each the floor of the exact linspace point |
| `TilePlots.LinspaceSpread` | plottools/fMRI/tile_plots.py:112 | the truncated linspace over [0, stop] with at most stop points is strictly increasing, bounded by stop, and hits both ends |
| `TilePlots.CreateTilePlot` | plottools/fMRI/tile_plots.py:106-127 | the data, its mask and the template are handed to tiling as "select the chosen slices, then rotate `rotation` times" (none for a negative count) |
| `TilePlots.UnmaskedMax` | plottools/fMRI/tile_plots.py:156 | the masked `max()` is an unmasked value no smaller than any other unmasked value, and is absent exactly when everything is masked |
| `TilePlots.ColourLimits` | plottools/fMRI/tile_plots.py:155-158 | an explicit vmax is kept, else vmax = \|max of unmasked values\|; an explicit vmin is kept, else vmin = -vmax; fully defaulted, vmin <= 0 <= vmax and the range is symmetric |
| `TilePlots.ColourLimitsCanClipNegativeValues` | plottools/fMRI/tile_plots.py:155-158 | the mosaic with values -3 and 1 gets the range [-1, 1], which leaves -3 outside |
| `TilePlots.SymmetricColourLimits` | plottools/fMRI/tile_plots.py:155-158 | the corrected rule keeps explicit limits independently; a defaulted vmax is the largest absolute unmasked value, and there is none exactly when everything is masked; a defaulted vmin is -vmax |
| `TilePlots.SymmetricColourLimitsCover` | plottools/fMRI/tile_plots.py:155-158 | with the corrected rule, every unmasked value lies in [vmin, vmax] |
| `TilePlots.CreateFmriTimestepsPlot` | plottools/fMRI/tile_plots.py:37-44 | panel (i, j) shows time step num_cols*i+j and is hidden exactly when that step does not exist; every step below min(T, rows*cols) is shown at (t / num_cols, t % num_cols) and nowhere else |
| `TilePlots.GridPlacement` | plottools/fMRI/tile_plots.py:37-44 | a grid filled row-major places each existing time step in exactly one panel |

## Findings

| source | as written | input that shows it | evidently intended | confidence | as-written member | corrected member |
|---|---|---|---|---|---|---|
| plottools/fMRI/tile_plots.py:156 | the default vmax is the absolute value of the largest unmasked value, so unmasked values below -vmax fall outside the symmetric colour range | unmasked values -3 and 1 give vmin = -1, vmax = 1, and -3 is clipped | vmax is the largest absolute unmasked value, so the symmetric range covers every value | medium; not executed | `TilePlots.ColourLimitsCanClipNegativeValues` | `TilePlots.SymmetricColourLimitsCover` |

`TilePlots.ColourLimits` remains the model of the code as written. `TilePlots.SymmetricColourLimits` is the corrected rule.

`Decomposition.Dot` (`fv1 @ fv2`), `Decomposition.Sign` (`np.sign`) and `TilePlots.ChosenSlices` (how `slice_idx` is resolved) are helper definitions of library calls and source expressions. Their behaviour is pinned down by the contracts of the members that use them.

## Left out

- Drawing is not modelled: `plt.subplots`, `imshow`, `colorbar`, `set_title`, `tight_layout` and `set_visible`. A panel is reduced to what it shows.
- `plt.subplots` returns a 1-D array of axes when one of its two sizes is 1, and a single axes when both are. `create_fmri_timesteps_plot` therefore fails on `subplots_axes[i][j]` when `num_rows` or `num_cols` is 1. `visualise_evolving_factor` fails only at rank 1, because it cannot iterate over a single axes. `compare_evolving_factors` fails only at rank 1, on `row[0]` of a single axes. The model describes every size.
- Similarity computation is not modelled: flattening, column L2 normalisation with `np.linalg.norm`, and `fms = ev1.T @ ev2`. The search starts from a given square `fms`. Zero-norm columns, and the NaN they produce, are not modelled.
- Floating point is not modelled. Products are exact reals, so rounding, underflow to 0 and NaN comparisons are not captured.
- `np.linspace(...).astype(int)` is modelled as the exact floor. Floating-point rounding can put a computed point just below an integer and truncate it one lower.
- `itertools.permutations` is a lazy generator. The model builds the whole candidate list first, which changes no result.
- `scipy.stats.zscore` is not modelled, so the `zscore` option of both fMRI plots is left out.
- `tile_image` and `maryland_cmap` come from `plottools/fMRI/base.py`. That file is not part of this model, so the mosaic layout and the colour map are not modelled.
- `create_fmri_factor_plot` is left out. It only z-scores and makes one `create_tile_plot` call.
- `create_fmri_timesteps_plot` and `create_fmri_factor_plot` take a `rotation` argument but never pass it on. Their panels always use `create_tile_plot`'s default of one quarter turn.
- The grid model records which time step each panel shows. It does not repeat the per-panel `create_tile_plot` call.
- Decomposition.CompareEvolvingFactors: takes the permutation as an input. The `permutation='auto'` branch calls `find_permutation` on the raw factors, and its similarity matrix is out of scope (see above).
- Decomposition.CompareEvolvingFactors and Decomposition.VisualiseEvolvingFactor: an explicit permutation must have an entry below `rank` for each component. Python would raise IndexError on a short tuple, or wrap negative entries, and the model does not capture either.
- TilePlots.CreateTilePlot: the chosen slice indices must lie within both the image and the template. This covers explicit indices and the automatic selection: with a template that has fewer slices than the image, the source raises IndexError when it slices the template. Python's IndexError and its wrap-around of negative indices are not modelled.
- TilePlots.ColourLimits: when every element is masked and no vmax is given, numpy yields its `masked` constant. The model gives no range (`None`) and does not follow what `imshow` then does. A mosaic with no elements at all makes numpy's `max()` raise ValueError. The model gives `None` for it too, as if every element were masked.
- Factors are modelled as (samples x rank) matrices. The N-dimensional arrays of the source are reached through `reshape(-1, rank)`, and the panel images are those columns before they are reshaped back.
- `plot_tiled_fmri` returns `template_imshow`, which is unbound when no template is given. That fails with UnboundLocalError, and the return value is part of the drawing, which is not modelled.
- A volume carries its shape explicitly, because a sequence with no rows cannot record its width.
