# Bootstrap bookkeeping of the causal-effect decomposition

This project models, in Dafny, the bookkeeping layer of the causal forest
decomposition in `00_CausalEffectsDecomp`:

- **`ci_crf`, lines 30-50** (`causal_forest.py`), in module `CausalForest`.
  - It picks the outer (refit) bootstrap sample. For `rep <= 1` this is the identity order; otherwise it is a draw of `n` indices from `[0, n)`.
  - It builds the dict `boots` of `nboot` inner replicates. Each replicate holds the draw `all` and the two index arrays `id0` / `id1` obtained from it with the mask `X == x0` and its negation.
  - It computes `tv`, the mean of the outcome over `id1` minus its mean over `id0`, per replicate.
- **The measure aggregators `msd_one` / `msd_two` / `msd_three` and the placeholder filler `inh_str`**, in module `CiHelpers`.
  - The two checkpoint files `helpers-checkpoint.py` and `ci_helpers-checkpoint.py` hold identical text for these four functions. They are modelled once, and the table cites `ci_helpers-checkpoint.py`, the checkpoint copy of the module `ci_helpers` that `causal_forest.py` imports.
- **The column bookkeeping of `auto_dummy`** (`helpers-checkpoint.py`), in module `Helpers`.
  - It finds which members of `col` are categorical and builds the adjusted column list `col_adj`.
  - It lays out the adjusted frame: indicator columns, then the non-categorical members of `col`, then every other column, unchanged.
  - It fails with `KeyError` when a member of `col` is not a column of the frame, and otherwise with `ValueError` when no member of `col` is categorical: `pd.get_dummies` on a frame with no columns has nothing to concatenate.

Two support modules hold the primitives the source leans on:

- `NanValues`: a float cell is `Option<real>`, with `None` for NaN. It defines NaN-propagating `+` and unary `-`, and `NanMean` (numpy's `nanmean`: the mean of the non-NaN entries, NaN if there are none).
- `ArrayOps`: `np.arange`, integer-array indexing (`Take`), boolean-mask indexing (`Compress`), `~` and `np.isin`. It also defines `Interleaves`, the reference notion of an order-preserving partition of an array into two subsequences.

A Python dict iterates in insertion order. `boots` is therefore a `BootDict`: the key order together with the key-to-replicate map. The `for b in boots` loops of the aggregators are `while` loops over that key order. The `for key in boots` loop of `ci_crf` fills the map key by key.

The random draws are parameters of `CausalForest.CiCrf`:
- `outerDraw` stands for `np.random.randint(0, n, n)`, with length and range preconditions;
- `innerDraws[k]` stands for the draw of inner replicate `k`.

Line 39 calls `np.random.randin`, which numpy does not define. The model takes the evidently intended `randint`.

Four behaviours of the code that are easy to misread; the model follows the code as written:
- The guard on line 31 is `rep > 1`, so the outer sample is the data as is for `rep <= 1`: outer replicates 0 and 1 both use it unresampled.
- `id1` is the complement of `id0` (rows with `X != x0`); the level `x1` plays no part in lines 30-50.
- `inh_str` accepts `set0` and `setna` together. NaN wins, because it is assigned last.
- Applying `inh_str` twice equals applying the second call alone only when the second call sets a flag. With neither flag, the values forced by the first call stay (`CiHelpers.PlaceholderTwice`).

## Model

| member | source | states |
|---|---|---|
| `NanValues.NanMeanMissingIff` | 00_CausalEffectsDecomp/.ipynb_checkpoints/ci_helpers-checkpoint.py:19 | `nanmean` is NaN exactly when every entry is NaN, including the empty array; it is never 0 then |
| `NanValues.NanMeanNegated` | 00_CausalEffectsDecomp/causal_forest.py:50 | negating every entry of an array (the `-y` passed to `msd_two`) negates its `nanmean` (NaN stays NaN) |
| `NanValues.NanMeanWithin` | 00_CausalEffectsDecomp/.ipynb_checkpoints/ci_helpers-checkpoint.py:19 | a defined `nanmean` lies between any lower and upper bound of the non-NaN entries |
| `ArrayOps.TakeArange` | 00_CausalEffectsDecomp/causal_forest.py:31-32 | indexing with `np.arange(0, n)` gives the array back row for row |
| `ArrayOps.CompressInterleaves` | 00_CausalEffectsDecomp/causal_forest.py:41-43 | `ind[mask]` and `ind[~mask]` are an order-preserving partition of `ind` |
| `ArrayOps.InterleavesCounts` | 00_CausalEffectsDecomp/causal_forest.py:41-47 | an order-preserving partition keeps every entry exactly once: lengths add up and multisets add up |
| `ArrayOps.CompressMember` | 00_CausalEffectsDecomp/causal_forest.py:42-43 | a value is in `s[mask]` exactly when some position holding it has its mask bit set |
| `CiHelpers.MsdOne` | 00_CausalEffectsDecomp/.ipynb_checkpoints/ci_helpers-checkpoint.py:14-26 | one row per key of `boots`, in iteration order; row i has boot id i, the NaN-skipping mean of `x1` over that replicate's subset `t1`, and measure `meas` |
| `CiHelpers.MsdTwo` | 00_CausalEffectsDecomp/.ipynb_checkpoints/ci_helpers-checkpoint.py:41-54 | as `msd_one`, with the value being the NaN-propagating sum of the two means |
| `CiHelpers.MsdThree` | 00_CausalEffectsDecomp/.ipynb_checkpoints/ci_helpers-checkpoint.py:72-86 | as `msd_one`, with the value being the NaN-propagating sum of the three means |
| `CiHelpers.TermUndefinedIff` | 00_CausalEffectsDecomp/.ipynb_checkpoints/ci_helpers-checkpoint.py:17-19 | a replicate's mean term is NaN exactly when every selected entry is NaN or nothing is selected |
| `CiHelpers.TwoTermsUndefined` | 00_CausalEffectsDecomp/.ipynb_checkpoints/ci_helpers-checkpoint.py:47 | the `msd_two` value is NaN exactly when one of its two mean terms is NaN |
| `CiHelpers.TermNegated` | 00_CausalEffectsDecomp/.ipynb_checkpoints/ci_helpers-checkpoint.py:47 | passing `-x` instead of `x` negates the mean term |
| `CiHelpers.DifferenceOfMeans` | 00_CausalEffectsDecomp/causal_forest.py:50 | `msd_two(y, "id1", -y, "id0")` is mean over id1 minus mean over id0 when both are defined, NaN otherwise |
| `CiHelpers.TwoTermsSymmetric` | 00_CausalEffectsDecomp/.ipynb_checkpoints/ci_helpers-checkpoint.py:47 | swapping the `(x1, t1)` and `(x2, t2)` pairs of `msd_two` gives the same value |
| `CiHelpers.ThreeIsTwoPlusOne` | 00_CausalEffectsDecomp/.ipynb_checkpoints/ci_helpers-checkpoint.py:74-80 | the `msd_three` value is the `msd_two` value on the first two pairs plus the `msd_one` value on the third |
| `CiHelpers.InhStr` | 00_CausalEffectsDecomp/.ipynb_checkpoints/ci_helpers-checkpoint.py:99-106 | same row count and boot column, every measure renamed, values forced to 0 by `set0` and to NaN by `setna` (NaN wins), otherwise kept; the input table is not changed |
| `CiHelpers.PlaceholderRenameOnly` | 00_CausalEffectsDecomp/.ipynb_checkpoints/ci_helpers-checkpoint.py:99-104 | with neither flag every row keeps its boot id and value and only the measure changes |
| `CiHelpers.PlaceholderTwice` | 00_CausalEffectsDecomp/.ipynb_checkpoints/ci_helpers-checkpoint.py:99-104 | two calls: the last name wins; the last call's flags win if it sets one, otherwise the first call's flags show |
| `CausalForest.LevelSplit` | 00_CausalEffectsDecomp/causal_forest.py:41-47 | the replicate built from a draw with the mask `X == x0` is well split: `id0`, `id1` partition `all` in order, `id0` rows are at level x0 and `id1` rows are not |
| `CausalForest.WellSplitCounts` | 00_CausalEffectsDecomp/causal_forest.py:41-47 | in a well-split replicate, `len(id0) + len(id1) == len(all)` and the index multisets add up |
| `CausalForest.WellSplitUnique` | 00_CausalEffectsDecomp/causal_forest.py:41-43 | a draw has only one well split: two well-split replicates with the same `all` are equal |
| `CausalForest.InnerBoots` | 00_CausalEffectsDecomp/causal_forest.py:36-47 | `boots` has exactly the keys 0..nboot-1 in order; replicate k holds draw k as `all` and is well split |
| `CausalForest.CiCrf` | 00_CausalEffectsDecomp/causal_forest.py:30-50 | `boot_data` has n rows and equals `data` for rep <= 1, row j is `data[outerDraw[j]]` otherwise; `boots` as in `InnerBoots`; `tv` row i is the level gap of y on replicate i |
| `Helpers.ColumnsInMember` | 00_CausalEffectsDecomp/.ipynb_checkpoints/helpers-checkpoint.py:118-119 | a column is in `data_adj_col` exactly when its label is in `col`, and in `data_adj_other` exactly when it is not |
| `Helpers.SplitByCol` | 00_CausalEffectsDecomp/.ipynb_checkpoints/helpers-checkpoint.py:118-119 | `data_adj_col` and `data_adj_other` are an order-preserving partition of the frame's columns |
| `Helpers.CategoricalNamesMember` | 00_CausalEffectsDecomp/.ipynb_checkpoints/helpers-checkpoint.py:121 | `col_cat` holds exactly the members of `col` that label a categorical column |
| `Helpers.NonCategoricalMember` | 00_CausalEffectsDecomp/.ipynb_checkpoints/helpers-checkpoint.py:122 | `col_other` holds exactly the members of `col` that do not label a categorical column, as a subsequence of `col` |
| `Helpers.AutoDummy` | 00_CausalEffectsDecomp/.ipynb_checkpoints/helpers-checkpoint.py:108-135 | `ValueError` only when `col_cat` is empty, success only when it is not; on success the frame keeps the row count and has one column per entry of `col_adj` plus one per column outside `col` |
| `Helpers.CategoricalColumnsNames` | 00_CausalEffectsDecomp/.ipynb_checkpoints/helpers-checkpoint.py:121-124 | `data_adj_col[col_cat]` holds exactly one column per label of `col_cat`, in that order, so the indicator block comes from the categorical members of `col` |
| `Helpers.AutoDummyFails` | 00_CausalEffectsDecomp/.ipynb_checkpoints/helpers-checkpoint.py:126 | `auto_dummy` raises `KeyError` exactly when some member of `col` is not a column of the frame |
| `Helpers.AutoDummyMissing` | 00_CausalEffectsDecomp/.ipynb_checkpoints/helpers-checkpoint.py:126 | the `KeyError` names at least one label, and only members of `col` that are not columns of the frame |
| `Helpers.AutoDummyNoCategorical` | 00_CausalEffectsDecomp/.ipynb_checkpoints/helpers-checkpoint.py:121-128 | `auto_dummy` raises `ValueError` exactly when every member of `col` is a frame column and none is categorical, `col = []` included |
| `Helpers.AutoDummyLayout` | 00_CausalEffectsDecomp/.ipynb_checkpoints/helpers-checkpoint.py:128-133 | `col_adj` is the indicator names followed by `col_other`; the labels are `col_adj` followed by the labels outside `col`; those outside columns come last, unchanged and in order |
| `Helpers.AutoDummyRows` | 00_CausalEffectsDecomp/.ipynb_checkpoints/helpers-checkpoint.py:132-133 | when `get_dummies` keeps the row count, every column of the adjusted frame has one cell per row of `data` |

## Left out

- The EconML `CausalForest` import and the forest parameters of `ci_crf` (`crf_criterion`, `crf_min_samples_leaf`, `max_features`, `honest`): `causal_forest.py` ends at line 50 with `tv`, before any forest is fitted, so no forest behaviour is modelled.
- Random number generation: the draws are parameters with length and range preconditions. What `np.random.randint(0, 0, 0)` does for an empty frame is numpy behaviour and is not modelled; an empty draw is accepted.
- `CausalForest.CiCrf`: an observation carries only the two columns the modelled lines read (`X` and `Y` as float). The mediator and confounder columns `Z`, `W`, the level `x1` and the forest settings are used only after line 50.
- `CausalForest.CiCrf`: `dict.fromkeys` first fills `boots` with `None` values. The model inserts each replicate directly; the dict after the loop is the same.
- `Y.astype(float)`: the outcome is taken to be numeric already. Conversion errors for non-numeric values are not modelled.
- `CiHelpers.MsdOne`, `CiHelpers.MsdTwo`, `CiHelpers.MsdThree`: every selected index must lie within the array. The source raises on an out-of-range index, but the replicates built by `ci_crf` never contain one.
- IEEE float behaviour: values are exact reals with `None` for NaN. Rounding is not modelled.
- `pd.get_dummies`: the naming and ordering of indicator columns is library behaviour. It is the parameter `dummies`. Its one failure the model keeps is the `ValueError` on a frame with no columns, which `auto_dummy` reaches when `col_cat` is empty.
- dtype detection (`np.isin` on dtypes) is the per-column flag `categorical`.
- Duplicate column labels are not modelled: the selections the model makes by mask (lines 118, 119 and 124) keep every matching column, and `Select` (`frame[labels]`, line 126) takes the first, where pandas takes every matching column for each label.
- `fairness_cookbook` (`decompositions-checkpoint.py`) is pandas orchestration around `ci_crf`: empty-set normalisation, dtype sniffing, the replicate loop, and a grouped mean and standard deviation.
