# GRATools angular correlation estimator and flux summation, in Dafny

This project models two parts of GRATools, a toolkit for the anisotropy
analysis of Fermi-LAT gamma-ray sky maps, and proves properties of them.

- **The Csi estimator** (`bin/mkcsi.py`). It measures the angular two-point
  correlation of one energy bin's flux map. It has four parts:
  - `permute_unmasked_pix` shuffles the unmasked pixel values of the control
    map, in place.
  - `udgrade_as_psf` lowers the HEALPix order of a map until its pixels are
    as large as the PSF containment angle squared.
  - `csi_compute` accumulates, for one seed pixel, the annulus-binned
    products of fluctuation values.
  - The driver body of `mkCsi` computes the sky fraction, the unmask set,
    the fluctuation maps and the mean angles. It maps `csi_compute` over
    every unmasked seed pixel, sums the results per angular bin and returns
    `csi_k = S_k / N_k` and `r_k = R_k / N_k`.
- **The flux summation of `mkAnalysis`** (`bin/mkanalysis.py`). For every
  entry of the file dictionary it:
  - reads the labels' flux maps;
  - takes `_index` from the map read last;
  - adds every further map into the first one, in place, at `_index`;
  - records the mean over `_index` in `_fmean[bin_num]`.

Modules, one file each:

| file | module | models |
|---|---|---|
| `sky_maps.dfy` | `SkyMaps` | the `hp.UNSEEN` sentinel, unmasked values and indices, `fsky`, the fluctuation map, numpy float division |
| `permute.dfy` | `Permute` | `permute_unmasked_pix` on an `array<real>`, specified by the function `PermuteUnmasked` |
| `annulus.dfy` | `Annulus` | the rings of `csi_compute`, the filtered ring sums and counts, and the `CsiCompute` method |
| `udgrade.dfy` | `Udgrade` | the order loop of `udgrade_as_psf`, specified by `MatchedOrder` |
| `csi_reduce.dfy` | `CsiReduce` | the body of `mkCsi` for one energy bin, from the PSF-matched maps to the `csi` and `r` rows |
| `analysis.dfy` | `Analysis` | the `mkAnalysis` loop over the file dictionary, on arrays that the summation mutates in place |

Modelling choices:

- **Pixel values** are `real`. `hp.UNSEEN` is the constant `Unseen = -1.6375e30`.
- **`UNSEEN - Imean`** rounds back to `UNSEEN` in double precision whenever `|Imean| < 2^47` (about 1.4e14). `UNSEEN` lies in [2^100, 2^101) in magnitude, where one ulp is 2^48. Mean fluxes are far below that bound. `Fluctuation` writes this out: a sentinel pixel stays the sentinel.
- **Division by zero** gives numpy's `nan` or `±inf`, not an exception. The `Quotient` datatype models this (`Finite`, `NaN`, `PosInf`, `NegInf`).
- **Disc queries.** Each `hp.query_disc` result is an input set of pixel indices, one set per threshold and seed pixel.
- **Ring sums** run over the pixels in increasing index order. That is the order `np.setxor1d` returns.
- **The random draw** of `np.random.permutation` is a parameter `perm`, a permutation of `0 .. n-1`.
- **The worker pool's `p.map`** is a sequential map over the seed pixels, in `_unmask` order. `BinTotalsOrderIndependent` shows the order does not matter.
- **Pixel area.** In `Udgrade` the pixel area of an order is an arbitrary function `area`. `HealpixPixArea` gives healpy's value `4*pi / (12 * 4^order)` for a given `pi`, and the model proves that value strictly decreasing.

Behaviour of the code that the model keeps:

- The loop in `bin/mkcsi.py:99-104` tests `order < 7` only after the decrement, so the coarsest order it reaches is 6 (NSIDE 64), not 7. The floor is `Floor(inOrder) = min(inOrder - 1, 6)`.
- `bin/mkcsi.py:139` reads `R` from the same flux file as the map. `MkCsiBin` takes both maps as inputs. `SameFileControlSharesCounts` shows that when they are the same map, `N_k` is also the number of `R` terms.
- Both ratios are divided by the `dI`-based counts `N_k`. `r_k` is not divided by a count of unmasked `R` pixels.
- When the flux map has no unmasked pixel, the code fails while indexing the empty result array. `MkCsiBin` returns `Err(NoUnmaskedPixel)` in that case.

## Model

| member | source | states |
|---|---|---|
| SkyMaps.Divide | bin/mkcsi.py:179-180 | numpy float division: the quotient is finite exactly when the denominator is non-zero, and then times the denominator gives the numerator; it is nan exactly for 0/0 |
| SkyMaps.UnmaskedValues | bin/mkcsi.py:59-60 | the values kept by the `val > hp.UNSEEN` filter are no more than the pixels and each lies above the sentinel |
| SkyMaps.RankCountsPrefix | bin/mkcsi.py:59-60 | the rank of pixel i is the number of unmasked values among the pixels before i |
| SkyMaps.UnmaskedValueAtRank | bin/mkcsi.py:59-60 | an unmasked pixel's value sits in `unfrozen_set` at its rank |
| SkyMaps.UnmaskIndices | bin/mkcsi.py:146 | `np.where(map != hp.UNSEEN)` has at most npix entries, each a pixel of the map |
| SkyMaps.UnmaskIndicesExact | bin/mkcsi.py:146 | the unmask set lists exactly the pixels that are not the sentinel, each once, in increasing order |
| SkyMaps.CountUnseen | bin/mkcsi.py:141 | `len(np.where(flux_map == hp.UNSEEN)[0])` is at most npix, and is 0 exactly when no pixel is the sentinel |
| SkyMaps.UnmaskSplitsPixels | bin/mkcsi.py:141-147 | `npix_unmask` plus the number of sentinel pixels is npix |
| SkyMaps.Fsky | bin/mkcsi.py:141-142 | `fsky = 1 - #UNSEEN/npix` lies in [0, 1], equals `npix_unmask/npix`, and is 1 exactly when no pixel is masked |
| SkyMaps.ShareOfPixels | bin/mkcsi.py:141-142 | for u + c = n > 0: `1 - c/n = u/n`, it lies in [0, 1] and is 1 exactly when c = 0 |
| SkyMaps.Fluctuation | bin/mkcsi.py:149-150 | `map - Imean` keeps every sentinel pixel at the sentinel and shifts every other pixel by exactly Imean |
| Permute.ShufflePreservesMultiset | bin/mkcsi.py:61 | `np.random.permutation` of the unmasked values is a rearrangement: same multiset of values |
| Permute.Shuffle | bin/mkcsi.py:61 | `np.random.permutation` returns as many values as it is given; `ShufflePreservesMultiset` proves they are the same values |
| Permute.PermuteUnmasked | bin/mkcsi.py:58-63 | the shuffled map has the length of the input map |
| Permute.PermutedPixel | bin/mkcsi.py:62 | an unmasked pixel receives the shuffled value at its rank and stays unmasked; a masked pixel keeps its value |
| Permute.PermutedPrefix | bin/mkcsi.py:59-62 | reading the shuffled map in pixel order up to j gives the shuffled values up to j's rank |
| Permute.PermutePreservesUnmaskedMultiset | bin/mkcsi.py:58-63 | the sentinel pattern is unchanged, no masked pixel changes, the unmasked values read in pixel order are the shuffled ones, and their multiset is unchanged |
| Permute.UnfrozenIndices | bin/mkcsi.py:59 | the comprehension's loop lists exactly the pixels above the sentinel, in increasing order, one per unmasked value, the k-th holding the k-th unmasked value |
| Permute.PermuteUnmaskedPix | bin/mkcsi.py:58-63 | the function shuffles the array in place and returns that same array, whose new contents are `PermuteUnmasked` of the old contents |
| Annulus.Ring | bin/mkcsi.py:80 | `np.setxor1d`: a pixel is in the ring exactly when it is in one of the two discs and not the other |
| Annulus.RingSum | bin/mkcsi.py:81-85 | the sum over the ring pixels above the sentinel is 0 when no ring pixel is above the sentinel, so `dIij` is then 0 |
| Annulus.RingCount | bin/mkcsi.py:83-87 | `len(dIj)` never exceeds the number of pixels of the map |
| Annulus.RingOfNestedDiscs | bin/mkcsi.py:80 | for an inner disc inside the outer one, `setxor1d` is the outer minus the inner disc, of size the difference of their sizes |
| Annulus.NestedMonotone | bin/mkcsi.py:77-79 | with nested discs for increasing thresholds, every disc contains each earlier one |
| Annulus.RingsDisjoint | bin/mkcsi.py:77-80 | with nested discs, the rings of two different bins share no pixel |
| Annulus.RingsCoverOuterDisc | bin/mkcsi.py:77-80 | the rings of the first n bins together are the n-th disc minus the innermost disc, and their sizes add up to the size of that difference |
| Annulus.RingCountIsUnmaskedRingSize | bin/mkcsi.py:83-87 | `counts` is the number of ring pixels at which dI is above the sentinel |
| Annulus.RingCountBound | bin/mkcsi.py:83-87 | `counts` is at most the ring size, and equals it exactly when every ring pixel is unmasked |
| Annulus.SameMaskSameCount | bin/mkcsi.py:81-87 | two maps with the same sentinel pattern give the same count in every ring |
| Annulus.CsiCompute | bin/mkcsi.py:65-91 | one single-entry list per bin in each of the three results: dI[i] times the unmasked dI ring sum, the unmasked dI count, and R[i] times the ring sum of R filtered by R's own test |
| Udgrade.HealpixPixArea | bin/mkcsi.py:98-102 | `nside2pixarea(2^order)` is positive |
| Udgrade.HealpixPixAreaStep | bin/mkcsi.py:98-102 | `nside2pixarea` for order o+1 is smaller than for order o |
| Udgrade.HealpixPixAreaDecreasing | bin/mkcsi.py:98-102 | `nside2pixarea` is strictly decreasing in the order |
| Udgrade.HealpixPixAreaStrictlyDecreasing | bin/mkcsi.py:98-102 | healpy's pixel area as a function of the order meets the hypothesis of `MatchedOrderIsLargestAdequate` |
| Udgrade.AfterDecrement | bin/mkcsi.py:99-104 | the loop resumed after decrementing to order o stops between min(o, 6) and o |
| Udgrade.MatchedOrder | bin/mkcsi.py:97-105 | the order the loop settles on lies between min(input - 1, 6) and the input order |
| Udgrade.AfterDecrementFacts | bin/mkcsi.py:99-104 | from a decremented order o, the loop stops between min(o, 6) and o; every order it passes has pixels too small; it stops on large enough pixels or at the floor |
| Udgrade.MatchedOrderBounds | bin/mkcsi.py:94-105 | the output order lies between min(input - 1, 6) and the input order; it is the input order when the input pixels are already large enough; every skipped order had too small pixels |
| Udgrade.MatchedOrderIsLargestAdequate | bin/mkcsi.py:97-105 | with decreasing areas, if the floor's pixels are large enough the output is the largest order not above the input whose pixel area reaches `cont_ang^2`, otherwise the floor |
| Udgrade.AfterDecrementMonotone | bin/mkcsi.py:99-104 | a larger area threshold never makes the loop stop at a finer order |
| Udgrade.MatchedOrderMonotone | bin/mkcsi.py:97-105 | a larger containment angle never yields a finer output order |
| Udgrade.UdgradeAsPsfOrder | bin/mkcsi.py:93-105 | the loop terminates with the order `MatchedOrder` gives for the input order and `cont_ang^2` |
| CsiReduce.BinTotals | bin/mkcsi.py:175-178 | `np.sum` of a bin's three columns over the seed pixels; N_k is 0 exactly when every seed's count for the bin is 0 |
| CsiReduce.PairTotals | bin/mkcsi.py:81-87 | S_k, N_k and R_k stated on the maps; N_k is 0 exactly when no seed's ring of bin k holds an unmasked dI pixel |
| CsiReduce.BinTotalsRemove | bin/mkcsi.py:175-178 | the per-bin sum over seeds is any one seed's contribution plus the sum over the others |
| CsiReduce.WellFormedUnderPermutation | bin/mkcsi.py:168-171 | rearranging the per-pixel results keeps each one well formed |
| CsiReduce.MatchFirst | bin/mkcsi.py:168-178 | the first result of one order can be found in any rearrangement, and the rest are a rearrangement of the remainder |
| CsiReduce.BinTotalsOrderIndependent | bin/mkcsi.py:168-178 | S_k, N_k and R_k are the same for every order in which the pool returns the per-pixel results |
| CsiReduce.ControlMap | bin/mkcsi.py:150-152 | dR, the control fluctuation map permuted over its unmasked pixels, has one value per pixel |
| CsiReduce.PixelResultsWellFormed | bin/mkcsi.py:168-171 | every csi_compute result has one single-entry list per angular bin |
| CsiReduce.BinTotalsArePairTotals | bin/mkcsi.py:168-178 | summing the per-pixel results gives, for each bin, the pair sums stated directly on dI and dR over all seed pixels |
| CsiReduce.EmptyBinIsNaN | bin/mkcsi.py:179-180 | a bin with N_k = 0 has S_k = 0, so its csi value is nan and not an error |
| CsiReduce.SameFileControlSharesCounts | bin/mkcsi.py:136-152 | when R is read from the flux map's own file, every ring has as many unmasked dR pixels as unmasked dI pixels |
| CsiReduce.GeometricMeanInsideBin | bin/mkcsi.py:155-157 | for 0 <= thmin < thmax, theta^2 = thmin * thmax lies inside the bin: thmin^2 <= theta^2 < thmax^2 |
| CsiReduce.MeanAnglesInsideBins | bin/mkcsi.py:153-158 | for non-negative, strictly increasing thresholds, every squared mean angle lies inside its bin |
| CsiReduce.MeanAngles | bin/mkcsi.py:153-158 | one mean angle per bin, kept squared as th_k * th_(k+1); for non-negative increasing thresholds each lies inside its bin, th_k^2 <= theta_k^2 < th_(k+1)^2 |
| CsiReduce.MapSeeds | bin/mkcsi.py:160-168 | the pool's map yields, for each unmasked seed pixel in order, exactly the csi_compute result for that pixel |
| CsiReduce.ReduceBins | bin/mkcsi.py:169-178 | the loop over bins yields, for every bin, the sums of the three columns over all seed pixels |
| CsiReduce.Normalise | bin/mkcsi.py:179-180 | each ratio is finite exactly when its count is non-zero, and then the ratio times the count is the sum |
| CsiReduce.MkCsiBin | bin/mkcsi.py:141-180 | an error exactly when no pixel is unmasked; otherwise fsky, one squared mean angle per bin, and csi_k and r_k as the pair sums over dI and the permuted dR divided by the common count N_k |
| Analysis.SumAtIndex | bin/mkanalysis.py:76-78 | the first map after the loop has its own number of pixels, and stays as it was when `_index` is empty or the entry has one map |
| Analysis.BinSum | bin/mkanalysis.py:70-78 | the map an entry leaves has the first map's size, and an entry with one label leaves its map unchanged |
| Analysis.MeanOver | bin/mkanalysis.py:80 | `np.sum(v[index]) / len(v[index])` is finite exactly when the index is non-empty, nan when it is empty, and otherwise times the size gives the sum |
| Analysis.BinMean | bin/mkanalysis.py:76-80 | `mean_flux` is finite exactly when `_index` is non-empty |
| Analysis.LastUnmask | bin/mkanalysis.py:74 | `_index`, the unmask set of the map read last, holds only pixels of the bin's maps |
| Analysis.BinSumAtPixel | bin/mkanalysis.py:70-78 | a pixel holds the sum over all maps exactly where the map read last is not the sentinel; elsewhere it keeps the first map's value, whatever the earlier masks |
| Analysis.FmeanAfter | bin/mkanalysis.py:63-81 | `_fmean` keeps one entry per energy bin |
| Analysis.UnassignedEntryStaysZero | bin/mkanalysis.py:63-81 | an energy bin no dictionary entry names keeps its initial 0 |
| Analysis.LastWriteWins | bin/mkanalysis.py:64-81 | an energy bin's entry holds the mean flux of the last dictionary entry naming it |
| Analysis.MapsIndexSumStep | bin/mkanalysis.py:76-80 | summing every map over the index set splits into the last pixel's column sum plus the sum over the other pixels |
| Analysis.IndexSumOfColumns | bin/mkanalysis.py:76-80 | summing a map of column sums over the index set is summing every map over that set |
| Analysis.BinMeanIsSumOverMaps | bin/mkanalysis.py:76-80 | `mean_flux` is the sum over all the bin's maps of their totals over `_index`, divided by the size of `_index`; it is nan exactly when the last map is fully masked |
| Analysis.IndexSumBounds | bin/mkanalysis.py:80 | the sum over the index set lies between n times the lower bound and n times the upper bound of the values summed |
| Analysis.MeanWithinBounds | bin/mkanalysis.py:80 | over a non-empty index set the mean is finite and lies between the smallest and largest value averaged |
| Analysis.AccumulateAtIndex | bin/mkanalysis.py:76-78 | the summation returns the first map itself, which now holds the column sum at every pixel of the index set and its old value elsewhere; no other map changes |
| Analysis.ReadMap | bin/mkanalysis.py:72-73 | reading a map gives a fresh array of its pixel values |
| Analysis.ReadMaps | bin/mkanalysis.py:70-75 | the label loop reads each map into its own fresh array, in order, and `_index` ends as the unmask set of the last map read |
| Analysis.SumBin | bin/mkanalysis.py:65-80 | one dictionary entry yields its summed map and its mean flux |
| Analysis.BinSums | bin/mkanalysis.py:79 | `final_maps` holds one summed map per dictionary entry |
| Analysis.NextBin | bin/mkanalysis.py:64-81 | processing one more dictionary entry sets its bin's `_fmean` entry and appends its summed map |
| Analysis.MkAnalysis | bin/mkanalysis.py:63-81 | after the loop, `_fmean` is the list of means given by `FmeanAfter`, and `final_maps` holds the entries' summed maps in dictionary order, each a freshly read array |

## Left out

- File and configuration I/O is not modelled: `hp.read_map`/`hp.write_map`, the Csi text table, the parameter file and `imp.load_source`. A read map is an input sequence, or in `Analysis` a fresh array holding it.
- The output file name of `mkAnalysis` is left out with the rest of the I/O. It formats `emin` twice, where `emin`/`emax` was evidently meant.
- Plotting in `mkAnalysis` and logging everywhere are left out.
- healpy geometry is foreign code and is not modelled. `query_disc`, `pix2ang` and `dir2vec` become the disc sets that `MkCsiBin` and `CsiCompute` take as inputs.
- `ud_grade` itself is left out: only the order it is asked for is modelled.
- `nside2pixarea` is an arbitrary area function, or `HealpixPixArea` with `pi` as a parameter.
- `np.log2` and `npix2nside` are not modelled: the input order is a parameter.
- `multiprocessing.Pool` is modelled as a sequential map. The reduction is a commutative sum (`BinTotalsOrderIndependent`), so the pool's scheduling cannot change the result.
- `np.random.permutation`'s randomness is left out. The drawn permutation is a parameter.
- The shuffle of `R` itself (`bin/mkcsi.py:151`) is left out. Nothing reads the shuffled `R` afterwards: only `dR` reaches `csi_compute`.
- `np.sqrt` for the mean angle is left out. `MeanAngles` returns theta squared, and its contract states where it lies.
- `MkCsiBin` takes a single angular binning `thBins` for both the mean angles and the per-seed rings, so `|thetaSq| == |csi|`. The source does not guarantee this: each `csi_compute` worker reloads `TH_BINNING` from `Csi_config.py` (`bin/mkcsi.py:67-68`), while `theta` uses the run's `--config` file (`bin/mkcsi.py:113, 153`). The model assumes the two binnings are the same.
- Floating-point rounding is not modelled: sums are exact over reals. The one rounding the code relies on, `UNSEEN - Imean == UNSEEN` for `|Imean| < 2^47`, is written out in `Fluctuation`.
- The `mkCsi` energy loop around one bin is left out: reading `_emin`/`_f` and the PSF file, and `psf_ref(_emean[i])`. `MkCsiBin` models one bin, given the PSF-matched maps, `Imean` and the disc queries.
- The test harness `main()` at the end of `bin/mkcsi.py` is left out. It passes 4-tuples to `csi_compute`, which unpacks 5, so it cannot run.
- `bin/mkdatarestyle.py` and `config/drawsame_CpCross.py` are not part of this model. They are floating-point fitting and plotting built on healpy and numpy.
- Some inputs are excluded by preconditions:
  - `WellFormedBins`: a `bin_num` of `len(_emean)` or more makes Python raise an `IndexError`. A negative `bin_num` is excluded too (`binNum: nat`), although Python would silently index from the end of `_emean` and `_fmean` (`bin/mkanalysis.py:68, 81`).
  - `WellFormedBins`: a dictionary entry with no labels makes `flux_bin[0]` raise an `IndexError`.
  - `WellFormedBins`: all maps of an entry must have one size. With maps of different sizes, Python fails only when an index of `_index` is past the end of another map. A last map shorter than the first would instead be summed silently at pixels that do not correspond.
- The dictionary's iteration order (`iteritems`) is left out. The model takes the entries as a sequence in that order.
- `AccumulateAtIndex`: the index set must list each pixel once, as `np.where` does. Repeated indices, where numpy's fancy assignment lets the last write win, are not modelled.
- `MkCsiBin` performs the shuffle of `dR` on an array. The rest of the body works on values: the maps do not change after the shuffle.
- `_fmean` starts as the integer `0` in Python. The model records that 0 as the finite value `0.0`.
