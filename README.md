# privacyVis core, modelled in Dafny

privacyVis draws privacy regions: sets of (false-positive, false-negative)
rate pairs that a differentially private mechanism allows. This project
models its core:

- the region algebra of `src/model/differential_privacy.py`. A region is a list of
  constraints on (fp, fn), read as the AND of them all. The model covers the
  (eps, delta) region, its total-variation variant, intersection, and the
  basic, exact, simplified and total-variation composition theorems. It also
  covers the f-DP region. `exp` is not modelled: a caller passes E = e^eps
  (a positive real), and every e^(n eps) in the file becomes E^n. The
  combinatorial deltas then become rational functions of E, and the model
  proves that they lie in [0, 1].
- the two `MultiRegionFigure` compositors, in `src/gui/region_figures.py` and
  `src/graphical/region_figures.py`. Each one is a Dafny class with a slot list
  and an id counter. Adding appends to the slot list, removing puts a
  tombstone in the slot, and resetting clears everything. Drawing rasterises
  each live region on the sample grid `linspace(start, stop, R)`, optionally
  thins it to a band along its edge, sorts the masks with the source's
  comparator (Python's stable `sort(reverse=True)`), and paints layer idx. The
  gui figure paints it in palette colour `(idx + 1) % len(palette)`. The
  graphical figure paints it in colour `idx + 1` with no wrap-around, which
  raises an IndexError once that index is past the end of the palette.
- the colour-blind palette of `src/gui/palettes.py` and
  `src/graphical/palettes.py`.
- randomized response (`src/model/mechanisms/randomized_response.py`): `p_eps`,
  the switch probability, the total variation, and
  `compute_randomized_response_epsilon` up to its final log. The model proves
  a round trip between eps and the switch probability in both directions.
- the median and mean queries (`src/model/queries/median.py`,
  `src/model/queries/mean.py`): the median score function, the sensitivities,
  and `np.mean`. The model proves that `l1_sens` bounds how far the mean moves
  when one entry changes.

Python exceptions and failed `assert`s become `Err` values of a `Result`
(`DomainError` for a failed assert, plus `TypeError`, `IndexError`,
`ZeroDivision` and `ValueError`). A NumPy `nan` becomes `None`.

Modules: `Wrappers` (result types), `Combinatorics` (powers, binomial
coefficients, the binomial theorem), `CompositionBounds` (the composition
deltas), `DifferentialPrivacy` (regions), `Raster` (masks), `PySort` (the
stable reverse sort), `Palettes`, `Figures` (what both compositors share),
`GuiRegionFigures`, `GraphicalRegionFigures`, `RandomizedResponses`,
`NumpyReductions`, `Medians` and `Means`.

The model follows the code as written:
- In the gui figure and in both legends, layer colours wrap with
  `% len(palette)`. With the default 16-entry palette, every sixteenth layer
  therefore gets the transparent entry 0 (`Figures.TransparentEvery16`). The
  code never skips index 0.
- The graphical figure paints layer idx with `palette[idx + 1]` and no wrap.
  Its sixteenth layer with the default palette raises an IndexError
  (see "## Findings").
- In the gui figure, the prioritized region is ordered lowest by the
  comparator. After the reverse sort it is therefore painted last, on top.
  The gui comparator has no containment test; only the graphical one does.
- `region_from_dp_tv_params` does not check eta, and randomized response does
  not check `alphabet_size >= 2`. Neither check is added here.
- `remove_region` indexes a Python list. A negative id counts from the end,
  and an id out of range raises IndexError.

## Model

| member | source | states |
|---|---|---|
| DifferentialPrivacy.IntersectRegions | src/model/differential_privacy.py:11-24 | the extend loop returns the input constraint lists concatenated in order (Flatten) |
| DifferentialPrivacy.FlattenHolds | src/model/differential_privacy.py:11-24 | a pair lies in the intersection exactly when it lies in every input region |
| DifferentialPrivacy.HoldsAppend | src/model/differential_privacy.py:21-23 | concatenating two constraint lists gives the AND of their regions, in both directions |
| DifferentialPrivacy.FlattenLength | src/model/differential_privacy.py:11-24 | regions of w constraints each flatten to w times as many constraints |
| DifferentialPrivacy.FlattenAt | src/model/differential_privacy.py:11-24 | each input region appears intact in the intersection, right after the constraints of the regions before it |
| DifferentialPrivacy.FlattenUniform | src/model/differential_privacy.py:99-107 | when every sub-region has w constraints, sub-region i occupies indices [w i, w i + w) of the intersection |
| DifferentialPrivacy.DpParams | src/model/differential_privacy.py:27-48 | succeeds exactly when eps >= 0 (E >= 1) and 0 <= delta <= 1, and otherwise fails the assert; the result is the 3 constraints of DpRegion: fp + E fn >= 1 - delta, its mirror fn + E fp >= 1 - delta, and fp + fn <= 1, so DpRegionSymmetric applies to it |
| DifferentialPrivacy.HoldsDpRegion | src/model/differential_privacy.py:43-48 | membership in the (eps, delta) region is the conjunction of the three inequalities |
| DifferentialPrivacy.DpRegionSymmetric | src/model/differential_privacy.py:44-46 | the second constraint is the first with fp and fn swapped, so the region is symmetric under the swap |
| DifferentialPrivacy.DpRegionDeltaWeakens | src/model/differential_privacy.py:44-46 | a larger delta gives a larger region |
| DifferentialPrivacy.DpRegionWeakens | src/model/differential_privacy.py:43-46 | a larger eps and a larger delta give a larger region of non-negative rates |
| DifferentialPrivacy.DpTvParamsShape | src/model/differential_privacy.py:50-52 | the region is the 3 DP constraints followed by fp + fn >= 1 - eta, and it holds exactly when both parts hold |
| DifferentialPrivacy.DpTvParams | src/model/differential_privacy.py:50-52 | definition: the DpParams result, or its error, with fp + fn >= 1 - eta appended; its shape and membership are the contract of DpTvParamsShape |
| DifferentialPrivacy.BasicCompositionOk | src/model/differential_privacy.py:71-75 | for valid parameters the result is the (k eps, min(1, k delta)) region, with its delta in [0, 1] |
| DifferentialPrivacy.BasicCompositionSingle | src/model/differential_privacy.py:54-75 | composing one mechanism gives the mechanism's own region |
| DifferentialPrivacy.BasicCompositionMonotone | src/model/differential_privacy.py:71-75 | composing one more mechanism never shrinks the region |
| DifferentialPrivacy.CompositionBasic | src/model/differential_privacy.py:54-76 | definition: DomainError unless eps >= 0, delta in [0, 1] and k >= 0, else DpParams(E^k, min(1, k delta)); its result is the contract of BasicCompositionOk |
| DifferentialPrivacy.CompositionExact | src/model/differential_privacy.py:95-107 | the loop over i = 0 .. floor(k/2) returns the intersection of the ((k - 2i) eps, delta'_i) regions, or the assert failure |
| DifferentialPrivacy.ExactCompositionShape | src/model/differential_privacy.py:99-107 | floor(k/2) + 1 sub-regions of 3 constraints each; sub-region i is ((k - 2i) eps, delta'_i), and every delta'_i lies in [0, 1], so the nested assert at line 41 holds |
| DifferentialPrivacy.ExactCompositionHolds | src/model/differential_privacy.py:99-107 | a pair lies in the exact composition exactly when it lies in every sub-region |
| DifferentialPrivacy.ExactCompositionSingle | src/model/differential_privacy.py:99-107 | k = 1 yields exactly region_from_dp_params(eps, delta) |
| DifferentialPrivacy.ExactWithinBasic | src/model/differential_privacy.py:99-107 | every pair in the exact composition lies in the basic composition |
| DifferentialPrivacy.ExactComposition | src/model/differential_privacy.py:78-107 | definition: DomainError on invalid parameters, else the intersection of the sub-regions for i = 0 .. floor(k/2); its shape is the contract of ExactCompositionShape and CompositionExact computes it |
| DifferentialPrivacy.PyRange | src/model/differential_privacy.py:100 | Python's range rejects a float with TypeError, and on an int n gives 0 .. n - 1 |
| DifferentialPrivacy.ExactIndicesAsWrittenFails | src/model/differential_privacy.py:100 | the header range(np.floor(k/2)+1) raises TypeError for every k |
| DifferentialPrivacy.ExactIndicesCorrected | src/model/differential_privacy.py:100 | the corrected header walks 0 .. floor(k/2), one index per sub-region |
| DifferentialPrivacy.CompositionExactAsWrittenFails | src/model/differential_privacy.py:95-107 | as written, the function raises TypeError on every valid input, where the intended composition succeeds |
| DifferentialPrivacy.CompositionExactAsWritten | src/model/differential_privacy.py:78-107 | definition: the asserts, then the TypeError of the loop header; CompositionExactAsWrittenFails states its result |
| DifferentialPrivacy.TvSubRegions | src/model/differential_privacy.py:182-196 | k + 1 sub-regions, sub-region j being (j eps, delta'_j) |
| DifferentialPrivacy.TvDivisorNonZero | src/model/differential_privacy.py:178 | the divisor of alpha is non-zero only when eps > 0 and delta < 1 |
| DifferentialPrivacy.TvSubDeltaInUnit | src/model/differential_privacy.py:184-195 | every delta'_j that is not nan lies in [0, 1] |
| DifferentialPrivacy.CompositionExactTotalVar | src/model/differential_privacy.py:173-204 | the j loop returns the intersection of the k + 1 sub-regions and d_tv = delta'_0, or the failed assert (a nan delta fails the one at line 41) |
| DifferentialPrivacy.ExactTotalVarShape | src/model/differential_privacy.py:176-199 | for eps > 0 and delta < 1 the composition succeeds: 3 (k + 1) constraints, sub-region j = (j eps, delta'_j) with delta'_j in [0, 1], and d_tv = delta'_0 |
| DifferentialPrivacy.ExactTotalVarNaN | src/model/differential_privacy.py:173-196 | for eps = 0 or delta = 1 and k >= 1, alpha is 0/0 and the composition fails |
| DifferentialPrivacy.ExactTotalVarNone | src/model/differential_privacy.py:180-199 | for k = 0 the result is the (0, 0) region and d_tv = 0 |
| DifferentialPrivacy.TvLastDelta | src/model/differential_privacy.py:184-195 | sub-region j = k has an empty sum, so its delta is 1 - (1 - delta)^k, the same as sub-region 0 of the exact composition |
| DifferentialPrivacy.ExactTotalVarWithinBasic | src/model/differential_privacy.py:182-204 | every pair in the total-variation composition lies in the basic composition |
| DifferentialPrivacy.ExactTotalVarComposition | src/model/differential_privacy.py:143-204 | definition: DomainError on invalid parameters or a nan alpha with k > 0, else the k + 1 sub-regions and d_tv = delta'_0; CompositionExactTotalVar computes it and ExactTotalVarShape states its shape |
| DifferentialPrivacy.ProductInUnit | src/model/differential_privacy.py:135 | np.prod of factors in [0, 1] lies in [0, 1] and below every factor |
| DifferentialPrivacy.SimplifiedDeltaBounds | src/model/differential_privacy.py:135 | the composed delta lies in [0, 1], and is at least delta_slack and at least every delta_i |
| DifferentialPrivacy.ExpOfSumAtLeastOne | src/model/differential_privacy.py:130-137 | for eps_i >= 0 the summed eps (eps_opt1) is >= 0 |
| DifferentialPrivacy.Min3 | src/model/differential_privacy.py:141 | min(eps_opt1, eps_opt2, eps_opt3) is one of the three and below all of them |
| DifferentialPrivacy.CompositionSimplifiedOk | src/model/differential_privacy.py:109-141 | for valid parameters the region is built, and its eps is at most the sum of the eps_i |
| DifferentialPrivacy.CompositionSimplified | src/model/differential_privacy.py:109-141 | definition: DpParams of min(eps_opt1, eps_opt2, eps_opt3) and the line-135 delta; CompositionSimplifiedOk states when it succeeds and bounds its eps |
| DifferentialPrivacy.RegionFromFDpHolds | src/model/differential_privacy.py:206-219 | membership is fp + fn <= 1 and fn >= f(fp) |
| DifferentialPrivacy.RegionFromFDp | src/model/differential_privacy.py:206-218 | definition: the constraints fp + fn <= 1 and fn >= f(fp); RegionFromFDpHolds states its membership |
| CompositionBounds.ComposedDeltaInUnit | src/model/differential_privacy.py:104 | 1 - (1 - delta)^k (1 - t) lies in [0, 1] for delta, t in [0, 1] |
| CompositionBounds.ExactNumeratorBounds | src/model/differential_privacy.py:102 | the sum over l < i of C(k, l)(E^(k-l) - E^(k-2i+l)) is >= 0 and at most a partial expansion of (1 + E)^k |
| CompositionBounds.ExactNumeratorTermBounds | src/model/differential_privacy.py:102 | each summand C(k, l)(E^(k-l) - E^(k-2i+l)) lies between 0 and the term C(k, l) E^(k-l) of (E + 1)^k |
| CompositionBounds.ExactDeltaTmpInUnit | src/model/differential_privacy.py:102-103 | delta_tmp / (1 + E)^k lies in [0, 1] |
| CompositionBounds.ExactDeltaInUnit | src/model/differential_privacy.py:102-105 | every delta'_i of the exact composition lies in [0, 1] |
| CompositionBounds.ExactDeltaFirst | src/model/differential_privacy.py:102-104 | for i = 0 the sum is empty and delta' = 1 - (1 - delta)^k |
| CompositionBounds.TvAlphaInUnit | src/model/differential_privacy.py:176-178 | under the eta assert, with eps > 0 and delta < 1, alpha lies in [0, 1] |
| CompositionBounds.TvExponentsOrdered | src/model/differential_privacy.py:188-189 | for every l < ceil((k-j-a)/2), l + j < k - l - a, so each difference of powers is >= 0 |
| CompositionBounds.TvWeightScaled | src/model/differential_privacy.py:187-188 | the weight ((1 - alpha)/(1 + E))^(k-a) alpha^a is >= 0, and times (1 + E)^(k-a) it is (1 - alpha)^(k-a) alpha^a |
| CompositionBounds.TvInnerTermBound | src/model/differential_privacy.py:187-188 | each inner summand lies between 0 and the weight times a binomial term of (E + 1)^(k-a) |
| CompositionBounds.TvGapBounds | src/model/differential_privacy.py:188-189 | the alpha-free part C(k-a, l)(E^(k-l-a) - E^(l+j)) of a summand lies between 0 and the term C(k-a, l) E^(k-a-l) of (E + 1)^(k-a) |
| CompositionBounds.TvInnerBounds | src/model/differential_privacy.py:185-191 | each partial inner sum lies between 0 and the weight times a partial expansion of (E + 1)^(k-a) |
| CompositionBounds.WeightedPartialSumBelow | src/model/differential_privacy.py:187-189 | the weight times a partial expansion of (E + 1)^(k-a) is at most (1 - alpha)^(k-a) alpha^a |
| CompositionBounds.TvInnerBelowTerm | src/model/differential_privacy.py:185-191 | each partial inner sum lies between 0 and (1 - alpha)^(k-a) alpha^a |
| CompositionBounds.TvInnerSumBound | src/model/differential_privacy.py:185-191 | the whole inner sum, over ceil((k - j - a)/2) summands, lies between 0 and (1 - alpha)^(k-a) alpha^a |
| CompositionBounds.TvOuterTermBound | src/model/differential_privacy.py:185-192 | each outer summand lies between 0 and C(k, a)(1 - alpha)^(k-a) alpha^a |
| CompositionBounds.TvOuterBounds | src/model/differential_privacy.py:184-194 | the outer sum lies between 0 and a partial expansion of ((1 - alpha) + alpha)^k |
| CompositionBounds.TvDeltaTmpInUnit | src/model/differential_privacy.py:184-194 | delta_tmp of every sub-region lies in [0, 1] |
| CompositionBounds.TvDeltaInUnit | src/model/differential_privacy.py:184-195 | every delta'_j of the total-variation composition lies in [0, 1] |
| Combinatorics.BinomAbove | src/model/differential_privacy.py:102 | C(n, k) = 0 for k > n, as sps.comb returns |
| Combinatorics.BinomialTheorem | src/model/differential_privacy.py:102-103 | the binomial expansion of (x + y)^n sums to (x + y)^n |
| Combinatorics.PartialSumAtMostPower | src/model/differential_privacy.py:102-103 | a partial expansion of (x + y)^n with x, y >= 0 lies between 0 and (x + y)^n |
| Combinatorics.Bernoulli | src/model/differential_privacy.py:75 | (1 - d)^n >= 1 - n d, which makes 1 - (1 - delta)^k at most k delta |
| Raster.Linspace | src/gui/region_figures.py:74 | n samples, from start to stop; ValueError for a negative n |
| Raster.LinspaceSample | src/gui/region_figures.py:74 | with n >= 2, sample i is start + i (stop - start)/(n - 1), the last one is stop, and each lies between start and stop |
| Raster.LinspacePair | src/gui/region_figures.py:74 | a later sample is never smaller than an earlier one |
| Raster.LinspaceOrdered | src/gui/region_figures.py:74 | the samples lie between the endpoints, in increasing order |
| Raster.ConstraintMask | src/gui/region_figures.py:137 | constraint(x, y) on the meshgrid: cell (r, c) is set exactly when the constraint holds at (d[c], d[r]) |
| Raster.AndAllCell | src/gui/region_figures.py:139 | a cell of the reduce of `&` is set exactly when it is set in every mask |
| Raster.FilledMask | src/graphical/region_figures.py:132-134 | the AND of the constraint masks; TypeError (reduce of an empty list) exactly for a region without constraints |
| Raster.FilledMaskHolds | src/graphical/region_figures.py:132-134 | a cell is set exactly when its sample point lies in the region |
| Raster.DiffSumCount | src/gui/region_figures.py:175 | (reg1 - reg2).sum() is the difference of the pixel counts |
| Raster.RowDiffCount | src/gui/region_figures.py:175 | the cellwise difference of two rows sums to the difference of their counts |
| Raster.RowCoversCount | src/graphical/region_figures.py:148-155 | a row that covers another has at least as many set cells, and more when it has a cell the other lacks |
| Raster.CoversCount | src/graphical/region_figures.py:148-155 | a mask that covers another has at least as many pixels, and strictly more when they differ |
| Raster.CoversBothWays | src/graphical/region_figures.py:158-159 | two masks that cover each other are equal |
| Raster.BandCount | src/gui/region_figures.py:144-145 | (cumsum(row) <= T) * row keeps min(T, set cells) cells, all of them set in the row |
| Raster.BandWide | src/gui/region_figures.py:144-145 | a band at least as wide as the row keeps the whole row |
| Raster.ThinnedKeepsLine | src/gui/region_figures.py:144-150 | the thinned mask lies inside the filled one, and keeps at least min(T, set cells) cells of every row and every column |
| Raster.ThinnedWide | src/gui/region_figures.py:144-150 | a line at least as thick as the grid is the whole filled region |
| Raster.Thinned | src/gui/region_figures.py:144-150 | an n-by-n mask again; each cell is the OR of the row band and the column band; ThinnedKeepsLine and ThinnedWide state what it keeps |
| PySort.SortDescending | src/gui/region_figures.py:158-159 | sort(key=cmp_to_key(cmp), reverse=True) with a comparator that agrees with a key: the result is a permutation, non-increasing in the key, and stable within each key |
| Palettes.ColourblindPalette | src/gui/palettes.py:1-15 | 16 colours: the nine literal entries (transparent white, the eight colours, black), then the complements of entries 1 to 7; entry 0 has alpha 0 and every other entry alpha 255, every channel lies in [0, 255], and all 16 are distinct; src/graphical/palettes.py builds the same 16 colours the same way |
| Palettes.DistinctColours | src/gui/palettes.py:3-14 | the literal colours and their complements are 16 valid, pairwise distinct colours, entry 0 transparent white and the others opaque |
| Figures.Legend | src/gui/region_figures.py:111-114 | one legend entry per label |
| Figures.LayerColour | src/gui/region_figures.py:104 | (idx + 1) % len(palette) is a palette index, and 0 (transparent) exactly when idx + 1 is a multiple of the length |
| Figures.LayerColourLookupOk | src/gui/region_figures.py:104-106 | palette[k * mask] with the wrapped k stays in bounds for every mask |
| Figures.TransparentEvery16 | src/gui/region_figures.py:104 | with the 16-colour palette, layer idx is transparent exactly when idx % 16 == 15 |
| Figures.LookupNeedsColour | src/graphical/region_figures.py:104 | palette[k * mask] on a mask with a set cell needs k < len(palette) |
| GuiRegionFigures.ShownSlots | src/gui/region_figures.py:100 | exactly the live slots are shown, in slot order, each with its own region, label and slot index |
| GuiRegionFigures.ShownSound | src/gui/region_figures.py:100 | every shown entry carries the region and label of the live slot its index names |
| GuiRegionFigures.ShownOrdered | src/gui/region_figures.py:100 | the shown indices are slot indices in strictly increasing order |
| GuiRegionFigures.ShownComplete | src/gui/region_figures.py:100 | every live slot is shown, with its region, label and index |
| GuiRegionFigures.KeptHolds | src/gui/region_figures.py:137-138 | the kept constraints are all of them except SUM_LINE when the line is shown; they hold exactly when those constraints hold |
| GuiRegionFigures.Kept | src/gui/region_figures.py:137-138 | definition: the constraints in order, without the shared SUM_LINE when the line is shown; KeptHolds states what they mean |
| GuiRegionFigures.ComputeRegion | src/gui/region_figures.py:136-150 | a mask of the grid's shape, or TypeError exactly when no constraint is kept |
| GuiRegionFigures.ComputeRegionCells | src/gui/region_figures.py:136-142 | without the line, a cell is set exactly when its point lies in the region; with it, a set cell satisfies every constraint but SUM_LINE |
| GuiRegionFigures.ComputeRegionBand | src/gui/region_figures.py:144-150 | with the line, the mask lies inside the filled region and keeps min(T, filled cells) cells of every row and column |
| GuiRegionFigures.ComputeAll | src/gui/region_figures.py:154-156 | every shown region rasterised with its label and id, or TypeError when one of them fails |
| GuiRegionFigures.ComparatorAgrees | src/gui/region_figures.py:163-177 | the comparator orders the prioritized region lowest and all others by pixel count |
| GuiRegionFigures.ComparatorConsistent | src/gui/region_figures.py:163-177 | the comparator agrees with that key on every pair of shown regions |
| GuiRegionFigures.RegionComparator | src/gui/region_figures.py:163-177 | definition: -1 when the first id is the prioritized one, 1 when the second is, else (reg1 - reg2).sum(); ComparatorAgrees relates it to PriorityKey |
| GuiRegionFigures.PriorityKey | src/gui/region_figures.py:163-177 | definition: -1 for the prioritized region, else its pixel count, the order the comparator induces; ComparatorAgrees and PrioritizedOnTop state its use |
| GuiRegionFigures.ComputedConsistent | src/gui/region_figures.py:152-177 | on the regions draw_figure computes, whose ids are distinct slot indices, the comparator agrees with the priority key |
| GuiRegionFigures.PrioritizedOnTop | src/gui/region_figures.py:158-159 | after the sort the prioritized region, when shown, comes last (painted on top), and the others come in non-increasing pixel count |
| GuiRegionFigures.PaintedLayers | src/gui/region_figures.py:103-109 | layer i paints the i-th sorted mask with its label in colour (i + 1) % len(palette) |
| GuiRegionFigures.PaintLayers | src/gui/region_figures.py:103-114 | the enumerate loop and the legend comprehension produce the drawing DrawLayers describes, ZeroDivisionError from `% len(palette)` on an empty palette included |
| GuiRegionFigures.DrawLayers | src/gui/region_figures.py:103-114 | definition: ZeroDivision for an empty palette with layers, else the layers in colours (idx + 1) % len(palette) and the optional legend; DrawLayersColours states its properties and PaintLayers computes it |
| GuiRegionFigures.DrawLayersColours | src/gui/region_figures.py:99-114 | drawing fails only for an empty palette with something to draw; otherwise every lookup stays in bounds, and the legend, shown exactly when asked for, pairs each label with its layer's colour |
| GuiRegionFigures.MultiRegionFigure.constructor | src/gui/region_figures.py:63-85 | no slots, id -1, the linspace grid, and the given palette; with palette=None, the colour-blind palette with its contents, opacity and distinctness |
| GuiRegionFigures.MultiRegionFigure.AddRegion | src/gui/region_figures.py:87-91 | appends the labelled region and returns its slot index as the new id |
| GuiRegionFigures.MultiRegionFigure.RemoveRegion | src/gui/region_figures.py:93-94 | tombstones the slot in place, with Python's negative indexing; IndexError and no change out of range |
| GuiRegionFigures.MultiRegionFigure.ResetFigure | src/gui/region_figures.py:128-131 | clears the slots and the id counter |
| GuiRegionFigures.MultiRegionFigure.DrawFigure | src/gui/region_figures.py:99-117 | the shown regions, rasterised, stably reverse-sorted by the comparator and painted by PaintLayers; TypeError when a region keeps no constraint |
| GraphicalRegionFigures.LiveSlots | src/graphical/region_figures.py:98 | exactly the live slots are drawn, in slot order: each drawn region is the content of a live slot, at increasing slot indices, and every live slot is drawn |
| GraphicalRegionFigures.LiveIdsSound | src/graphical/region_figures.py:98 | the t-th drawn region is the content of the slot at the t-th live index |
| GraphicalRegionFigures.LiveIdsOrdered | src/graphical/region_figures.py:98 | the live indices are slot indices in strictly increasing order |
| GraphicalRegionFigures.LiveIdsComplete | src/graphical/region_figures.py:98 | every live slot's index is among the live indices |
| GraphicalRegionFigures.ComputeAll | src/graphical/region_figures.py:138-140 | every live region rasterised with its label, or TypeError when one has no constraint |
| GraphicalRegionFigures.CompareSign | src/graphical/region_figures.py:146-161 | the comparison's sign is the sign of the pixel-count difference, and it is antisymmetric |
| GraphicalRegionFigures.CompareConsistent | src/graphical/region_figures.py:146-161 | the comparison agrees with the pixel count on every pair of regions |
| GraphicalRegionFigures.CompareRegions | src/graphical/region_figures.py:146-161 | definition: 1 for strict containment of the second mask, -1 for the reverse, 0 for equal masks, else the summed difference; CompareSign states its sign |
| GraphicalRegionFigures.ContainedDrawnLater | src/graphical/region_figures.py:142 | after the reverse sort, a region strictly contained in another comes after it, so it is painted on top |
| GraphicalRegionFigures.PaintedLayers | src/graphical/region_figures.py:101-107 | as written, layer i paints the i-th sorted mask in colour i + 1 |
| GraphicalRegionFigures.WrappedLayers | src/graphical/region_figures.py:101-108 | layer i paints the i-th sorted mask in colour (i + 1) % len(palette), as the legend does |
| GraphicalRegionFigures.DrawAsWritten | src/graphical/region_figures.py:97-110 | definition: IndexError when some layer idx has a set cell and idx + 1 >= len(palette), else ZeroDivision for an empty palette with layers, else the unwrapped layers and the wrapped legend; PaletteOverflow and FewLayersFit state its results |
| GraphicalRegionFigures.Draw | src/graphical/region_figures.py:97-110 | definition of the corrected drawing: ZeroDivision for an empty palette with layers, else the wrapped layers and legend; DrawColours states its properties |
| GraphicalRegionFigures.PaintLayers | src/graphical/region_figures.py:100-110 | the enumerate loop over the sorted regions, with each palette[idx + 1] lookup checked, returns exactly DrawAsWritten: IndexError at the first lookup past the palette, ZeroDivision for an empty palette with layers, otherwise the unwrapped layers and the wrapped legend |
| GraphicalRegionFigures.DrawColours | src/graphical/region_figures.py:97-110 | the corrected drawing fails only for an empty palette with something to draw; otherwise every lookup stays in bounds and the legend pairs each label with its layer's colour |
| GraphicalRegionFigures.FewLayersFit | src/graphical/region_figures.py:101-110 | with fewer layers than palette entries, the drawing as written equals the corrected drawing |
| GraphicalRegionFigures.PaletteOverflow | src/graphical/region_figures.py:102-104 | as written, layer len(palette) - 1 with a set cell looks up palette[len(palette)] and raises IndexError |
| GraphicalRegionFigures.MultiRegionFigure.constructor | src/graphical/region_figures.py:63-83 | no slots, id -1, the linspace grid, and the given palette; with palette=None, the colour-blind palette with its contents, opacity and distinctness |
| GraphicalRegionFigures.MultiRegionFigure.AddRegion | src/graphical/region_figures.py:85-89 | appends the labelled region and returns its slot index as the new id |
| GraphicalRegionFigures.MultiRegionFigure.RemoveRegion | src/graphical/region_figures.py:91-92 | tombstones the slot in place, with Python's negative indexing; IndexError and no change out of range |
| GraphicalRegionFigures.MultiRegionFigure.ResetFigure | src/graphical/region_figures.py:124-127 | clears the slots and the id counter |
| GraphicalRegionFigures.MultiRegionFigure.DrawFigure | src/graphical/region_figures.py:97-113 | the live regions, rasterised, stably reverse-sorted by _compare_regions and painted by PaintLayers as written (DrawAsWritten): IndexError once a set cell needs an index past the palette; TypeError when a region has no constraint |
| RandomizedResponses.NewRandomizedResponse | src/model/mechanisms/randomized_response.py:15-30 | delta = 0; denom (E + m - 1) = 1 and p_eps (E + m - 1) = E - 1; the total variation is p_eps; no mechanism when E + m - 1 = 0 |
| RandomizedResponses.SwitchProbabilityRange | src/model/mechanisms/randomized_response.py:26-38 | for eps >= 0 and m >= 1, p_eps lies in [0, 1), the switch probability is m / (E + m - 1) in (0, 1], and tv + switch probability = 1 |
| RandomizedResponses.SwitchProbability | src/model/mechanisms/randomized_response.py:32-39 | definition: 1 - p_eps; SwitchProbabilityRange states its range and closed form |
| RandomizedResponses.Tv | src/model/mechanisms/randomized_response.py:72-73 | definition: the stored total variation, p_eps; SwitchProbabilityRange states tv + switch probability = 1 |
| RandomizedResponses.EpsilonRatio | src/model/mechanisms/randomized_response.py:46-58 | the ratio inside the log; ZeroDivisionError exactly for alphabet size 0 or p = 0 |
| RandomizedResponses.EpsilonRatioEquation | src/model/mechanisms/randomized_response.py:57-58 | the ratio E solves E p = p + m (1 - p) |
| RandomizedResponses.EpsilonRoundTrip | src/model/mechanisms/randomized_response.py:32-58 | the ratio computed from the switch probability of the mechanism for E is E, so the function recovers eps |
| RandomizedResponses.ProbabilityRoundTrip | src/model/mechanisms/randomized_response.py:15-58 | for p in (0, 1] the ratio is >= 1 (eps >= 0), and the mechanism built from it switches with probability p |
| RandomizedResponses.EpsilonNonNegative | src/model/mechanisms/randomized_response.py:57-58 | for p > 0 the ratio is >= 1, that is eps >= 0, exactly when p <= 1 |
| NumpyReductions.Max | src/model/queries/median.py:26 | np.max raises ValueError exactly for an empty array |
| NumpyReductions.MaxIsLargest | src/model/queries/median.py:26 | np.max of a non-empty array is one of its entries and no entry exceeds it |
| NumpyReductions.Min | src/model/queries/median.py:26 | np.min raises ValueError exactly for an empty array |
| NumpyReductions.MinIsSmallest | src/model/queries/median.py:26 | np.min of a non-empty array is one of its entries and no entry is below it |
| NumpyReductions.Diameter | src/model/queries/median.py:26 | np.max - np.min raises ValueError exactly for an empty array |
| NumpyReductions.DiameterIsLargestGap | src/model/queries/median.py:26 | max - min is >= 0, bounds the difference of any two entries and is attained by one pair |
| NumpyReductions.SumBounds | src/model/queries/mean.py:15-16 | entries between lo and hi sum to between n lo and n hi |
| NumpyReductions.SumChangeOne | src/model/queries/mean.py:15-16 | arrays that differ at one position have sums that differ by the difference there |
| NumpyReductions.Mean | src/model/queries/mean.py:15-16 | np.mean is nan (None) exactly for an empty array |
| NumpyReductions.MeanTimesLength | src/model/queries/mean.py:15-16 | np.mean times the length is np.sum |
| NumpyReductions.MeanWithin | src/model/queries/mean.py:15-16 | entries between lo and hi have a mean between lo and hi |
| NumpyReductions.MeanBetween | src/model/queries/mean.py:15-16 | the mean lies between the smallest and the largest entry |
| NumpyReductions.MeanOfConstant | src/model/queries/mean.py:15-16 | the mean of a constant array is that constant |
| Medians.Sign | src/model/queries/median.py:37 | np.sign is -1, 0 or 1, positive exactly for positive input and negative exactly for negative input |
| Medians.ScoreFunc | src/model/queries/median.py:36-37 | the score -abs(sum(sign(data - label))) is never above 0 |
| Medians.SignSumCounts | src/model/queries/median.py:37 | the sign sum is (points above the label) - (points below), and points equal to the label count for nothing |
| Medians.ScoreCounts | src/model/queries/median.py:36-37 | the score is -abs(above - below) and at least -len(data) |
| Medians.ScoreZeroIffBalanced | src/model/queries/median.py:36-37 | the score is 0 exactly when as many points lie above the label as below it |
| Medians.FiniteAlphabetMedian | src/model/queries/median.py:24-26 | the sensitivity is max - min of the alphabet: >= 0, bounding every distance between letters and attained; ValueError for an empty alphabet |
| Medians.L1Sens | src/model/queries/median.py:20-21 | definition: the stored alphabet diameter; FiniteAlphabetMedian states its value for a finite alphabet |
| Means.NewMean | src/model/queries/mean.py:12-13 | dataset_size times l1_sens is the diameter; ZeroDivisionError for a dataset size of 0 |
| Means.L2Sens | src/model/queries/mean.py:21-22 | l2_sens returns the L1 sensitivity |
| Means.L1Sens | src/model/queries/mean.py:18-19 | definition: the stored diameter / dataset_size; NewMean and FiniteAlphabetSensitivity state its value, and NeighbouringMeansClose states what it bounds |
| Means.FiniteAlphabetMean | src/model/queries/mean.py:25-27 | fails exactly for an empty alphabet (ValueError) or a dataset size of 0 (ZeroDivisionError) |
| Means.FiniteAlphabetSensitivity | src/model/queries/mean.py:12-27 | otherwise dataset_size times l1_sens is max - min of the alphabet |
| Means.LettersWithinDiameter | src/model/queries/mean.py:25-27 | any two letters of the alphabet differ by at most max - min |
| Means.MeansGap | src/model/queries/mean.py:12-16 | sums of n entries within n l1_sens of each other give means within l1_sens |
| Means.FiniteAlphabetSensitivityNonNegative | src/model/queries/mean.py:25-27 | for a positive dataset size the sensitivity is >= 0 |
| Means.NeighbouringMeansClose | src/model/queries/mean.py:12-19 | two datasets over the alphabet that differ in one entry have means at most l1_sens apart |

## Left out

- The Tk windows, matplotlib figures, axes, titles, limits and the legend
  patches' RGBA scaling are not modelled. A drawing is the list of imshow
  layers (mask, label, palette index) and the legend entries (label, palette
  index).
- `exp` and `log` are not modelled. E = e^eps is a positive real parameter.
  `compute_randomized_response_epsilon` is modelled up to its final `np.log`:
  `RandomizedResponses.EpsilonRatio` returns the ratio whose log is eps.
- Floating point: every number is an exact real. Rounding, overflow to inf
  and the log-space evaluation large k would need are not modelled.
- `region_from_dp_composition_simplified`: eps_opt2 and eps_opt3 need `log`
  and `sqrt`. They are parameters (E2, E3) of
  `DifferentialPrivacy.CompositionSimplified`; only the delta and the min are
  computed.
- `region_from_gaussian_dp`, `region_from_gaussian_dp_composition` and the
  Laplace and Gaussian mechanisms need the normal and Laplace distributions
  and are not part of this model.
- DifferentialPrivacy.CompositionExactTotalVar: always returns d_tv. The
  `return_d_tv` flag only chooses whether the caller sees it.
- RandomizedResponses.NewRandomizedResponse: a NumPy division by zero gives
  inf or nan with a warning. Here that mechanism is None.
- RandomizedResponses.EpsilonRatio: a p of NumPy type would give inf instead
  of raising; the model follows Python floats and raises.
- Means.NewMean: the diameter that FiniteAlphabetMean passes is a NumPy
  scalar, so its division by a size of 0 gives inf or nan rather than
  raising. Both are ZeroDivision here.
- `RandomizedResponse.apply` draws random numbers and is not modelled.
  `compute_randomized_response_proba` is an unfinished stub that returns
  None. `tradeoff_function` calls `tradeoff_eps_delta_dp_total_var`, which
  the imported module does not define.
- `Median.apply` (np.median), `DPMedian.utility` and `DPMedian.apply` are not
  modelled; the last two are empty. `DPMean`, which needs the Gaussian
  mechanism, and the `params_*` metadata tables are not modelled either.
- Medians.ScoreFunc: scores one candidate label. NumPy broadcasting over an
  array of labels is not modelled.
- GuiRegionFigures.MultiRegionFigure.constructor: requires grid_res >= 0.
  np.linspace raises ValueError for a negative count, and a constructor
  cannot return an error.
- GraphicalRegionFigures.MultiRegionFigure.constructor: requires
  grid_res >= 0, for the same reason.
- Figures.Legend: states only the legend's length. The colour of each entry
  is stated by GuiRegionFigures.DrawLayersColours and
  GraphicalRegionFigures.DrawColours.
- `LINE_REGION_THICKNESS` and `SUM_LINE` are imported from a definitions
  module that does not define them. The thickness is a constructor parameter
  of the gui figure, and `SUM_LINE` is the constraint tag SharedSumLine,
  which the gui figure recognises by identity.
- `draw_single_region_from_constraints`, `finish_figure`, `show_figure`,
  `get_figure`, `clear_figure` and `save_figure` only drive matplotlib.

## Findings

| source | as written | input that shows it | evidently intended | confidence | as-written member | corrected member |
|---|---|---|---|---|---|---|
| src/model/differential_privacy.py:100 | `range(np.floor(k/2)+1)` passes a NumPy float to `range`, which raises TypeError | any call, e.g. eps = 0, delta = 0, k = 1 | loop over the integers i = 0 .. floor(k/2) | high, not executed | DifferentialPrivacy.CompositionExactAsWrittenFails | DifferentialPrivacy.CompositionExact |
| src/graphical/region_figures.py:102 | layer idx is painted with `palette[(idx + 1) * mask]`, without the `% len(palette)` of the legend at line 108 | 16 regions with the default palette, the 16th having any set cell: the lookup palette[16] raises IndexError | `k = (idx + 1) % len(palette)`, as the legend and src/gui/region_figures.py:104 do | high, not executed | GraphicalRegionFigures.PaletteOverflow | GraphicalRegionFigures.DrawColours |

The graphical `MultiRegionFigure.DrawFigure` follows the code as written
(`DrawAsWritten`). `Draw` is the drawing with the wrapped index, and
`FewLayersFit` shows that the two agree whenever there are fewer layers than
palette entries.
