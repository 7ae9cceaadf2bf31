# RAPHS star data and periodograms, modelled in Dafny

This project models the core of RAPHS, a pipeline that prepares stellar
radial-velocity (RV) and chromospheric-activity (S-index) series for a
planet search. The model covers two classes.

- `StarData` (`raphs/stardata.py`), in `Catalog.dfy` and `Harmonize.dfy`. It
  resolves a star in the SPORES catalog by its exact HD name and finds the
  star's HARPS RVBank and Keck/HIRES EBPS archives by trying alias file names
  in a fixed order. It then splits each archive at the instrument-upgrade
  dates into four segments (`harps_pre`, `harps_post`, `hires_pre`,
  `hires_post`), renames and stamps the columns, and concatenates the
  segments. Finally it cleans the combined series: negative S-index values
  are removed, one-pass mean/standard-deviation outliers are rejected by
  index label, and the series is sorted by time and re-indexed.
- `LSPeriodogram` (`raphs/periodogram.py`), in `Periodogram.dfy`. It covers
  the list of segments present, which rows feed each Lomb-Scargle spectrum
  and how the result dictionary is laid out, the sort/crop/reference-value
  arithmetic of the empirical false-alarm threshold, and the filter that
  reads orbital periods out of a saved posterior.

`Tables.dfy` holds the shared data model:

- `Option` and `Result`;
- segments, measurements, and rows that carry a pandas index label;
- a sort by a real key;
- the column statistics (sum, mean, sample variance, maximum, minimum).

`StarData` and `LSPeriodogram` are Dafny classes. `StarData`'s fields are
assigned only by its constructor, which the module-level method `Open`
calls after the catalog lookup. `LSPeriodogram.ComputeLsps` is the only
method that assigns a field after construction (`lspDict`). The loader's walk along the alias chain, the dictionary
construction and the posterior filter are methods with loops. The
combination of segments is a method that appends the segment blocks one
after another, as the code does, and is proved equal to `RvConcat` or
`SConcat` before cleaning. Each method is proved against a specification
function.

Files, the catalog CSV and the posterior pickle become parameters. The
catalog is a sequence of entries, and the archives and posteriors are maps
from path to parsed contents. The Lomb-Scargle power, the frequency grid,
the histogram and line fit, `ln`, `exp` and `convert_rhkp_to_sindex` are not
computed: a spectrum is the record of the call that produces it, and the
numeric functions are parameters.

Behaviour of the code worth knowing, which the model follows:

- The catalog lookup returns the first row whose `hd_name` matches, even
  when several match. Only no match is an error.
- The "no data" error is raised before negative values and outliers are
  dropped. A series that only becomes empty after those drops is returned
  empty, without error.
- No error is raised when the tail fit of the false-alarm threshold lacks
  points. The model keeps only a zero decay rate, which gives a non-finite
  threshold.
- The sort by time is pandas' default quicksort, which is not stable. The
  contracts therefore promise a sorted permutation and nothing about the
  order of equal times.
- The code has no time binning (`bin_size` is stored, never used), so none
  is modelled.
- The HARPS and HIRES loaders call `.split()` on the `gj_name` and
  `hip_name` catalog cells without checking them, and an empty cell raises.
  The loader and the constructor are modelled with the corrected chain,
  which skips an empty cell; the code as written is modelled beside it (see
  "## Findings").

## Model

| member | source | states |
|---|---|---|
| `Catalog.LoadCatalogEntry` | raphs/stardata.py:79-87 | Fails with `NoCatalogEntry(name)` exactly when no row's `hd_name` equals the name. Otherwise it returns the first matching row: every earlier row has a different name. |
| `Catalog.MatchingFirst` | raphs/stardata.py:79-85 | The exact-match filter is empty iff no row matches. Its head is the first matching row. |
| `Catalog.TokensJoin` | raphs/stardata.py:105 | `''.join(s.split())` equals `s` with every whitespace character removed. The tokens are non-empty and contain no whitespace. |
| `Catalog.WordLengthOfRun` | raphs/stardata.py:105 | A run of non-whitespace characters followed by whitespace or the end of the string is exactly the leading word. |
| `Catalog.TokensOfWordThenRest` | raphs/stardata.py:105 | `(w + rest).split()` is `[w] + rest.split()` when `w` is a non-empty run without whitespace and `rest` is empty or starts with whitespace: each token is a maximal run. |
| `Catalog.TokensOfSpaceThenRest` | raphs/stardata.py:105 | A leading whitespace character contributes no token. |
| `Catalog.TokensExample` | raphs/stardata.py:114 | `'HD 12 AB'.split()` is `['HD', '12', 'AB']`. |
| `Catalog.DropLastTokenExample` | raphs/stardata.py:114 | `''.join('HD 12 AB'.split()[:-1])` is `HD12`: only the last run is dropped, the inner space is squeezed out. |
| `Catalog.WordLength` | raphs/stardata.py:105 | The leading word ends at the first whitespace character or at the end of the text. It contains no whitespace. |
| `Catalog.RemoveSpacesOfWord` | raphs/stardata.py:105 | A run without whitespace is kept whole by whitespace removal. |
| `Catalog.Squeeze` | raphs/stardata.py:105 | `''.join(name.split())`, the joined whitespace-separated tokens; `TokensJoin` proves it is the name with all whitespace removed; `TokensOfWordThenRest` and `TokensOfSpaceThenRest` prove the tokens are the maximal runs of non-whitespace characters. |
| `Catalog.DropLastToken` | raphs/stardata.py:114 | `''.join(name.split()[:-1])`, the tokens but the last, joined; `DropLastTokenIsPrefix` proves it a strict prefix of the squeezed name; with the maximal-run lemmas, `DropLastTokenExample` shows that only the last run goes. |
| `Catalog.JoinAppend` | raphs/stardata.py:114 | Joining tokens with one more token appended appends that token to the joined text. |
| `Catalog.JoinDropLast` | raphs/stardata.py:114 | Joining all tokens but a non-empty last one, then appending it, gives the joined text, which is strictly longer. |
| `Catalog.DropLastTokenIsPrefix` | raphs/stardata.py:114 | The qualifier-stripped name (`''.join(split()[:-1])`) plus the last token is the squeezed name, and it is strictly shorter. |
| `Catalog.FirstExistingIsFirst` | raphs/stardata.py:103-145 | The first existing candidate is None iff no candidate exists. Otherwise it is an existing candidate, and every earlier one is missing. |
| `Catalog.LoadArchive` | raphs/stardata.py:101-191 | Corrected chain (an empty `gj_name`/`hip_name` cell is skipped; the code raises there, see "## Findings"). The loader loop returns contents iff some candidate path of the instrument's alias chain exists, and then returns those of the first existing candidate. None stands for the `FileNotFoundError` the constructor swallows. |
| `Catalog.HarpsCandidateOrder` | raphs/stardata.py:103-142 | Corrected chain (see "## Findings"). HARPS candidates are tried in this order: squeezed HD name; qualifier-stripped HD name, only when `'A'` occurs in it; GJ name, only when its cell is present; HIP name, only when its cell is present; `TYC` + Tycho-2 id. Each goes under `harps_rv_bank/` with `.csv`. |
| `Catalog.ArchivePathInjective` | raphs/stardata.py:105-191 | Different alias names give different archive paths. |
| `Catalog.HiresIgnoresGjAndTycho` | raphs/stardata.py:162-188 | The HIRES candidates do not depend on the GJ name or the Tycho-2 id. |
| `Catalog.HiresCandidateOrder` | raphs/stardata.py:162-188 | Corrected chain (see "## Findings"). HIRES candidates are tried in this order: squeezed HD name; qualifier-stripped HD name, only when `'A'` occurs in it; HIP name, only when its cell is present. Each goes under `ebps_keck_hires/` with `_KECK.vels`. |
| `Catalog.WalkAsWrittenAgrees` | raphs/stardata.py:120-134 | When the as-written chain does not crash, it finds the same file as the corrected chain, or reports not found in the same cases. With GJ and HIP names both present it never crashes. |
| `Catalog.WalkAsWritten` | raphs/stardata.py:103-191 | The loaders as written, attempt by attempt: the first existing candidate, not found, or a crash when the GJ or HIP alias is reached with an empty cell. |
| `Catalog.GjCellCrashesLoader` | raphs/stardata.py:120-126 | A star with an empty GJ cell, no file under its HD name and a file under its HIP name makes the HARPS loader as written raise. |
| `Catalog.GjCellSkipped` | raphs/stardata.py:120-134 | For the same star the corrected chain finds the HIP-named file. |
| `Catalog.ExampleHarpsCandidates` | raphs/stardata.py:103-142 | For the example star (HD 1, no GJ name, HIP 5) the HARPS candidates are `HD1`, `HIP5` and the Tycho-2 name, in that order. |
| `Catalog.SqueezeHd1` | raphs/stardata.py:105 | `''.join('HD 1'.split())` is `HD1`. |
| `Catalog.SqueezeHip5` | raphs/stardata.py:130 | `''.join('HIP 5'.split())` is `HIP5`. |
| `Catalog.NoQualifierInHd1` | raphs/stardata.py:112 | `HD 1` contains no `A`, so the qualifier-stripped alias is not tried for it. |
| `Harmonize.SelectRowsMembers` | raphs/stardata.py:207-211 | A row is selected iff it is built from a record that passes the segment mask. |
| `Harmonize.SelectRowsAligned` | raphs/stardata.py:277-278 | Two selections under the same mask have equal lengths. Position by position they agree on label, time and segment. |
| `Harmonize.AlignedAppend` | raphs/stardata.py:284-312 | Concatenating position-aligned tables pairwise gives aligned tables. |
| `Harmonize.SelectedStamped` | raphs/stardata.py:207-234 | Every row selected for a segment carries that segment's label and lies in its time window. |
| `Harmonize.RvConcat` | raphs/stardata.py:204-234 | The RV blocks harps_pre, harps_post, hires_pre, hires_post appended in that order; an absent archive adds no block. |
| `Harmonize.SConcat` | raphs/stardata.py:274-312 | The S-index blocks in the same order, HARPS values converted from R'HK. |
| `Harmonize.AppendBlock` | raphs/stardata.py:211-234 | Appending a block stamped with a segment ranked no earlier than every row so far keeps the series segment-ordered and windowed. |
| `Harmonize.RvConcatSegments` | raphs/stardata.py:204-234 | Every combined RV row lies in its segment's window. Segments appear in the order harps_pre, harps_post, hires_pre, hires_post. |
| `Harmonize.SConcatStamps` | raphs/stardata.py:274-312 | Every combined S-index row lies in its segment's window. It carries that segment's fixed uncertainty: 0.007, 0.006, 0.01 or 0.009. |
| `Harmonize.SConcatAlignsWithRv` | raphs/stardata.py:205-312 | The S-index concatenation has one row per RV row, with the same index label, time and segment. |
| `Harmonize.HiresBoundaryRowInBoth` | raphs/stardata.py:223-234 | A HIRES row exactly at JD 2453236 enters both HIRES segments under the same label. |
| `Harmonize.HarpsGapRowDropped` | raphs/stardata.py:207-218 | A HARPS row strictly between BJD 2457163 and 2457173 enters neither HARPS segment. Rows on either side enter their segment. |
| `Harmonize.ExceedsIffBeyondThreshold` | raphs/stardata.py:240-243 | The square-free outlier test agrees with `abs(v - mean) > std * threshold` for the real standard deviation. A value exactly at the threshold is kept. |
| `Harmonize.Exceeds` | raphs/stardata.py:243 | The outlier test without the square root: for t ≥ 0, dev² > t²·variance; for t < 0, true unless both are zero. |
| `Harmonize.IsOutlier` | raphs/stardata.py:240-243 | A row is an outlier when the column has at least two values and its deviation from the mean exceeds t standard deviations; with fewer than two values `std()` is NaN and nothing is. |
| `Harmonize.OutlierLabels` | raphs/stardata.py:243 | The index labels of the outlier rows. |
| `Harmonize.DropLabelsMembers` | raphs/stardata.py:243 | `drop(labels)` keeps exactly the rows whose label is not dropped, and never lengthens the table. |
| `Harmonize.DropLabels` | raphs/stardata.py:243 | `df.drop(labels)`, every row whose label is listed goes, the rest keep their order. |
| `Harmonize.SurvivesIffNoOutlierSharesLabel` | raphs/stardata.py:243 | A row survives RV rejection iff no row sharing its index label is an outlier. |
| `Harmonize.DistinctLabelsDropOnlyOutliers` | raphs/stardata.py:243 | With distinct labels, a row survives iff it is not an outlier. |
| `Harmonize.SharedLabelRemovesInlier` | raphs/stardata.py:240-243 | Example: a HARPS row and a HIRES row share label 0, and the HIRES value is the outlier. The HARPS row, not an outlier, is removed with it. |
| `Harmonize.ExampleOutliers` | raphs/stardata.py:240-243 | Of values 0, 0, 0, 10 with threshold 1, the 10 is an outlier and the first 0 is not. |
| `Harmonize.ExampleStatistics` | raphs/stardata.py:240-241 | The values 0, 0, 0, 10 have mean 2.5 and sample variance 25. |
| `Harmonize.NotAllAboveVariance` | raphs/stardata.py:240-243 | The squared deviations cannot all exceed t² times the sample variance when t ≥ 1. |
| `Harmonize.SomeRowIsNotOutlier` | raphs/stardata.py:240-243 | With a threshold of at least one standard deviation, some row is not an outlier. |
| `Harmonize.RejectionKeepsARow` | raphs/stardata.py:240-243 | With distinct labels and a threshold ≥ 1, rejection never empties a non-empty RV series. |
| `Harmonize.SSurvivorsNonNegative` | raphs/stardata.py:317-324 | Every row of the cleaned S-index series is non-negative and comes from the concatenation. |
| `Harmonize.SSurvivors` | raphs/stardata.py:317-324 | The S-index rows left after dropping negative values, then outliers by the statistics of what remains; `SSurvivesIff` states when a row survives. |
| `Harmonize.SSurvivesIff` | raphs/stardata.py:317-324 | A row survives the S-index cleaning iff no row with its label is negative and no non-negative row with its label is an outlier by the statistics of the non-negative rows. |
| `Harmonize.IsSubgiant` | raphs/stardata.py:272 | `'IV' in st_spectype`: some position holds `I` followed by `V`. |
| `Harmonize.IsSubgiantIffInfix` | raphs/stardata.py:272 | The flag holds exactly when the spectral type splits as a prefix, `IV`, and a suffix. |
| `Harmonize.SubgiantExamples` | raphs/stardata.py:272 | `K0IV` is flagged; `G2V` and `K1III` are not. |
| `Harmonize.Reindexed` | raphs/stardata.py:249 | `reset_index(drop=True)` keeps the measurements in order. |
| `Harmonize.Clean` | raphs/stardata.py:246-249 | The result is the surviving rows sorted by time, as a permutation, labelled 0..n−1; which rows survive is stated by `SSurvivesIff`. |
| `Harmonize.CombineRvs` | raphs/stardata.py:194-254 | Fails with `NoRvData` iff the concatenation is empty. Otherwise it returns the survivors of outlier rejection, sorted by time, as a permutation, labelled 0..n−1. |
| `Harmonize.CombineSIndexes` | raphs/stardata.py:258-335 | Fails with `NoSIndexData` iff the concatenation is empty. Otherwise it returns the survivors of negative-value removal and then outlier rejection, sorted by time, as a permutation, labelled 0..n−1. |
| `Harmonize.StarData.constructor` | raphs/stardata.py:18-65 | Corrected chain (an empty `gj_name`/`hip_name` cell is skipped; the code raises there, see "## Findings"). Stores the inputs and each archive the alias chain finds. RV and S-index series are present together, exactly when the RV concatenation is non-empty, each the cleaned form of its concatenation. |
| `Harmonize.Open` | raphs/stardata.py:18-65 | Fails with `NoCatalogEntry` exactly when the lookup fails. Otherwise it returns a fresh `StarData` holding the given name, directory and threshold, the first matching entry, the archives the (corrected) alias chain finds, and both series cleaned from their concatenations. |
| `Tables.SortBy` | raphs/stardata.py:246 | `sort_values`: the result is ordered by the key and is a permutation of the input. |
| `Tables.Insert` | raphs/stardata.py:246 | Inserting into a sorted sequence keeps it sorted and adds exactly the element. |
| `Tables.MaxOf` | raphs/periodogram.py:51 | The maximum is an element and bounds every element from above. |
| `Tables.MinOf` | raphs/periodogram.py:51 | The minimum is an element and bounds every element from below. |
| `Tables.SortedLastIsMax` | raphs/periodogram.py:155 | The last element of a sorted permutation is the maximum. |
| `Tables.SumSqDevNonNegative` | raphs/stardata.py:241 | The sum of squared deviations is non-negative. |
| `Tables.SumSqDevAbove` | raphs/stardata.py:241 | If every squared deviation exceeds a bound, their sum exceeds n times it. |
| `Tables.SampleVarianceNonNegative` | raphs/stardata.py:241 | The sample variance is non-negative. |
| `Periodogram.LexLessIrreflexive` | raphs/periodogram.py:29 | No string sorts before itself. |
| `Periodogram.LexLessTransitive` | raphs/periodogram.py:29 | The string order is transitive. |
| `Periodogram.LexLessSharedPrefix` | raphs/periodogram.py:29 | A common prefix does not change the order of two strings. |
| `Periodogram.HarpsPostBeforePre` | raphs/periodogram.py:29 | `harps_post` < `harps_pre`. |
| `Periodogram.HarpsBeforeHires` | raphs/periodogram.py:29 | `harps_pre` < `hires_post`. |
| `Periodogram.HiresPostBeforePre` | raphs/periodogram.py:29 | `hires_post` < `hires_pre`. |
| `Periodogram.LabelOrderAdjacent` | raphs/periodogram.py:29 | `harps_post` < `harps_pre` < `hires_post` < `hires_pre`. |
| `Periodogram.LabelRankIsLexicographic` | raphs/periodogram.py:29 | Ranking segments by label position is the lexicographic order of their labels. |
| `Periodogram.LabelOrderComplete` | raphs/periodogram.py:29 | Every segment occurs in the ascending list of labels. |
| `Periodogram.LabelOrderAscending` | raphs/periodogram.py:29 | That list is in strictly ascending label order. |
| `Periodogram.PresentMembers` | raphs/periodogram.py:29 | Keeping the segments of a list that occur in a column keeps exactly those in both. |
| `Periodogram.AscendingTail` | raphs/periodogram.py:29 | The tail of an ascending list is ascending, and its head sorts before every later element. |
| `Periodogram.AscendingCons` | raphs/periodogram.py:29 | A segment placed before an ascending list, whose elements all sort after it, gives an ascending list. |
| `Periodogram.PresentAscending` | raphs/periodogram.py:29 | Keeping a sub-list of an ascending list gives an ascending list. |
| `Periodogram.Unique` | raphs/periodogram.py:29 | `np.unique` of a column of labels holds exactly the labels present, in strictly ascending order, so each once. |
| `Periodogram.TelColumnMembers` | raphs/periodogram.py:29 | A segment is in the `tel` column iff some row carries it. |
| `Periodogram.Tels` | raphs/periodogram.py:29 | `np.unique` of the `tel` column contains exactly the segments present, in strictly ascending label order. |
| `Periodogram.OfTelMembers` | raphs/periodogram.py:62-82 | `df.loc[df['tel'] == tel]` keeps exactly the rows of that segment. |
| `Periodogram.OfTel` | raphs/periodogram.py:62-82 | `df.loc[df['tel'] == tel]`, the rows of one segment in table order. |
| `Periodogram.LabelsDiffer` | raphs/periodogram.py:55-64 | Segment labels are distinct from each other and from the key `all`. |
| `Periodogram.UpdatedEntries` | raphs/periodogram.py:60-64 | After storing one entry per segment, the keys are the old keys plus the segment labels. Each label maps to its segment's entry, and `all` is untouched. |
| `Periodogram.LabelSetSnoc` | raphs/periodogram.py:60-64 | The labels of a list are those of all but its last element, plus the last one. |
| `Periodogram.UpdatedStep` | raphs/periodogram.py:64 | One more loop iteration stores one more entry. |
| `Periodogram.LspDictStep` | raphs/periodogram.py:60-64 | Each loop iteration stores the next segment's entry under its label. |
| `Periodogram.EntriesMakeLspDict` | raphs/periodogram.py:55-85 | After the loop has stored every segment, the dictionary has the layout `compute_lsps` returns: key `all` with the combined entry, and one key per segment label with that segment's entry. |
| `Periodogram.BuildLspDict` | raphs/periodogram.py:48-87 | Fails iff the RV series is empty, its grid cannot be built (zero time span, zero `min_per` or zero `delta_f`), or some listed segment has no RV rows or a grid that cannot be built. The error names the combined series or the first failing segment. Otherwise the keys are `all` plus one per segment label. `all` has the combined spectra on the grid of all RV times. Each segment has its own entry. |
| `Periodogram.GridFails` | raphs/periodogram.py:51-63 | The grid of a non-empty series cannot be built: `1/max_per` is infinite for a zero time span, `1/min_per` divides by zero, and `np.arange` has no length for a zero step. |
| `Periodogram.OneRowHasNoGrid` | raphs/periodogram.py:51-52 | A one-row RV series has zero time span, so `compute_lsps` raises on it. |
| `Periodogram.TelsHaveRows` | raphs/periodogram.py:29-62 | Every segment of the instance's own `tels` has RV rows, so the loop never takes `np.ptp` of an empty column. |
| `Periodogram.SegmentEntryFacts` | raphs/periodogram.py:60-85 | A segment's spectra use that segment's rows, on a grid whose longest period is 1.5× its RV time span, shared by the S-index spectrum. Its window has one unit value per RV row, with no mean fit and no centring. |
| `Periodogram.AllEntryFacts` | raphs/periodogram.py:51-57 | The combined entry uses all rows on the grid of all RV times and has no window. |
| `Periodogram.CropNonEmptyIff` | raphs/periodogram.py:138-139 | The crop `[n/2, ⌊0.95n⌋)` is non-empty iff n ≥ 3, and it ends within the array. |
| `Periodogram.TailOf` | raphs/periodogram.py:135-139 | Fails iff there are at most two powers: `power_crop[0]` on an empty crop. |
| `Periodogram.TailFacts` | raphs/periodogram.py:135-155 | The sorted powers are a sorted permutation of the powers, and their last element is the maximum. The crop is the 50th–95th percentile slice. Its first element is ≤ every cropped value and ≥ every lower one. |
| `Periodogram.ShiftedCropFacts` | raphs/periodogram.py:138-142 | `power_crop - power_med`, the histogram's input, has one value per cropped power, none negative, and starts at zero. |
| `Periodogram.SortedSliceBounds` | raphs/periodogram.py:138-139 | In a sorted array, the first element of a slice is ≤ every element of the slice and ≥ every earlier one. |
| `Periodogram.ComputeFapThresh` | raphs/periodogram.py:116-157 | Fails iff there are at most two powers. Otherwise the threshold is `ln(fap/N)/(-A) + m`, non-finite when A = 0, and the minimum FAP uses the largest power. N is the number of powers, m the reference value, A the fitted rate. |
| `Periodogram.Threshold` | raphs/periodogram.py:152 | `ln(fap / N) / (-A) + power_med`, non-finite when A = 0. |
| `Periodogram.FapMin` | raphs/periodogram.py:155 | `exp(-A (top - power_med)) * N`. |
| `Periodogram.ThresholdDecreasing` | raphs/periodogram.py:152 | For A > 0 and increasing `ln`, the threshold formula is finite and strictly decreasing in `fap`. |
| `Periodogram.ThresholdDecreasesInFap` | raphs/periodogram.py:135-152 | For a decaying fitted tail, a smaller FAP gives a strictly larger power threshold. |
| `Periodogram.PeriodValuesMembers` | raphs/periodogram.py:102-105 | The filter keeps exactly the values of parameters whose names start with `per`. |
| `Periodogram.PeriodValuesAppend` | raphs/periodogram.py:102-105 | The filter preserves order: filtering a concatenation concatenates the filtered parts. |
| `Periodogram.PeriodValues` | raphs/periodogram.py:102-105 | The values of the parameters whose names start with `per`, in parameter order. |
| `Periodogram.PeriodsFromPosterior` | raphs/periodogram.py:98-112 | With no posterior, None. Otherwise None iff no parameter name starts with `per`, else the period values in parameter order. |
| `Periodogram.LSPeriodogram.constructor` | raphs/periodogram.py:18-32 | Stores the inputs, sets `tels` to the distinct segments of the RV series, and starts with no dictionary. |
| `Periodogram.LSPeriodogram.ComputeLsps` | raphs/periodogram.py:35-89 | Fails iff `BuildLspDict` fails, leaving `lsp_dict` unchanged. Otherwise stores and returns the dictionary. |
| `Periodogram.LSPeriodogram.GetPeriodsFromPosterior` | raphs/periodogram.py:98-112 | Reads `<output_dir>/RV_search/post_final.pkl`. A missing file gives None. Otherwise it is the period filter of that posterior. |

## Left out

- File input and output: the catalog CSV, the archives, `to_csv` (raphs/stardata.py:336-350) and the posterior pickle. Each is a parameter holding already-parsed contents. Error messages printed by the constructor are not modelled.
- Floating point: all arithmetic is over the reals. NaN cells in the data columns, infinities, overflow and rounding are not modelled.
- The square root in the outlier test: the test compares squares, and `ExceedsIffBeyondThreshold` ties it to the standard deviation.
- `int(0.95 * n)` is modelled as `(95 * n) / 100`. This ignores floating-point rounding of `0.95 * n`.
- The Lomb-Scargle power (astropy), the `np.arange` frequency grid, and the histogram, `log10` and `polyfit` tail fit. These are foreign numerics. Spectra are call records, a grid is its arguments, and the fitted slope is a parameter. Of the grid's failures, a zero time span, a zero `min_per` and a zero `delta_f` are modelled (`GridFails`); a grid too long to allocate is not.
- `ln` and `exp` are parameters. `ln` of a non-positive FAP, and overflow of `exp`, are not modelled.
- `convert_rhkp_to_sindex` (raphs/utilities.py) is a parameter. The model records only that it receives the B−V magnitude and the subgiant flag (`'IV'` in the spectral type).
- A missing spectral type (NaN), on which `'IV' in ...` raises `TypeError`, is not modelled: the spectral type is always a string here.
- `str()` of a Tycho-2 id is taken as the cell's text. An empty cell prints as `nan`.
- `LSPeriodogram.constructor` requires an RV series to be present. With none, the source fails on `None['tel']`, and that failure is not modelled.
- `LSPeriodogram.ComputeLsps` requires both series to be present. The source fails on a missing one.
- An empty S-index series passed to the Lomb-Scargle call is not treated as an error, since the call is opaque.
- `plot_lsps`, time binning (`bin_size` is stored, never used), and the search, driver, CLI and injection-recovery modules.

## Findings

| source | as written | input that shows it | evidently intended | confidence | as-written member | corrected member |
|---|---|---|---|---|---|---|
| raphs/stardata.py:122 | The GJ (and HIP, line 130) alias calls `.split()` on the catalog cell without checking it. pandas reads an empty cell as a float NaN, so this raises `AttributeError`, which the constructor does not catch (it catches only `FileNotFoundError`). | Catalog row "HD 1" with an empty `gj_name` and `hip_name` "HIP 5", with the HARPS archive filed only as `HIP5.csv`. | Skip an alias whose catalog cell is empty and go on to the next one, so the star is found under its HIP name. | medium, not executed | `Catalog.GjCellCrashesLoader` | `Catalog.GjCellSkipped` |
