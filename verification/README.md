# surgeon utilities: gene selection, condition labels and the train/validation split

A Dafny model of the discrete core of `surgeon/utils.py`. It covers four parts:

- **Cross-batch highly-variable-gene selection (`hvg_batch`).** The external
  per-batch statistics routine annotates each gene with the number of batches in
  which it is highly variable (`nbatches`) and a normalised dispersion.
  - The selection takes the genes variable in every batch, highest dispersion first.
  - When there are not enough of them, it lowers the agreement level one batch at a time.
  - Whole levels are appended while they fall short of what is still missing.
  - The first level that can cover the rest is sorted and cut, so the result has exactly `target_genes` genes.
  - The function's docstring says filling goes on "until HVGs in a single batch are considered".
    The code does not stop there. When the genes flagged in at least one batch are too few,
    it goes on to level 0, the genes no batch flagged. The model follows the code
    (`HvgReachesUnflagged`), and `HvgFlaggedSomewhere` proves the docstring's bound under the
    condition where it holds.
- **The gene-subset guard of `normalize`.** Selection runs only when a positive
  `n_top_genes` is below the number of genes.
- **Condition dictionaries (`create_dictionary`) and the mapping branch of
  `label_encoder`.** Held-out target conditions are dropped, and the remaining
  conditions are numbered by position. Each cell's condition is then encoded with
  such a mapping, with default code 0.
- **The index split of `train_test_split`.** The shuffled row indices are cut
  after `int(n * train_frac)` of them.

Files:

- `lists.dfy` (module `Lists`): distinctness of lists and its multiset form, prefixes, and concatenation.
- `genes.dfy` (module `Genes`): the gene record, and filtering the gene table by agreement level.
  It also holds the sort by dispersion (insertion sort, proved to be a descending permutation) and the partition facts about levels.
- `hvg.dfy` (module `HvgBatch`): the selection.
  - `Hvg` is a recursive reference definition of it.
  - `HvgBatchSelect` is the source's `while not enough` loop, proved to compute `Hvg`.
  - The lemmas state order, length, provenance, no repeats and termination.
- `labels.dfy` (module `Conditions`): `create_dictionary` and the mapping branch of `label_encoder`.
- `split.dfy` (module `Split`): Python's `int()` truncation, slice clamping, and the prefix/suffix split of a shuffle.

The model's inputs:

- Genes are records `Gene(name, nbatches, dispersion)`.
- The source works on pandas Series indexed by gene name and returns the names. The model returns the records, in the same order.
- The random shuffle is an input: a permutation of `0 .. n-1`.

## Model

| member | source | states |
|---|---|---|
| `Genes.FilterCount` | surgeon/utils.py:127-128 | a boolean-mask lookup keeps each gene of the band exactly as often as the table has it and drops every other gene |
| `Genes.FilterMembers` | surgeon/utils.py:144-145 | every gene drawn for a level is a gene of the table at that level |
| `Genes.SortDescSpec` | surgeon/utils.py:130 | the descending sort by dispersion returns a permutation of its input in non-increasing dispersion order |
| `Genes.TopKSplit` | surgeon/utils.py:133 | the first k of a descending list and the rest partition the list, and every kept gene disperses at least as much as every gene left out |
| `HvgBatch.Hvg` | surgeon/utils.py:127-156 | the reference selection has exactly `target_genes` genes whenever the table has at least that many |
| `HvgBatch.Fill` | surgeon/utils.py:141-156 | the fallback appends exactly the missing number of genes, given enough genes at or below the starting level |
| `HvgBatch.StopLevel` | surgeon/utils.py:141-156 | the loop stops at a level no higher than where it started and not negative unless nothing was missing; the levels passed over hold no more than the deficit, and the stop level's pool covers the rest |
| `HvgBatch.StopLevelFirst` | surgeon/utils.py:147 | every level passed over had a pool strictly smaller than what was still missing on reaching it, so the stop level is the first one that can cover the deficit |
| `HvgBatch.HvgBatchSelect` | surgeon/utils.py:127-156 | the loop terminates with exactly `target_genes` genes drawn from the table, and its result is the reference selection |
| `HvgBatch.FillSubMultiset` | surgeon/utils.py:144-155 | the fallback takes no gene more often than the table holds it at or below the starting level |
| `HvgBatch.FillLevelRange` | surgeon/utils.py:144-145 | every appended gene lies between the stop level and the starting level |
| `HvgBatch.FillOrder` | surgeon/utils.py:147-155 | the fallback output is the pools from the starting level down to just above the stop level, whole and in table order, then the stop level's pool sorted descending and cut to the genes still missing |
| `HvgBatch.HvgSubMultiset` | surgeon/utils.py:127-156 | the selection never holds a gene more often than the table does |
| `HvgBatch.HvgDistinct` | surgeon/utils.py:127-156 | on a table without repeats the selection has no repeated gene |
| `HvgBatch.HvgLargeIntersect` | surgeon/utils.py:127-133 | with more than `target_genes` genes variable in every batch, the result consists of those genes only, in non-increasing dispersion order, and no gene of the intersection left out disperses more than any gene taken |
| `HvgBatch.HvgFallbackOrder` | surgeon/utils.py:135-156 | otherwise the result is the sorted intersection, then whole levels `n_batches - 1` downward in table order (as many genes as lie strictly between the stop level and `n_batches`), then the sorted and cut stop level, and its length bounds hold |
| `HvgBatch.HvgAboveStop` | surgeon/utils.py:144-156 | every selected gene is variable in at least as many batches as the level where selection stopped |
| `HvgBatch.HvgTwoLevels` | surgeon/utils.py:152-156 | when the all-but-one-batch level covers the deficit, the result is all of the intersection in non-increasing dispersion order, followed by exactly the missing number of genes from that level, in non-increasing order, none of them dispersing less than a gene of that level left out |
| `HvgBatch.HvgFlaggedSomewhere` | surgeon/utils.py:141-156 | with at least one batch, and at least `target_genes` genes flagged in at least one batch, every selected gene is flagged in at least one batch: the loop never reaches the unflagged level |
| `HvgBatch.HvgReachesUnflagged` | surgeon/utils.py:141-156 | the loop does reach level 0 otherwise: whenever fewer than `target_genes` genes are flagged in any batch, some selected gene is one no batch flagged |
| `HvgBatch.HvgTakesUnflagged` | surgeon/utils.py:144-145 | an instance of that: a table whose only gene no batch flagged, with one batch and a target of 1, yields that gene |
| `HvgBatch.ShortTableNeverEnough` | surgeon/utils.py:141-150 | on a table with fewer genes than the target, no level's pool ever covers the deficit, so the loop cannot stop |
| `HvgBatch.NormalizeGenes` | surgeon/utils.py:74-79 | when `n_top_genes` is positive and below the gene count, the subset is the cross-batch selection of `n_top_genes` genes drawn from the table; otherwise the table is returned unchanged, in order |
| `Conditions.AsList` | surgeon/utils.py:96-97 | a non-list target is wrapped: a condition is a target exactly when it is that bare value, or an element of the given list |
| `Conditions.Kept` | surgeon/utils.py:100 | the kept conditions are exactly the input conditions that are not targets |
| `Conditions.KeptCount` | surgeon/utils.py:100 | keeping drops every occurrence of a target and keeps every other occurrence |
| `Conditions.KeptDistinct` | surgeon/utils.py:100 | keeping preserves the absence of repeats |
| `Conditions.Enumerate` | surgeon/utils.py:101-102 | the numbering's keys are the listed conditions, each condition maps to a position holding it, and a repeated condition keeps the position of its last occurrence |
| `Conditions.CreateDictionary` | surgeon/utils.py:95-103 | the keys are exactly the conditions that are not targets, so no target is a key; each code is a position among the kept conditions that holds that condition, and a condition kept more than once gets the position of its last occurrence |
| `Conditions.CreateDictionaryRepeat` | surgeon/utils.py:101-102 | with a repeated condition the codes are not 0 .. k-1: `["a", "b", "a"]` gives `a` code 2 and `b` code 1 |
| `Conditions.CreateDictionaryDistinct` | surgeon/utils.py:99-103 | when no kept condition repeats (as when no input condition repeats), the i-th kept condition gets code i, and the codes are exactly 0 .. k-1 |
| `Conditions.LabelEncoderDict` | surgeon/utils.py:25-28 | one code per row; a row whose condition is a key gets that key's code, every other row keeps 0; the mapping is returned unchanged as the encoder |
| `Split.TruncToInt` | surgeon/utils.py:45 | `int()` of a float rounds toward zero: down for non-negative values, up for negative ones |
| `Split.TrainTestSplit` | surgeon/utils.py:45-49 | training then validation indices are exactly the shuffle; for a fraction in [0, 1] the training part has floor(n * fraction) indices, and for a fraction of 1 or more validation is empty |
| `Split.PermutationCovers` | surgeon/utils.py:46-47 | a shuffle of `0 .. n-1` contains every row index |
| `Split.SplitPartition` | surgeon/utils.py:45-49 | for a shuffle of `0 .. n-1`, no row is in both parts, every row is in one, neither part repeats a row, and the sizes add up to n |
| `Split.SplitEightyTwenty` | surgeon/utils.py:45-49 | 100 rows with fraction 0.8 split into 80 training and 20 validation rows |

## Left out

- `surgeon/models/_utils.py` (kernels, squared distances, MMD, latent sampling): TensorFlow floating-point tensor arithmetic with nothing discrete to state.
- The `highly_variable_genes` statistics call (surgeon/utils.py:120-125): an external library routine. Its per-gene outputs `highly_variable_nbatches` and `dispersions_norm` are the model's input.
- The number of batches (surgeon/utils.py:117) is the length of a categorical's category list. It is a parameter `nBatches` here.
- `normalize` apart from the gene-subset guard (surgeon/utils.py:59-92): gene/cell filtering, total-count normalisation, `log1p`, `.raw` copies and densification are library calls and storage.
- `remove_sparsity`: a change of matrix representation only.
- The two `LabelEncoder` branches of `label_encoder` (surgeon/utils.py:29-33): fitting and transforming live in scikit-learn, which is not part of this model.
- `Conditions.LabelEncoderDict`: codes are integers. The source stores them in a float array and reshapes it into a column (line 34).
- `Conditions.LabelEncoderDict`: condition comparison is string equality. Other condition types are not modelled.
- `Conditions.AsList`: a non-list target is modelled as a single string. A tuple or set passed as the target is wrapped whole by the source, and that is not modelled.
- `np.random.shuffle` (line 47): the shuffle is an input permutation. Nothing about its distribution is stated.
- Selecting the rows of the annotated data (lines 51-52): rows are identified with their indices.
- `Split.TrainTestSplit`: the fraction and `n * frac` are exact reals. Floating-point rounding of the product is not modelled, so a product that lands just below an integer in binary floating point is not reproduced: 100 * 0.29 is 28.999999999999996 as a double, so `int()` gives 28, while the exact real product gives 29.
- `print` logging (lines 137, 148, 153, 158) and the `adataOut` branch returning a copy of the annotated data (lines 115, 160-164): I/O and object copying.
- `HvgBatch.Hvg`: equal-dispersion genes are ordered by insertion sort here, while pandas' default sort is not stable. The contracts that name `SortDesc` or equate a result with `Hvg` fix this model's tie order: `HvgBatchSelect`, `NormalizeGenes`, `FillOrder`, `HvgFallbackOrder`, `HvgTakesUnflagged`, and the helper lemmas `FillOrderStep`, `FillStep`, `HvgFallback` and `HvgTwoLevelsShape`. The others are stated up to tie order, through non-increasing dispersion and multisets.
- NaN dispersions, which pandas sorts last, are not modelled: dispersions are reals.
- `HvgBatch.NormalizeGenes`: assumes a categorical batch column, with the batch count passed in as `nBatches`. `normalize` defaults to `batch_key=None` (line 57) and passes it to `hvg_batch` (line 75). Line 117 then looks up `obs[None]`, which raises before anything is selected, and a non-categorical column fails at `.cat`. That error path is not modelled.
- Default arguments are not modelled, and every parameter is explicit: `train_frac=0.85` (line 44), `n_top_genes=2000` (line 58) and `target_genes=2000` (line 106).
- `HvgBatch.HvgBatchSelect`: requires at least `targetGenes` genes in the table. Below that the source loops forever over empty pools at negative levels, as `ShortTableNeverEnough` shows. Its only caller, `normalize`, guarantees the bound.
