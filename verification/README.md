# RELION helper scripts: filament clustering input and last-iteration collection

This project models, in Dafny, the logic of two small command-line tools that
work on the output of the RELION cryo-EM suite.

- `relion_create_clusters.py` reads the particle records of a 2D
  classification. It numbers the classes and the filaments (helical tubes)
  and fills a filament-by-class occurrence matrix, one particle at a time. It
  then divides every row by its sum before handing the matrix to k-means.
  The model covers the numbering, the matrix and the row normalisation
  (`Clusters`, built on `SortedIndex`).
- `relion_grab_last.py` visits every `Class2D` job directory of a project.
  In each one it picks the newest `*_data.star` result file and derives a
  flattened destination name for its copy. It collects those destinations in
  `outfiles`. The model covers the usage check, the choice of staging
  directory and prefix, file eligibility, the `_ct`/plain split, the numeric
  sort key, the choice of the last file, the name flattening and the loop
  over the sorted job listing (`GrabLast`, built on `Text` and `Sorting`).

The Python 2 built-ins the scripts rely on are modelled in their own modules:

- `Text`: `in`, `str.index`, `str.rindex`, slicing, `int()` of a string,
  string `<=`, `str.replace` of `/` and `posixpath.join`.
- `Sorting`: the stable `sorted`.
- `SortedIndex`: the idiom `dict((j, i) for i, j in enumerate(sorted(set(...))))`.

Errors that stop the Python program are modelled as values:

- the `ValueError` raised by a lookup or conversion in the sort key is
  `Failure` with the offending file name;
- `parser.error` is `Failure` with its message.

Filaments are keyed by `rlnHelicalTubeID` alone (`relion_create_clusters.py:45`)
and numbered in ascending tube-ID order, exactly as classes are numbered by
class number; the micrograph name is not part of the key.

## Model

| member | source | states |
|---|---|---|
| `Clusters.Items` | relion_create_clusters.py:39-41 | iterating over the records yields one (tube ID, class number) pair per record, in record order |
| `Clusters.ClassIds` | relion_create_clusters.py:42-43 | the class dictionary has exactly the class numbers that occur as keys, numbers them 0..n-1 with no gaps, follows ascending class number, and gives distinct classes distinct indices |
| `Clusters.FilamentIds` | relion_create_clusters.py:44-45 | the filament dictionary has exactly the tube IDs that occur as keys, numbered densely from 0 in ascending tube-ID order, one index per tube |
| `Clusters.IdsDependOnlyOnValueSets` | relion_create_clusters.py:42-45 | each dictionary is determined by the set of values of its field alone: two record lists with the same set of class numbers (tube IDs) have the same class (filament) dictionary |
| `Clusters.IdsIgnoreRecordOrder` | relion_create_clusters.py:42-45 | permuting the records leaves both dictionaries unchanged |
| `Clusters.IdsIgnoreDuplicates` | relion_create_clusters.py:42-45 | appending a copy of an existing record leaves both dictionaries unchanged |
| `Clusters.LookupsInBounds` | relion_create_clusters.py:92-95 | every `filament_ids[f]` and `class_ids[c]` made in the loop finds its key and lands inside the `len(filament_ids) x len(class_ids)` matrix |
| `Clusters.Zeros` | relion_create_clusters.py:92 | `np.zeros((rows, cols))` has `rows` rows of `cols` zeros |
| `Clusters.CountedStart` | relion_create_clusters.py:92 | the zero matrix is the loop state before any record: every cell, row sum and the total are 0 |
| `Clusters.CountedStep` | relion_create_clusters.py:94-95 | one `+= 1` at the record's (filament, class) cell keeps every cell equal to its record count, every row sum equal to its row's record count and the total equal to the number of records seen |
| `Clusters.Tally` | relion_create_clusters.py:92-95 | for dictionaries whose lookups all land inside the matrix, the loop from the zero matrix leaves every cell equal to the number of records in it, every row sum equal to the number of records in its row and the total equal to the number of records |
| `Clusters.AllLookupsInBounds` | relion_create_clusters.py:89-95 | every lookup the loop makes, for every record, finds its key and lands inside the matrix |
| `Clusters.CountMatrix` | relion_create_clusters.py:89-95 | after the loop, cell (i, j) counts the records of filament i in class j, row i sums to the number of records of filament i, and the matrix sums to the number of records |
| `Clusters.RowCountIsTubeCount` | relion_create_clusters.py:94-95 | a row's count is the number of records that carry that row's tube ID |
| `Clusters.TubeCountPositive` | relion_create_clusters.py:45 | a tube ID that occurs is carried by at least one record |
| `Clusters.RowsNonEmpty` | relion_create_clusters.py:96 | every row of the count matrix sums to at least 1, so the row normalisation never divides by zero |
| `Clusters.Normalise` | relion_create_clusters.py:96 | dividing each row by its sum keeps the shape of the matrix |
| `Clusters.NormalisedRows` | relion_create_clusters.py:96 | every normalised row holds entries between 0 and 1 that add up to exactly 1 |
| `Clusters.FractionsOfCounts` | relion_create_clusters.py:96 | dividing the exact count matrix by its row sums gives, in cell (i, j), the share of filament i's records that fall into class j, and rows that sum to 1 |
| `Clusters.ClassFractions` | relion_create_clusters.py:89-96 | the matrix k-means receives has one row per filament and one column per class; entry (i, j) is the fraction of filament i's records that fall into class j, and each row sums to 1 |
| `SortedIndex.Insert` | relion_create_clusters.py:43 | inserting into an ascending list without repeats keeps it ascending and adds exactly the new value |
| `SortedIndex.SortedDistinct` | relion_create_clusters.py:43 | `sorted(set(xs))` is strictly ascending and holds exactly the values of `xs` |
| `SortedIndex.Enumerate` | relion_create_clusters.py:43 | `dict((j, i) for i, j in enumerate(u))` of an ascending list has exactly the elements of `u` as keys and maps each to its own position in `u` |
| `SortedIndex.IndexMap` | relion_create_clusters.py:43 | the enumerated dictionary maps exactly the values of `xs`, one index per distinct value, densely from 0 and in ascending key order |
| `SortedIndex.IndexMapDependsOnValueSet` | relion_create_clusters.py:43 | lists with the same values, in any order and with any repeats, give the same dictionary |
| `SortedIndex.StrictlyIncreasingUnique` | relion_create_clusters.py:43 | an ascending list without repeats is determined by its set of values |
| `Text.FindSpec` | relion_grab_last.py:64 | `str.index` returns the first position where the substring occurs, and fails (ValueError) exactly when it occurs nowhere |
| `Text.RFindSpec` | relion_grab_last.py:64 | `str.rindex` returns the last position where the substring occurs, and fails exactly when it occurs nowhere |
| `Text.ContainsIffOccurs` | relion_grab_last.py:60-62 | `sub in s` holds exactly when `sub` occurs at some position of `s` |
| `Text.ReadDigitsSpec` | relion_grab_last.py:64 | reading decimal digits succeeds exactly on a non-empty string of digits, with its decimal value |
| `Text.ParseIntDigits` | relion_grab_last.py:64 | `int()` of a non-empty string of decimal digits is its decimal value |
| `Text.ParseShowNat` | relion_grab_last.py:64 | `int()` reads back the decimal digits of every natural number as that number |
| `Text.LexLeTotal` | relion_grab_last.py:55 | any two strings are comparable with `<=` |
| `Text.LexLeTransitive` | relion_grab_last.py:55 | string `<=` is transitive |
| `Text.LexLeAntisymmetric` | relion_grab_last.py:55 | two strings that are each `<=` the other are equal |
| `Text.ParseInt` | relion_grab_last.py:64 | `int()` succeeds exactly when the text, stripped of surrounding whitespace, is a non-empty run of decimal digits, optionally after one `+` or `-`; the value is the decimal value of the digits, negated after `-` |
| `Text.Join` | relion_grab_last.py:65-66 | `os.path.join` returns an absolute second part unchanged; a relative second part is appended to the first, with a `/` between them exactly when the first part is non-empty and does not already end in `/` |
| `Text.JoinKeepsParts` | relion_grab_last.py:65-66 | joining a relative second part keeps the first part as the prefix and the second part as the suffix of the result |
| `Text.ReplaceSlash` | relion_grab_last.py:65-66 | `replace("/", "_")` keeps the length and turns each `/` into `_`, leaving every other character in place |
| `Sorting.Sort` | relion_grab_last.py:55 | `sorted` returns a rearrangement of its input: same length, same elements with the same multiplicities |
| `Sorting.SortIsSorted` | relion_grab_last.py:55 | for a total, transitive order the result of `sorted` is in order |
| `Sorting.SortedUnique` | relion_grab_last.py:55 | two ordered rearrangements of the same elements with no ties are equal, so the result of `sorted` does not depend on the input order |
| `GrabLast.Filter` | relion_grab_last.py:60-62 | `filter` keeps exactly the listed names that satisfy the predicate and never grows the list |
| `GrabLast.FilterAppend` | relion_grab_last.py:60-62 | `filter` keeps list order: extending the list by one name extends the result by that name exactly when it passes |
| `GrabLast.FilterIndex` | relion_grab_last.py:60-62 | each name of the filtered list comes from a position of the input, and every passing name listed after that position comes later in the filtered list |
| `GrabLast.EligibleIff` | relion_grab_last.py:60 | a name is eligible exactly when it is listed, `_data.star` occurs in it and `sub` does not |
| `GrabLast.PartitionExact` | relion_grab_last.py:60-62 | the `_ct` files and the plain files are disjoint, and together they are exactly the eligible files, each as often as it is listed |
| `GrabLast.CtNameUnderscores` | relion_grab_last.py:64 | the only underscores of a name `stem_ctC_itI_data.star` (stem without `_`, C and I digits) are the three that start `_ct`, `_it` and `_data` |
| `GrabLast.CtNameOccurrence` | relion_grab_last.py:64 | in such a name, a separator starting with `_` occurs only at the underscore followed by its second character |
| `GrabLast.CtNameFindsCt` | relion_grab_last.py:64 | in such a name, `x.rindex("_ct")` is the end of the stem |
| `GrabLast.CtNameFindsIt` | relion_grab_last.py:64 | in such a name, `x.index("_it")` is just after the continuation count |
| `GrabLast.CtNameFindsData` | relion_grab_last.py:64 | in such a name, `x.index("_data")` is just after the iteration |
| `GrabLast.KeyNeedsSeparators` | relion_grab_last.py:64 | a name has a key only when `_ct`, `_it` and `_data` all occur in it, so only `_ct` names have one |
| `GrabLast.KeyBetweenDigits` | relion_grab_last.py:64 | when the texts between the separators are plain digits, the key is 1000 times the first number plus the second |
| `GrabLast.KeyOfCtName` | relion_grab_last.py:64 | for a name `stem_ctC_itI_data.star` (stem without `_`, C and I decimal digits) the key is 1000 * C + I |
| `GrabLast.KeyOrderOfCtNames` | relion_grab_last.py:64 | for two names `stem_ctC_itI_data.star` whose iterations are below 1000, the key of the first is at most that of the second exactly when (C, I) of the first comes no later than that of the second, continuation first |
| `GrabLast.KeyOfCt1It1001` | relion_grab_last.py:64 | the key of `stem_ct1_it1001_data.star` is 2001 |
| `GrabLast.KeyOfCt2It1` | relion_grab_last.py:64 | the key of `stem_ct2_it001_data.star` is 2001 |
| `GrabLast.KeyCollision` | relion_grab_last.py:64 | continuation 1 at iteration 1001 and continuation 2 at iteration 1 get the same key, so from iteration 1000 on the key no longer orders continuation before iteration |
| `GrabLast.Decorate` | relion_grab_last.py:64 | the keys are computed in list order and succeed exactly when every key converts; on success each name is paired with its own key, on failure the error names the first name whose key raises |
| `GrabLast.LastMaxIndex` | relion_grab_last.py:64 | the position returned holds the largest key, and every later position holds a strictly smaller one |
| `GrabLast.SortedLastIsLastMax` | relion_grab_last.py:64 | the last element of the stable sort by key is the last element, in list order, among those with the largest key |
| `GrabLast.SelectLast` | relion_grab_last.py:63-71 | when the job aborts, the error names a `_ct` file of the job whose key raises |
| `GrabLast.SelectLastFailsIffBadKey` | relion_grab_last.py:63-64 | the job aborts exactly when some `_ct` file has a key that raises |
| `GrabLast.SelectLastCtChoice` | relion_grab_last.py:63-64 | with `_ct` files whose keys all convert, the choice is the `_ct` file at the last position holding the largest key |
| `GrabLast.SelectLastPrefersCt` | relion_grab_last.py:63-64 | when a `_ct` file exists and the job does not abort, the choice is a listed, eligible `_ct` file, whatever the plain files are called |
| `GrabLast.SelectLastCtIsLastListed` | relion_grab_last.py:60-64 | the chosen `_ct` file sits at a position of the directory listing after which no eligible `_ct` file has a key as large, so among equal keys the one listed last wins |
| `GrabLast.KeyedLastMax` | relion_grab_last.py:64 | when every key converts, the position picked as the last largest holds a key no smaller than any other, and every later name has a strictly smaller key |
| `GrabLast.SelectLastCtIsLastMax` | relion_grab_last.py:63-64 | the chosen `_ct` file has a key no smaller than that of any `_ct` file, and every `_ct` file listed after it has a strictly smaller key, so among equal keys the last listed wins |
| `GrabLast.SelectLastPlainIsMax` | relion_grab_last.py:67-68 | without `_ct` files but with plain ones, the choice is an eligible plain file that is `>=` every plain file |
| `GrabLast.SelectLastIsEligible` | relion_grab_last.py:60-71 | whatever is chosen is a listed, eligible file of the job |
| `GrabLast.SelectLastNoneIffNoDataStar` | relion_grab_last.py:63-72 | a job contributes nothing exactly when it has no eligible file |
| `GrabLast.FlatName` | relion_grab_last.py:65-66 | the flattened name contains no `/` |
| `GrabLast.Destination` | relion_grab_last.py:65-66 | the destination is the flattened name placed directly inside the staging directory, with one `/` between them unless the directory is empty or already ends in `/` |
| `GrabLast.JoinChain` | relion_grab_last.py:65-66 | for a prefix not ending in `/` and non-empty names without `/`, the three joins give `prefix/Class2D/job/file` |
| `GrabLast.ReplaceSlashSeparators` | relion_grab_last.py:65-66 | flattening `prefix/Class2D/job/file` turns the three separators and the slashes of the prefix into `_` and leaves the names untouched |
| `GrabLast.FlatNameShape` | relion_grab_last.py:65-66 | for such names the flattened name is the prefix with its slashes turned into `_`, then `_Class2D_`, the job name, `_` and the file name |
| `GrabLast.JobOutput` | relion_grab_last.py:57-72 | a job contributes a destination only as a real directory (not a link), and then the destination of one of its eligible files; it aborts only as a real directory, naming a `_ct` file whose key raises |
| `GrabLast.JobOutputCases` | relion_grab_last.py:56-72 | a job aborts the run exactly when it is a real directory (not a link) with a `_ct` file whose key raises, and contributes nothing exactly when it is not a real directory or holds no eligible file |
| `GrabLast.Destinations` | relion_grab_last.py:55-72 | a name is among the destinations exactly when some job yields it |
| `GrabLast.OutfilesSucceedsIff` | relion_grab_last.py:55-72 | the loop over the job entries aborts exactly when some job aborts |
| `GrabLast.OutfilesFirstError` | relion_grab_last.py:55-72 | an aborted loop reports the error of the first job, in visiting order, that aborts; every job before it finished |
| `GrabLast.OutfilesAreDestinations` | relion_grab_last.py:55-72 | a finished loop holds exactly the destinations of the jobs that yield one, in visiting order |
| `GrabLast.Collect` | relion_grab_last.py:55-72 | the loop never collects more destinations than the listing has entries |
| `GrabLast.JobsFail` | relion_grab_last.py:56-64 | the job at each position of the visited list aborts exactly when its entry is a real directory with an eligible `_ct` file whose key raises |
| `GrabLast.CollectFailsIff` | relion_grab_last.py:55-72 | the loop over the sorted listing aborts exactly when some entry of the listing aborts |
| `GrabLast.DestinationYielded` | relion_grab_last.py:55-72 | every destination the loop collects is yielded by some entry of the listing |
| `GrabLast.YieldedAt` | relion_grab_last.py:56-70 | a destination yielded by an entry at any position of the visited list is among the collected destinations |
| `GrabLast.YieldedDestination` | relion_grab_last.py:55-72 | every destination some entry of the listing yields is collected |
| `GrabLast.CollectOutputs` | relion_grab_last.py:55-72 | a finished loop holds exactly the destinations that entries of the listing yield |
| `GrabLast.CollectIgnoresListingOrder` | relion_grab_last.py:55 | with unique directory names, the outcome of the loop does not depend on the order in which the directory is listed |
| `GrabLast.StagingDir` | relion_grab_last.py:37-49 | `--scp` without an output is a usage error carrying the parser's message, and only that combination fails; with `--scp` the copies are staged in the temporary directory; without it they go to the output directory when a non-empty one is given, else to `.` |
| `GrabLast.ProjectName` | relion_grab_last.py:51-54 | a non-empty `--prefix` is the prefix of the flattened names, otherwise the project directory's base name is |
| `GrabLast.Run` | relion_grab_last.py:37-72 | the script fails exactly on the usage error (`--scp` without an output, with the parser's message) or when some real job directory holds an eligible `_ct` file whose key raises; otherwise it returns exactly the destinations of the files chosen in the real job directories, staged in the temporary directory under `--scp` |

## Left out

- Reading the STAR file (`pyrelion.MetaData`) is not part of this model. The records come in as a list of (tube ID, class number) pairs.
- The micrograph name is not modelled, because the code never reads it.
- KMeans, its prediction and all printing are not modelled (`relion_create_clusters.py:97-102`). They are library calls and output only.
- `Clusters.Normalise` uses exact real arithmetic, not IEEE double precision. The counts themselves are exact in the `np.float` matrix up to 2^53 records.
- `Clusters.ClassFractions` states its fractions in exact real arithmetic, not in the IEEE doubles numpy computes, so the rows sum to exactly 1 only in the model.
- `Clusters.Normalise` requires every row sum to be positive. numpy would give NaN for an empty row, but the count matrix never has one (`Clusters.RowsNonEmpty`).
- Argument parsing (`argparse`) is not modelled. The parsed arguments come in as an `Args` value: the optional output, the scp flag and the optional prefix.
- `os.path.abspath`, `os.path.normpath` and `os.path.basename` of the project path are not modelled. Their result comes in as the `basename` parameter of `GrabLast.ProjectName`.
- The file system (`os.listdir`, `os.path.isdir`, `os.path.islink`) is not modelled. The `Class2D` listing comes in as a list of `Entry` values, each holding its name, whether it is a directory or a link, and its file names.
- `tempfile.mkdtemp` is not modelled. Its result comes in as the `tempdir` parameter.
- `copyfile`, the `scp` subprocess and `rmtree` are not modelled, because they are I/O (`relion_grab_last.py:65`, `:69`, `:74-78`). The model produces the list of destinations that would be copied and handed to `scp`.
- Strings are sequences of characters compared by code point, as Python 2 byte strings are. `int()` is modelled for ASCII decimal digits with an optional sign and surrounding whitespace. Other literal forms Python 2 accepts, such as whitespace between the sign and the digits (`int("- 5")` is -5), are treated as raising ValueError, so the model aborts the job where Python would compute a key.
- The `len(sys.argv) == 1` check of the cluster tool (`relion_create_clusters.py:67-68`) is not modelled. It sits behind `argparse`, which already stops a call without the required input file.
- GrabLast.Run: its contract says which destinations are returned, not in which order or how often. The order is stated by `GrabLast.OutfilesAreDestinations` over the listing sorted by name, which `GrabLast.Collect` visits.
- The messages the collector prints (`relion_grab_last.py:72`, `:75`, `:78`) are output only and are not modelled.
