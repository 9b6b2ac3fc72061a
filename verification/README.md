# Intel camera quality analysis — a Dafny model

The repository has two scripts that form one offline image-quality audit.

- `build_intel_quality_dataset.py` walks `seg_train/seg_train/<label>/<file>`. It visits the label directories in sorted order and skips entries that are not directories. In each directory it reads files in listing order. It stops once `IMAGES_PER_CLASS` (100) rows were produced for that label. It skips names without a `.jpg`, `.jpeg` or `.png` extension (ignoring case), and it skips images whose brightness and contrast could not be computed. Every kept image becomes a row `Image_ID, Filepath, Label, Brightness, Contrast`. The IDs are 0, 1, 2, … in the order rows were produced.
- `analyze_intel_quality.py` classifies every row against three fixed limits: brightness below 60 is `too_dark`, brightness above 200 is `too_bright`, and contrast below 20 is `low_contrast`. A row is FAIL when any limit is violated. Its `Fail_Reasons` cell holds the violated rules' names joined by `;`, in that fixed order. A PASS row has an empty cell. The script then reports:
  - total, passed and failed counts;
  - the failure rate, which is 0 when there are no rows;
  - how often each reason combination occurs among the FAIL rows;
  - a label-by-status count table.

The model is split into these modules:

- `Dataset` (dataset.dfy): the builder. `BuildDataset` and `ScanClass` mirror the script's two nested loops. They are proved equal to the reference `DatasetRows`. That reference sorts the listing, keeps directories, and takes the first `cap` image files with metrics from each directory.
- `Classifier` (classifier.dfy): `classify_row`, plus Python's `";".join` and `split(";")`.
- `Report` (report.dfy): annotation, the summary, the reason breakdown and the label-by-status table.
- Helper modules:
  - `Lexicographic`: Python's string order.
  - `Sorting`: `sorted` and sorted distinct group keys.
  - `Counting`: occurrence counts and `value_counts`.
  - `Options`.

The file system is an input to the model:
- The root's `os.path.isdir` test is a boolean.
- `os.listdir` of the root is a sequence of `DirEntry`, each with its own directory flag and file list.
- Each `FileEntry` carries what `compute_brightness_and_contrast` returned: `Some((brightness, contrast))`, or `None` for the script's `(None, None)`.

The script's constants are `Dataset.TrainDir` (`os.path.join("seg_train", "seg_train")`) and `Dataset.ImagesPerClass` (100). `BuildDataset` takes the root and the cap as parameters; `BuildTrainTable` runs it with those two constants.

Brightness and contrast are exact `real`s. Only comparisons with the limits and the failure-rate ratio depend on them.

Two outcomes of the scripts are modelled as an absent value:
- A missing root is not an error in the builder: it prints a message and returns, so no table is written. `BuildDataset` returns `None`.
- With no FAIL rows the analysis prints a message instead of counts. `ReasonBreakdown` returns `None`.

## Model

| member | source | states |
|---|---|---|
| Dataset.BuildDataset | build_intel_quality_dataset.py:96-156 | No table when the root is not a directory. Otherwise the rows of the sorted walk equal the reference `DatasetRows`, and `Image_ID`s are 0..n-1 in row order |
| Dataset.ScanClass | build_intel_quality_dataset.py:119-156 | The loop over one label directory's listing returns exactly the rows for the first `cap` files that pass the extension filter and have metrics, in listing order, with IDs counting up from the first free ID |
| Dataset.AdmittedSaturated | build_intel_quality_dataset.py:124-126 | Once `cap` rows were produced for a label, the rest of its listing contributes nothing: breaking out of the loop is the same as reading on |
| Dataset.AdmittedStep | build_intel_quality_dataset.py:128-156 | Under the cap, one more file adds a row exactly when its name passes the extension filter and its metrics were computed; otherwise neither the rows nor the count change |
| Dataset.DatasetIdsDense | build_intel_quality_dataset.py:105-155 | `Image_ID`s are exactly 0, 1, …, n-1 in append order |
| Dataset.BuildTrainTable | build_intel_quality_dataset.py:28-32 | The script's configuration: the walk of `seg_train/seg_train` with cap 100 gives no table when the root is missing, otherwise the reference table, with at most 100 rows per listed entry |
| Dataset.AllRowsLength | build_intel_quality_dataset.py:119-126 | Every listed entry contributes at most `cap` rows, so the table has at most `cap` times as many rows as the listing has entries |
| Dataset.PerLabelCap | build_intel_quality_dataset.py:120-126 | With distinct directory names, no label has more than `cap` rows |
| Dataset.LabelGroupIsScanPrefix | build_intel_quality_dataset.py:109-156 | With distinct directory names, the rows with a directory's label are exactly that directory's rows: its first `cap` usable files in listing order, under consecutive IDs (none for a non-directory) |
| Dataset.LabelsAscend | build_intel_quality_dataset.py:109-115 | Labels never decrease along the table, because label directories are visited in sorted order |
| Dataset.RowsComeFromListing | build_intel_quality_dataset.py:109-152 | Every row comes from a directory entry of the listing and one of its image files with computed metrics. Its label is the directory name, its metrics are that file's, and its path joins the class directory and the file name |
| Dataset.UnusableFileIsSkipped | build_intel_quality_dataset.py:129-140 | A file with a non-image extension or a failed extraction is as good as absent. Removing it changes none of the directory's rows or IDs |
| Dataset.UsableDirectoryRowCount | build_intel_quality_dataset.py:120-156 | A directory whose files are all measurable images contributes min(cap, number of files) rows |
| Dataset.ImageExtensionIgnoresCase | build_intel_quality_dataset.py:129 | Any name ending in any capitalisation of `.jpg`, `.jpeg` or `.png` passes the extension filter |
| Dataset.ImageFileBySuffix | build_intel_quality_dataset.py:129 | The extension filter `IsImageFile` holds exactly when the name's last four characters lower to `.jpg` or `.png`, or its last five lower to `.jpeg` |
| Dataset.JoinPathParts | build_intel_quality_dataset.py:111-133 | `os.path.join` (`JoinPath`) keeps the file name as the path's suffix. Unless the name is absolute, the directory is the prefix, and a non-empty directory that does not end in `/` is followed by one `/` before the name |
| Sorting.SortBy | build_intel_quality_dataset.py:109 | `sorted` returns a permutation of the listing whose names ascend in Python's string order |
| Sorting.SortByKeepsElements | build_intel_quality_dataset.py:109 | Sorting the listing neither adds nor drops an entry |
| Lexicographic.LessTotal | build_intel_quality_dataset.py:109 | Any two names are comparable, so the sorted order is total |
| Lexicographic.LessTransitive | build_intel_quality_dataset.py:109 | Python's string order is transitive |
| Classifier.Reasons | analyze_intel_quality.py:84-94 | `too_dark` is triggered iff brightness < 60, `too_bright` iff brightness > 200, and `low_contrast` iff contrast < 20. Reasons appear in rule order, each at most once |
| Classifier.ClassifyRow | analyze_intel_quality.py:96-105 | FAIL exactly when some limit is violated. The reason string is empty exactly when the status is PASS, and it reads back into exactly the triggered reasons |
| Classifier.LimitsAreInclusive | analyze_intel_quality.py:87-94 | Brightness 60 is not too dark, brightness 200 is not too bright, contrast 20 is not low contrast. A row on the limits passes |
| Classifier.DarkAndBrightExclusive | analyze_intel_quality.py:64-91 | `too_dark` and `too_bright` never occur together |
| Classifier.DarkFlatExample | analyze_intel_quality.py:87-100 | Brightness 30 with contrast 10 yields FAIL with `too_dark;low_contrast` |
| Classifier.ReasonsRoundTrip | analyze_intel_quality.py:97-103 | Splitting a `Fail_Reasons` cell on `;` and reading the names gives back exactly the reason list it was joined from |
| Classifier.Join | analyze_intel_quality.py:100 | `";".join` gives the empty string exactly for no part or a single empty part; a join of n ≥ 1 parts is at least n-1 characters long, the separators between them |
| Classifier.SplitJoin | analyze_intel_quality.py:100 | Splitting undoes joining when no piece contains a `;` |
| Report.Annotate | analyze_intel_quality.py:109-115 | Classification keeps every row, their order and all their fields, and only adds `Status` and `Fail_Reasons`. FAIL goes with a non-empty reason string |
| Report.Summarize | analyze_intel_quality.py:121-126 | total is the row count, failed counts FAIL rows, and passed equals the number of PASS rows. passed + failed = total. The rate is 0 for no rows, otherwise failed/total*100, and lies in [0, 100] |
| Report.RatePercent | analyze_intel_quality.py:126 | failed/total*100 lies in [0, 100] when failed ≤ total |
| Report.PassAndFailCoverAll | analyze_intel_quality.py:121-123 | Every row is PASS or FAIL, so the two counts add up to the total |
| Report.FailedReasonsCount | analyze_intel_quality.py:139-143 | The FAIL-only selection has exactly `failed` rows |
| Report.ReasonBreakdown | analyze_intel_quality.py:139-148 | No breakdown when nothing failed. Otherwise it lists each reason combination once, and each comes from a FAIL row. Each count is the number of FAIL rows carrying that combination, and the counts add up to `failed` |
| Counting.ValueCounts | analyze_intel_quality.py:143 | `value_counts` lists each distinct value once with its positive number of occurrences. The counts add up to the number of values |
| Counting.SumOfCounts | analyze_intel_quality.py:156 | Counting each key of a duplicate-free key list that covers every value counts every value exactly once |
| Report.LabelStatusTable | analyze_intel_quality.py:156 | Rows are the distinct labels in ascending order. Columns are the statuses that occur, FAIL before PASS. Each cell counts the rows with that (label, status) |
| Report.LabelRowSums | analyze_intel_quality.py:156 | A label's row of the table sums to that label's row count, and a cell is 0 exactly when the combination never occurs |
| Report.TableTotal | analyze_intel_quality.py:156 | All cells of the table sum to the total row count |
| Report.Analyze | analyze_intel_quality.py:109-156 | The whole analysis keeps the rows, and passed + failed = total. There is a breakdown iff something failed, its counts sum to `failed`, and it never holds the empty reason string. The table sums to the total |
| Sorting.Dedup | analyze_intel_quality.py:156 | Group keys: each label once, strictly ascending |

## Left out

- `compute_brightness_and_contrast` (build_intel_quality_dataset.py:39-77) is left out. It decodes the image with Pillow, converts it to grayscale and takes the float32 mean and standard deviation. Each file's extraction outcome is an input (`FileEntry.metrics`), so the ranges 0 ≤ brightness ≤ 255 and contrast ≥ 0 are not modelled.
- The file system is left out:
  - `os.listdir`, `os.path.isdir` and the native listing order are inputs.
  - `os.path.join` is the two-argument POSIX join.
  - Directory names within one listing are assumed pairwise distinct, as in any real directory. The per-label lemmas (`PerLabelCap`, `LabelGroupIsScanPrefix`) require this.
- Dataset.IsImageFile: `str.lower` is modelled on ASCII letters only. None of the letters in `.jpg`, `.jpeg` and `.png` is the lower-case form of a non-ASCII character, so the suffix test is unaffected.
- The descriptive statistics (`describe()`, analyze_intel_quality.py:47-54) are library float statistics and are left out.
- CSV writing and reading are left out. The tables' column order is kept in `ImageRow` and `AnnotatedRow`, but the text formatting of floats and the read-back through CSV are not modelled.
- Report.LabelStatusTable: labels are taken as the builder's strings, not as `pd.read_csv` reads them back. When every directory name is numeric, pandas re-types the column as integers and groups in numeric order (1, 2, 10 rather than "1", "10", "2"). A directory named `NA`, `N/A`, `nan` or `null` reads back as NaN, and `groupby` drops NaN keys, so the script's table then sums to less than the row count that `TableTotal` and `Analyze` state. Names with undecodable bytes, which `os.listdir` returns with surrogate escapes, cannot be represented, because Dafny `string` characters exclude surrogates.
- Report.TableTotal: the table sums to the row count for labels as the builder wrote them. The script drops rows whose label reads back as NaN (see the previous line), and that loss is not modelled.
- Report.Analyze: the same holds for the table total it states.
- All printing, the `:.2f` rounding of the failure rate, and the plots (analyze_intel_quality.py:128-196) are left out.
- Counting.ValueCounts: pandas' `value_counts` sorts its output by descending count. The model lists each value at its first occurrence, and the contract states no order. Only the order differs: the set of values and each count are as in pandas.
- Report.ReasonBreakdown: `value_counts` orders its output by descending count. The model lists combinations in first-occurrence order. Only the printed order differs.
- Report.Summarize: numbers are exact reals, not binary floating point, so the rate is the exact ratio.
- `Report.Summarize` also keeps the script's `total > 0` guard, but that zero-row branch may be unreachable. When the builder finds no image it writes a table with no columns. Whether pandas can then read that table and apply the classifier to it depends on library behaviour outside this model. The model follows the guard as written.
