# BreaKHis feature extraction and dataset helpers, in Dafny

This project models the data-handling core of a breast-histopathology image
classifier that works on the BreaKHis dataset.

The model covers two parts:

- **Feature-table builder** (`extract_features`). It takes a list of samples,
  each an `(image, label, file name)` triple, and a list of feature extractors.
  It builds one pandas table with a row per sample: columns `image` and `label`,
  then one column `<extractor>_<k>` for each position `k` of each extractor's
  output vector. It also builds the CSV path under which the table is saved.
- **Dataset helpers.** These are:
  - `alter_name`, which turns an image path into a sample name;
  - `read_images`, which reads a list of paths into samples;
  - the glob patterns of the two binary classes;
  - `make_weights_for_balanced_classes`, which gives every sample the number of
    samples divided by the size of its class;
  - the `BreaKHis` dataset object, with its loader, `__len__` and `__getitem__`.

Files:

- `python.dfy`: the Python behaviour the code relies on. It has exceptions as
  `Result` errors, list indexing with negative indices, `str(k)`, `str.split`
  and `str.endswith`.
- `samples.dfy`: the sample triple.
- `frames.dfy`: the part of a pandas DataFrame the builder uses. It gives the
  frame as a value (`Frame`) and the effect of a sequence of `df.loc[row, col] = v`
  assignments on it (`ApplyAll`). `DataFrame` is a class whose `SetCell` updates
  its fields in place.
- `feature_extraction.dfy`: `ExtractFeatures`, with its three nested loops, is
  proved against `Table(stacks, extractors)`. `Table` is the initial two-column
  frame after every assignment the loops perform, in loop order. Lemmas then
  describe what that table holds:
  - which cells exist and what each holds;
  - which columns exist, and in which order;
  - that the header repeats no name.
- `tools.dfy`: `alter_name`, `read_images` (a method proved against a recursive
  specification), `binary_paths`, `make_weights_for_balanced_classes` (a method
  with three loops over arrays, proved against `BalancedWeights`, which is then
  shown to balance the classes), and the `BreaKHis` class.

Reference definitions that the method rows are proved against:

- `Python.NatToString` (features/feature_extraction.py:62) is `str(k)` for a
  natural number, and `Python.Split` (tools.py:12-13) is `str.split` with a
  one-character separator.
- `Frames.Apply` (features/feature_extraction.py:62) is the effect of one
  `df.loc[row, col] = v`, and `Frames.ApplyAll` is the effect of a sequence of them.
- `FeatureExtraction.Table` (features/feature_extraction.py:51-62) is the table
  `extract_features` returns: the initial frame after all the loops' assignments.
- `Tools.ReadImagesSpec` (tools.py:15-51) is `read_images` as a recursive function.
- `Tools.BalancedWeights` (tools.py:66-78) is `make_weights_for_balanced_classes`
  in closed form.
- `Tools.DatasetPairs` (tools.py:100-111) is the list of pairs `BreaKHis.__init__`
  builds in binary mode, or the error it raises first.

Outside effects are parameters of the model:

- `cv2.imread` and `cv2.resize` are the two functions of an `ImageIO` value.
- `glob.glob` is a function from pattern to path list.
- An extractor's `describe` is a function field of `Extractor`.
- Feature values are an abstract type `Value`, since nothing computes with them.
- Sample weights are `real`.

Error cases of `extract_features`:

- **`extractors` is `None`.** `len(extractors)` at
  features/feature_extraction.py:40 raises `TypeError` before any table is
  built, so `ExtractFeatures` returns `Err(TypeError)`.
- **Empty `stacks`.** `np.array([])[:, 1]` at features/feature_extraction.py:43
  raises `IndexError`, and the model returns that error.

How columns are identified:

- **Table columns.** pandas identifies a column by its label. The model
  identifies it by a `Column` value (`ImageColumn`, `LabelColumn`,
  `Feature(name, k)`). `LabelInjective` proves that two columns share a label
  only when they are the same column, so keying by the structure puts the same
  cells together and keeps the same cells apart.

## Model

| member | source | states |
|---|---|---|
| `Python.Slot` | tools.py:134-135 | A list index is valid exactly when it lies in [-n, n); a negative index counts from the end. |
| `Python.ParseNatToString` | features/feature_extraction.py:62 | The decimal text `str(k)` gives for a natural number reads back as that number. |
| `Python.NatToStringInjective` | features/feature_extraction.py:62 | Different positions `k` are spelt differently in a column name. |
| `Python.SplitPiecesFree` | tools.py:12-13 | No piece of `s.split(sep)` contains `sep`. |
| `Python.JoinSplit` | tools.py:12-13 | Joining the pieces of a split with the separator gives back the original string. |
| `Python.SplitWithoutSeparator` | tools.py:12-13 | A string without the separator splits into itself alone. |
| `Python.SplitFirstPiece` | tools.py:13 | `s.split(sep)[0]` is the longest separator-free prefix of `s`. |
| `Python.SplitLastPiece` | tools.py:12 | `s.split(sep)[-1]` is the separator-free part after the last separator, and the whole string when there is no separator. |
| `Frames.TwoColumnFrame` | features/feature_extraction.py:51-55 | `DataFrame.from_dict` of two equally long columns has one row per entry and the columns in dict order; row `j` holds entry `j` of each column and no other cell exists. |
| `Frames.DataFrame.FromDict` | features/feature_extraction.py:55 | The new frame object holds exactly that two-column frame and is well formed. |
| `Frames.DataFrame.SetCell` | features/feature_extraction.py:62 | `df.loc[row, col] = v` stores `v` at that cell and appends `col` when it is new; nothing else changes, and the frame stays well formed. |
| `Frames.ApplyAllCells` | features/feature_extraction.py:62 | After a sequence of assignments a cell holds the value of the last assignment to it; a cell never assigned keeps its old value, or stays missing. |
| `Frames.ApplyAllRows` | features/feature_extraction.py:62 | Assignments to existing rows never change the row count and keep the frame well formed. |
| `Frames.ApplyAllSnoc` | features/feature_extraction.py:61-62 | One more assignment acts on the frame reached so far. |
| `Frames.ApplyAllConcat` | features/feature_extraction.py:57-62 | Two runs of assignments, one after the other, equal the concatenated run. |
| `Frames.LastWriteConcat` | features/feature_extraction.py:57-62 | In a concatenated run, the later part decides every cell it assigns, and the earlier part decides the rest. |
| `Frames.LastWriteAt` | features/feature_extraction.py:61-62 | An assignment that no later one overrides decides its cell. |
| `Frames.LastWriteSome` | features/feature_extraction.py:62 | A cell is assigned by a run exactly when some assignment of the run has its address. |
| `Frames.ApplyAllKnownColumns` | features/feature_extraction.py:62 | Assignments to existing columns leave the column list unchanged. |
| `Frames.ApplyAllFreshColumns` | features/feature_extraction.py:62 | Assignments to pairwise different new columns append exactly those columns, in assignment order. |
| `Frames.ApplyAllColumnSet` | features/feature_extraction.py:57-62 | The old columns stay first and in order, no column appears twice, and a column exists exactly when it existed before or was assigned. |
| `Frames.ApplyAllColumnOrder` | features/feature_extraction.py:57-62 | The new columns are ordered by their first assignment. |
| `FeatureExtraction.WriteRow` | features/feature_extraction.py:61-62 | The innermost loop leaves the frame equal to the old frame after that row's assignments, and keeps it well formed. |
| `FeatureExtraction.RunExtractor` | features/feature_extraction.py:59-62 | The loop over the samples performs one extractor's assignments for every row, in row order. |
| `FeatureExtraction.ExtractFeatures` | features/feature_extraction.py:35-67 | `None` extractors raise TypeError and an empty sample list raises IndexError; otherwise the call succeeds. It returns the file names and a fresh frame equal to `Table`. The CSV path is `feature_dir`, the extractor names and `.csv` when saving, and there is none otherwise. |
| `FeatureExtraction.TableStep` | features/feature_extraction.py:57-62 | Running one more extractor applies its assignments to the table built so far. |
| `FeatureExtraction.FilenameIsNames` | features/feature_extraction.py:54-58 | The accumulated file name is `feature_dir` followed by every extractor name in list order. |
| `FeatureExtraction.ColNameShape` | features/feature_extraction.py:62 | A column name `<name>_<k>` is the name, an underscore, then the digits of `k` only. |
| `FeatureExtraction.ColNameInjective` | features/feature_extraction.py:62 | A column name determines both the extractor name and the position. |
| `FeatureExtraction.ColNameIsNotFixed` | features/feature_extraction.py:51-62 | No feature column is called `image` or `label`. |
| `FeatureExtraction.LabelInjective` | features/feature_extraction.py:51-62 | Two columns have the same label if and only if they are the same column. |
| `FeatureExtraction.RowWritesLookup` | features/feature_extraction.py:61-62 | One row's assignments fill exactly the cells `(j, <name>_<k>)` for `k` below the vector length, each with element `k`. |
| `FeatureExtraction.RowsWritesLookup` | features/feature_extraction.py:59-62 | Over the first `m` samples, an extractor fills a cell of row `j < m` exactly as it does for sample `j` alone, and no cell of a later row. |
| `FeatureExtraction.AllWritesLookup` | features/feature_extraction.py:57-62 | The run assigns cell `(j, c)` exactly when some extractor produces column `c` for sample `j`. |
| `FeatureExtraction.AllWritesShape` | features/feature_extraction.py:57-62 | Every assignment of the run goes to an existing row and to a column that some extractor produces for that row's sample. |
| `FeatureExtraction.TableShape` | features/feature_extraction.py:55-62 | The table has one row per sample, and every cell lies in an existing row and column. |
| `FeatureExtraction.TableCells` | features/feature_extraction.py:51-62 | A cell exists exactly when its row is a sample row and its column is `image`, `label` or one that an extractor produces for that sample; every other cell is missing (NaN). |
| `FeatureExtraction.FixedColumnsKept` | features/feature_extraction.py:51-62 | Every row keeps its sample's file name and label. |
| `FeatureExtraction.FeatureLastWrite` | features/feature_extraction.py:57-62 | The last assignment to `(j, <name>_<k>)` comes from extractor `i` when no later extractor of the same name reaches position `k`. |
| `FeatureExtraction.FeatureCell` | features/feature_extraction.py:57-62 | Cell `(j, <name>_<k>)` holds element `k` of the extractor's vector for sample `j`; when extractor names repeat, the last one to write that position wins. |
| `FeatureExtraction.MissingCell` | features/feature_extraction.py:59-62 | A feature cell that no extractor of that name reached for that sample is missing. |
| `FeatureExtraction.ColumnsWritten` | features/feature_extraction.py:57-62 | The run assigns a column exactly when some extractor produces it for some sample. |
| `FeatureExtraction.FeatureColumn` | features/feature_extraction.py:57-62 | A column comes after `image` and `label` exactly when some extractor produced it for some sample. |
| `FeatureExtraction.TableColumns` | features/feature_extraction.py:57-62 | The columns are `image`, `label`, then each written feature column exactly once, in order of first assignment. With no extractors only `image` and `label` remain. |
| `FeatureExtraction.FixedWidthColumns` | features/feature_extraction.py:59-62 | When an extractor's vectors all have length `width`, its run over the first `m ≥ 1` samples, starting from a frame whose columns are `image` and `label`, leaves the columns `image`, `label`, `<name>_0` .. `<name>_<width-1>`. |
| `FeatureExtraction.FixedWidthTable` | features/feature_extraction.py:57-62 | One extractor of fixed width adds exactly its `width` columns, in position order, after `image` and `label`. |
| `FeatureExtraction.SingleExtractorCell` | features/feature_extraction.py:57-62 | With one extractor, cell `(j, <name>_<k>)` holds element `k` of the vector for sample `j`. |
| `FeatureExtraction.SingleExtractorCells` | features/feature_extraction.py:57-62 | With one extractor, every position of every sample's vector is in its own cell. |
| `FeatureExtraction.HeaderDistinct` | features/feature_extraction.py:62-65 | The header of the saved CSV repeats no column name. |
| `Tools.AlterName` | tools.py:11-13 | The sample name contains neither a backslash nor a dot. |
| `Tools.AlterNameSegments` | tools.py:11-13 | The sample name is the part of the path after its last backslash, cut at its first dot. |
| `Tools.AlterNameIdempotent` | tools.py:11-13 | Applying `alter_name` to a name it returned changes nothing. |
| `Tools.BinaryPatterns` | tools.py:60-63 | The benign pattern is `root`, then `benign/`, three wildcard directory levels, the magnification directory `mf` and `*.png`; the malignant one is the same under `malignant/`. `mf` can be read back from both patterns, and they differ. |
| `Tools.ReadImages` | tools.py:15-51 | The loop over the paths returns exactly what `ReadImagesSpec` gives. |
| `Tools.ReadImagesErrorSticks` | tools.py:22-28 | Once reading fails on a `.png` file, the whole call fails with that error. |
| `Tools.PngPathsMembers` | tools.py:22-23 | A path is read exactly when it ends in `.png`. |
| `Tools.ReadImagesSucceeds` | tools.py:22-28 | `read_images` succeeds exactly when every `.png` path decodes, and otherwise raises AttributeError. |
| `Tools.ReadImagesEntries` | tools.py:22-49 | On success there is one sample per `.png` path, in path order. It holds the image resized to `imsize` or to (456, 700), the given label and the `alter_name` of the path. |
| `Tools.ReadImagesTargets` | tools.py:49 | Every sample read carries the given label. |
| `Tools.BalancedWeights` | tools.py:66-78 | On success there is one weight per sample. |
| `Tools.MakeWeightsForBalancedClasses` | tools.py:66-78 | The three loops return exactly `BalancedWeights`. A label outside the counters raises IndexError; an empty class raises ZeroDivisionError; otherwise sample `idx` weighs `len(pairs) / count[class of idx]`. |
| `Tools.CountClasses` | tools.py:68-70 | The counting loop succeeds exactly when every label is a valid index, and then holds every class's count. |
| `Tools.WeightPerClass` | tools.py:71-74 | The division loop succeeds exactly when every count is positive, and then holds `N / count[c]` for every class. |
| `Tools.CountsSnoc` | tools.py:69-70 | One more sample adds one to its class's counter and leaves the other counters unchanged. |
| `Tools.SumOfCounts` | tools.py:72 | When every label is in range, `N = sum(count)` is the number of samples. |
| `Tools.ClassWeightShare` | tools.py:73-77 | If each sample of a class weighs `N` over the class size, the class weighs `N` in total. |
| `Tools.WeightsBalance` | tools.py:66-78 | Every class carries the same total weight, the number of samples, which is what makes the sampler balanced. |
| `Tools.CountPositive` | tools.py:74 | A class that some sample falls into has a positive count. |
| `Tools.DatasetWeightsDefined` | tools.py:100-114 | The rows of a dataset that loads are labelled 0 or 1 and both labels occur, so the weights for two classes always exist. |
| `Tools.BreaKHis.FromPairs` | tools.py:112-114 | Given one weight per pair, the dataset stores the image column and the target column of the pairs, the weights, the class count and the transforms, and is valid (one target and one weight per image). |
| `Tools.BreaKHis.Load` | tools.py:88-114 | Any mode becomes binary with two classes. Benign images are read before malignant ones, and a read error propagates. Joining an empty class to a non-empty one raises ValueError, and an empty result raises IndexError. Otherwise the dataset holds the images, the targets and the balanced weights of the pairs. |
| `Tools.BreaKHis.Len` | tools.py:123-124 | The length is the number of images. |
| `Tools.BreaKHis.GetItem` | tools.py:126-143 | An index in [-n, n) gives the image and target at that position, counted from the end when negative, each passed through its transform when set. Any other index raises IndexError. |

## Left out

- Image decoding and resizing are the two abstract functions of `ImageIO`; no pixel arithmetic is modelled.
- `ReadImages` leaves out the `min_width`/`min_height` tracking in `read_images`: those values are computed but never used.
- `glob.glob` is a parameter; the order of the paths it returns is whatever that function gives.
- Writing the CSV file (`df.to_csv`) is not modelled. `ExtractFeatures` returns the path it would write to.
- `alter_fnames_for_csv` reads and rewrites a CSV file on disk, so it is not modelled; only the `alter_name` it applies is.
- `BreaKHis.Load` keeps the read order. `np.random.shuffle` is randomness, so the model behaves as with `shuffle=False`.
- `BreaKHis.Load` does not compute the per-pixel mean (`np.mean`), which is floating-point image arithmetic.
- `BreaKHis.Load` does not model `imageLikefeatures`, because its loop body in the source is empty.
- Progress bars (`tqdm`), the `__main__` blocks, and the model and classifier files are not part of this model.
- Floating-point weights are modelled as exact reals, so rounding in `N / float(count[i])` is not modelled.
- numpy array behaviour is modelled only where it decides an outcome: the `IndexError` on an empty sample list, and the `ValueError` when an empty class array is joined to a non-empty one. Elsewhere the model assumes that numpy turns a list of `(image, label, name)` triples into a two-dimensional object array whose columns are read with `[:, i]`.
- `FeatureExtraction.ExtractFeatures` does not model an exception raised inside an extractor's `describe`, because `describe` is a total function here.
