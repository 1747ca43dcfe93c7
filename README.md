# Label encoding and temporal shuffling of the KTH action-recognition LSTM script

The experiment script `src/train_lstm_keras.py` trains an LSTM on sequences of
CNN feature vectors (N samples x 10 timesteps x 2048 features). Two parts of it
carry logic of their own, and this project models them and proves their
properties in Dafny:

- **Label encoding** (`labels_to_one_hot`, `one_hot_to_label`). The distinct
  labels are sorted (`np.unique`, then `sorted`). A `for` loop numbers them
  0 .. K-1 into `label_encoding_table`. Every label is replaced by its number,
  and `to_categorical` turns the numbers into one-hot rows. Decoding sorts the
  distinct labels again and returns the one at the argmax of a row.
  Modules `LexOrder` (Python's string order), `UniqueLabels` (`np.unique`) and
  `LabelEncoding`.
- **`disarrange(a, axis)`**. It shuffles every one-dimensional slice of `a`
  along `axis`, in place. Each slice is shuffled separately. Module
  `Disarrange`, on a three-dimensional `array3<T>`.

Modelling choices:

- Labels are `string`s. They are ordered lexicographically by code point, a
  proper prefix first, which is how Python compares `str` (and `bytes`).
- An exception in the Python code is `None` of `Wrappers.Option`.
  - `labels_to_one_hot([])` raises: `to_categorical` takes the maximum of an
    empty index list.
  - `one_hot_to_label` raises when the vector is empty (`np.argmax`) or when
    its argmax is K or more (the list index).
  - `disarrange` raises `AxisError` for an axis outside -3 .. 2, before
    anything changes.
- Library calls are modelled by their documented results. Their code is not
  part of this model.
  - `np.unique` gives the distinct labels in ascending order. `sorted` of that
    list changes nothing, so both are `UniqueLabels.Unique`.
  - `to_categorical` gives one one-hot row per index, of width max + 1.
  - `np.argmax` gives the first index holding the maximum.
  - `np.random.shuffle` on one slice is numpy's loop: `i` runs from n-1 down
    to 1, and position `i` is swapped with a random `j` in 0 .. i. The random
    `j` is a nondeterministic choice, so every property proved holds for
    every outcome of the random number generator.
- One-hot rows are `seq<int>` holding 0 and 1. The float32 rows of the source
  hold exactly 0.0 and 1.0.
- The imperative parts are methods. `LabelsToOneHot` fills the table with a
  `while` loop and is proved equal to the specification function `Encode`,
  about which the lemmas speak. `Disarrange` mutates its array argument and
  returns that same array.

The slicing, as the script uses it:

- `disarrange(a)` with no axis is `Disarrange(a, -1)`: the source's default
  axis is the last one.
- With `axis=-2`, as the script calls it, each (sample, feature) column
  `a[s, :, f]` is shuffled on its own. The 2048 values of one timestep
  therefore end up at different timesteps. `Disarrange.TimeAxisSlices`
  states which slices are shuffled.

## Model

| member | source | states |
|---|---|---|
| LexOrder.LessTotal | src/train_lstm_keras.py:39 | the order used by `sorted` is total: any two labels are equal or ordered one way round |
| LexOrder.LessTransitive | src/train_lstm_keras.py:39 | the order used by `sorted` is transitive |
| LexOrder.LessAsymmetric | src/train_lstm_keras.py:39 | no two labels sort before each other |
| UniqueLabels.Unique | src/train_lstm_keras.py:36 | `np.unique(labels)` is strictly ascending and holds exactly the labels that occur in the input |
| UniqueLabels.UniqueIsCanonical | src/train_lstm_keras.py:36-39 | any strictly ascending sequence with the same label set equals it, so the ordering depends only on the set of labels |
| UniqueLabels.SortedCardinality | src/train_lstm_keras.py:36 | the sorted distinct labels are as many as the distinct labels |
| UniqueLabels.IndexOfSorted | src/train_lstm_keras.py:39-40 | the number `enumerate` gives the k-th sorted label is k, and no other label gets it |
| UniqueLabels.RankCountsSmaller | src/train_lstm_keras.py:39-40 | a label's number is the count of distinct labels that sort before it |
| LabelEncoding.LabelsToOneHot | src/train_lstm_keras.py:29-43 | the loop that fills `label_encoding_table`, the map and `to_categorical` together compute `Encode(labels)`: no result for an empty input, otherwise row i is one-hot at the rank of `labels[i]` with width K |
| LabelEncoding.ToCategorical | src/train_lstm_keras.py:43 | `to_categorical` raises on no indices; otherwise it gives one row per index, each with a 1 exactly at its index, all of the tightest common width max + 1 |
| LabelEncoding.CategoricalOfRanks | src/train_lstm_keras.py:42-43 | expanding the ranks of all labels gives width exactly K, because every rank 0..K-1 occurs |
| LabelEncoding.EncodeShape | src/train_lstm_keras.py:36-43 | encoding fails exactly on an empty input; otherwise it gives one row per label, each as wide as the number of distinct labels |
| LabelEncoding.EncodeRowIsOneHot | src/train_lstm_keras.py:42-43 | every row holds only 0s and 1s, at most one non-zero entry, and sums to exactly 1 |
| LabelEncoding.SumOneHot | src/train_lstm_keras.py:43 | a one-hot row sums to 1 when its hot column lies inside the row, and to 0 otherwise |
| LabelEncoding.EncodeHotColumnIsRank | src/train_lstm_keras.py:36-42 | the 1 of row i sits at column j if and only if j is the number of distinct labels that sort before `labels[i]` |
| LabelEncoding.EncodeInjective | src/train_lstm_keras.py:39-42 | two rows are equal if and only if their labels are equal |
| LabelEncoding.EncodeUsesEveryColumn | src/train_lstm_keras.py:39-43 | every column 0..K-1 holds the 1 of some row |
| LabelEncoding.SingleClassEncoding | src/train_lstm_keras.py:36-43 | with one distinct label every row is `[1]` |
| LabelEncoding.Argmax | src/train_lstm_keras.py:48 | `np.argmax` raises on an empty vector; otherwise it gives an index whose entry is at least every other entry and strictly greater than every entry before it (the first maximum) |
| LabelEncoding.ArgmaxOneHot | src/train_lstm_keras.py:48 | the argmax of a one-hot row is its hot column |
| LabelEncoding.OneHotToLabel | src/train_lstm_keras.py:46-50 | decoding succeeds if and only if the vector is non-empty and its argmax is below K; the decoded label occurs in the population, and exactly argmax distinct labels sort before it |
| LabelEncoding.RoundTrip | src/train_lstm_keras.py:29-50 | decoding row i of the encoding of `labels`, against `labels`, gives `labels[i]` |
| LabelEncoding.DecodeDependsOnlyOnLabelSet | src/train_lstm_keras.py:47-50 | two populations with the same distinct labels decode every vector to the same result |
| Disarrange.NormalizeAxis | src/train_lstm_keras.py:60 | the axes -3..2 of a 3-D array name axes 0..2, with negative values counted from the end; any other axis raises |
| Disarrange.SwapInSlice | src/train_lstm_keras.py:65 | one exchange step of the shuffle swaps two positions of one slice and leaves every other slice as it was |
| Disarrange.ShuffleSlice | src/train_lstm_keras.py:65 | shuffling the slice `b[ndx]` keeps the multiset of its elements and leaves every other slice unchanged |
| Disarrange.Disarrange | src/train_lstm_keras.py:53-66 | on a valid axis every slice along it ends up holding exactly its original multiset of elements, in place, and the same array is returned; an invalid axis raises and leaves the array unchanged |
| Disarrange.TimeAxisSlices | src/train_lstm_keras.py:60-65 | with `axis=-2` the slices are the columns `a[s, :, f]`, one per sample and feature, read over the timesteps |

## Left out

- `lstm_model` (src/train_lstm_keras.py:11-26): it only builds and compiles Keras layers, and the library internals are not part of this model.
- Training, early stopping, the learning-rate change and evaluation (src/train_lstm_keras.py:85-99): floating-point numerics inside TensorFlow.
- The `KFold` split (src/train_lstm_keras.py:84-86): sklearn builds the folds, and its code is not part of this model.
- Seeding of the random number generators (src/train_lstm_keras.py:75-76): the shuffle's random choices are nondeterministic instead.
- Loading the HDF5 file and parsing the command line (src/train_lstm_keras.py:69-81): I/O.
- Mean and standard deviation of the fold accuracies, and the printing (src/train_lstm_keras.py:101-104): float arithmetic and output.
- The call site `disarrange(features[train_index], axis=-2)` (src/train_lstm_keras.py:90) is part of the driver. Fancy indexing makes a copy there, so the loaded `features` array is never mutated.
- Disarrange: proves that each slice ends up as some ordering of its own elements. It does not state that the orderings are uniformly distributed, or that they differ from the input with high probability; that is a statement about probability.
- Disarrange: for `axis=0` numpy visits the slices with the index on axis 2 in the outer loop; the model visits axis 1 in the outer loop. The visit order affects only which random numbers go to which slice, and the model leaves every choice open anyway.
- Disarrange: is modelled for three-dimensional arrays, the shape the script uses. Arrays of other ranks are not modelled.
- UniqueLabels.Unique: labels are compared as plain strings. A numpy string array treats trailing NUL characters as padding, so `np.unique` merges a label ending in NULs with the shorter label, and the table lookup at src/train_lstm_keras.py:42 then raises `KeyError`. The model keeps such labels distinct and encodes them.
