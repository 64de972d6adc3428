# Categorical n-gram encoder (caffe2 `NGramFromCategorical`)

A Dafny model of the `NGramFromCategorical` operator of caffe2, as fixed by
the expected-output computation of its test
(`caffe2/python/operator_test/ngram_ops_test.py`).

The operator reads an N x D matrix. Its configuration has three parts:

- `col_ids`: an ordered list of chosen columns.
- `categorical_limits`: one vocabulary size per chosen column.
- `vals`: the flattened concatenation of the per-column vocabularies.

For every row it emits one integer, a mixed-radix number whose least
significant digit comes from the first chosen column. Chosen column `k`
contributes `r_k * prod(categorical_limits[:k])`. Here `r_k` is the position
of the row's cell in vocabulary `k`. A cell that is not in its vocabulary
(out of vocabulary, OOV) contributes 0. Columns that are not chosen are
ignored.

Modules:

- `Radix` (`radix.dfy`): mixed-radix packing in two readings. `WeightedSum`
  is the sum-of-weights form the test uses. `Compose` is the Horner form. Its
  inverse `Decode` applies `%` and `/` repeatedly. The module proves bounds,
  round trips, injectivity and surjectivity.
- `Vocabulary` (`vocabulary.dfy`): slicing `vals` into vocabularies, the
  inverse of flattening, and first-position lookup by exact equality.
- `NGram` (`ngram.dfy`): the configuration, its validation, the per-row
  digits, `EncodeRow`, `Encode` and the operator `NGramFromCategorical`,
  together with the encoder's properties.
- `NGramTest` (`oracle.dfy`): the test's own construction of rows and
  expected indices. It proves that the operator passes the test's final
  assertion for every draw the test can make.
- `NGramLoop` (`ngram_loop.dfy`): an imperative encoder. It keeps a running
  multiplier and a running vocabulary offset, and searches each slice
  linearly. It is proved equal to `Encode`.

Cells are modelled as `int`. Vocabulary entries are int32 ids. An
in-vocabulary cell is assigned exactly such an id. OOV cells are negative. So
only exact-equality membership matters.

The test draws randomly. In the model those draws become parameters: the
starting matrix, the chosen columns, the vocabularies, and one `Draw` per
chosen column per row.

The test itself never shows a configuration being rejected. Validation
(`NGram.Validate`) is this model's choice of failure conditions; the test
never exercises it. A configuration is rejected for:

- a limit count that differs from the column count;
- a non-positive limit;
- a `vals` whose length is not the sum of the limits;
- a chosen column outside `[0, D)`.

The test always generates configurations that pass.

## Model

| member | source | states |
|---|---|---|
| NGram.Digits | caffe2/python/operator_test/ngram_ops_test.py:59-63 | the tuple of the `r_k`: one in-range digit per chosen column, digit `k` being that column's `Position`; `DecodeRecoversPositions` recovers it from the index and `PositionsOfSampledRow` equates it with the test's draws |
| NGram.EncodeRow | caffe2/python/operator_test/ngram_ops_test.py:55-64 | every row's index lies in `[0, product(categorical_limits))` |
| NGram.Position | caffe2/python/operator_test/ngram_ops_test.py:59-63 | digit `k` is a position inside vocabulary `k`; if the cell is in the vocabulary, it is a position holding the cell's value; an OOV cell gives 0 |
| NGram.Encode | caffe2/python/operator_test/ngram_ops_test.py:54-55 | exactly one output per input row |
| NGram.EncodeAt | caffe2/python/operator_test/ngram_ops_test.py:54-65 | output `i` is the index of row `i`, computed from that row alone |
| NGram.EncodeRowByRow | caffe2/python/operator_test/ngram_ops_test.py:54-65 | a sequence is the encoding of the matrix if and only if it has one entry per row and entry `i` is the index of row `i` |
| NGram.NGramFromCategorical | caffe2/python/operator_test/ngram_ops_test.py:67-79 | the operator encodes exactly when the configuration is well formed, and then its output is `Encode` of the matrix, one index per row; otherwise it returns the validation error and no output |
| NGram.Validate | caffe2/python/operator_test/ngram_ops_test.py:42-51 | accepts exactly the well-formed configurations (one positive limit per chosen column, `vals` as long as all vocabularies, column ids inside the matrix), which include every configuration the test builds; `LimitCountMismatch` exactly when the counts differ, `NonPositiveLimit(k)` and `ColumnOutOfRange(k)` name an offending limit or column, and `VocabularySizeMismatch` only when the limits are positive and `vals` has the wrong length |
| NGram.DecodeRecoversPositions | caffe2/python/operator_test/ngram_ops_test.py:56-63 | repeated mod/div by the limits, in configuration order, recovers every chosen column's vocabulary position |
| NGram.EncodeRowInjective | caffe2/python/operator_test/ngram_ops_test.py:56-63 | two rows get the same index if and only if every chosen column has the same position |
| NGram.FirstColumnLeastSignificant | caffe2/python/operator_test/ngram_ops_test.py:58 | the first chosen column has weight `prod([]) = 1`; the index modulo the first limit is that column's position |
| NGram.EmptyConfigurationEncodesZero | caffe2/python/operator_test/ngram_ops_test.py:56-57 | with no chosen columns every row encodes to 0 |
| NGram.InVocabularyPosition | caffe2/python/operator_test/ngram_ops_test.py:47-50 | in a vocabulary without repeats, a cell equal to entry `p` gets exactly position `p` |
| NGram.UnchosenColumnsIgnored | caffe2/python/operator_test/ngram_ops_test.py:57-63 | two rows that agree on the chosen columns get the same index, whatever their other columns hold |
| NGram.UpdateUnchosenColumn | caffe2/python/operator_test/ngram_ops_test.py:43-63 | overwriting a cell of a column not in `col_ids` leaves the index unchanged |
| NGram.OutOfVocabularyIsPositionZero | caffe2/python/operator_test/ngram_ops_test.py:60-63 | an OOV cell has position 0, and the row's index equals the index with that cell replaced by the vocabulary's first entry |
| NGram.EncodeAppend | caffe2/python/operator_test/ngram_ops_test.py:55-65 | encoding two blocks of rows together is encoding each block and concatenating (rows are independent) |
| Radix.Base | caffe2/python/operator_test/ngram_ops_test.py:58 | the weight `prod(categorical_limits[:k])` of column `k` is positive when the limits are; column 0 has weight 1 (`FirstColumnLeastSignificant`) and each step multiplies by `limits[k]` (`BaseStep`) |
| Radix.BaseStep | caffe2/python/operator_test/ngram_ops_test.py:58 | the weight of column `k + 1` is the weight of column `k` times `limits[k]` |
| Radix.Compose | caffe2/python/operator_test/ngram_ops_test.py:56-62 | the Horner packing; `WeightedSumIsCompose` equates it with the test's sum, `ComposeBound` bounds it, and `DecodeCompose`/`ComposeDecode` make `Decode` its inverse |
| Radix.Decode | caffe2/python/operator_test/ngram_ops_test.py:56-63 | one digit per limit; by `DecodeCompose` and `ComposeDecode` it inverts `Compose` on in-range digits and on indices below the product |
| Radix.WeightedSum | caffe2/python/operator_test/ngram_ops_test.py:56-62 | the sum of `prod(limits[:k]) * r_k` over the first `n` in-range digits lies in `[0, prod(limits[:n]))` |
| Radix.WeightedSumIsCompose | caffe2/python/operator_test/ngram_ops_test.py:56-62 | the test's sum-of-weights form equals the Horner form `r_0 + l_0 * (r_1 + l_1 * ...)` |
| Radix.ComposeBound | caffe2/python/operator_test/ngram_ops_test.py:58-62 | in-range digits pack below the product of all limits |
| Radix.DecodeCompose | caffe2/python/operator_test/ngram_ops_test.py:56-63 | decoding the Horner packing of in-range digits gives the digits back |
| Radix.ComposeDecode | caffe2/python/operator_test/ngram_ops_test.py:56-63 | every index below the product decodes to in-range digits that pack back to it |
| Radix.DecodeWeightedSum | caffe2/python/operator_test/ngram_ops_test.py:56-63 | repeated mod/div recovers each digit of the test's weighted sum |
| Radix.WeightedSumInjective | caffe2/python/operator_test/ngram_ops_test.py:56-63 | distinct in-range digit tuples give distinct indices, and equal ones equal indices |
| Radix.WeightedSumOnto | caffe2/python/operator_test/ngram_ops_test.py:56-63 | every index in `[0, product(limits))` is the weighted sum of exactly its decoded digits |
| Radix.ProductCons | caffe2/python/operator_test/ngram_ops_test.py:58 | the product of the limits splits as the first limit times the product of the rest |
| Vocabulary.Flatten | caffe2/python/operator_test/ngram_ops_test.py:51 | the concatenation of the `vcb` in order; its length is the sum of the sizes (`FlattenLength`), and `VocabOfFlatten`/`FlattenSplit` make slicing by the limits its inverse |
| Vocabulary.VocabOf | caffe2/python/operator_test/ngram_ops_test.py:47-51 | vocabulary `k` is a slice of `vals` of exactly `categorical_limits[k]` entries; by `VocabOfFlatten` it is `vcb[k]` when `vals` is the concatenation of the `vcb` |
| Vocabulary.VocabOfFlatten | caffe2/python/operator_test/ngram_ops_test.py:47-51 | cutting the flattened `vals` into slices of sizes `categorical_limits` gives back each column's vocabulary |
| Vocabulary.FlattenSplit | caffe2/python/operator_test/ngram_ops_test.py:51 | concatenating the slices cut out of `vals` gives `vals` back |
| Vocabulary.IndexOf | caffe2/python/operator_test/ngram_ops_test.py:61-63 | lookup by exact equality: `None` exactly when the value is absent, else the first position holding it |
| Vocabulary.IndexOfDistinct | caffe2/python/operator_test/ngram_ops_test.py:47-50 | in a vocabulary drawn without replacement, entry `p` is found exactly at `p` |
| Vocabulary.IndexOfBelowAll | caffe2/python/operator_test/ngram_ops_test.py:53 | a negative cell is never found among non-negative vocabulary ids |
| NGramTest.TestConfig | caffe2/python/operator_test/ngram_ops_test.py:42-51 | the configurations the proof covers: a well-formed configuration (positive limits, in-range `col_ids`, one limit per column) with distinct `col_ids`, one vocabulary of exactly `limits[k]` distinct non-negative ids per column, and `vals` equal to `Flatten` of the vocabularies; a superset of what the test builds, which also fixes the column count to `max(int(D / 2), 1)` and limits to `[2, max_categorical_limit)` |
| NGramTest.DrawnDigits | caffe2/python/operator_test/ngram_ops_test.py:59-62 | the position each draw adds to `val`: the drawn `r` when in vocabulary, 0 when OOV; one digit per draw, and `PositionsOfSampledRow` shows it is the encoder's digit tuple |
| NGramTest.SampleRow | caffe2/python/operator_test/ngram_ops_test.py:55-63 | the test's inner loop over the chosen columns of one row keeps the row's width; `SampleRowCells` gives the cells it writes and `SampleRowExpected` the `val` it accumulates |
| NGramTest.SampledMatrix | caffe2/python/operator_test/ngram_ops_test.py:53-64 | the matrix after the test's loop has one row per starting row, each `D` cells wide |
| NGramTest.ExpectedOutput | caffe2/python/operator_test/ngram_ops_test.py:54-65 | `expected_output` has one entry per row; `RowPassesTest` shows entry `i` is the index of row `i` |
| NGramTest.SampleRowCells | caffe2/python/operator_test/ngram_ops_test.py:57-63 | after the test's loop, each in-vocabulary chosen cell holds the drawn entry; every other cell keeps its starting value |
| NGramTest.SampleRowExpected | caffe2/python/operator_test/ngram_ops_test.py:56-62 | the test's expected value is the weighted sum of the drawn positions, with 0 for OOV draws |
| NGramTest.PositionsOfSampledRow | caffe2/python/operator_test/ngram_ops_test.py:53-63 | on a row the test built, the encoder's digit for each chosen column is exactly the test's draw |
| NGramTest.EncoderMatchesExpected | caffe2/python/operator_test/ngram_ops_test.py:55-64 | for every row the test can build, the encoder's index equals the test's expected value |
| NGramTest.RowPassesTest | caffe2/python/operator_test/ngram_ops_test.py:53-65 | row `i` of the matrix the test feeds in encodes to entry `i` of `expected_output` |
| NGramTest.OperatorPassesTest | caffe2/python/operator_test/ngram_ops_test.py:67-79 | on every matrix and configuration the test can generate, the operator accepts the configuration and its output equals `expected_output` |
| NGramLoop.FindInSlice | caffe2/python/operator_test/ngram_ops_test.py:61-63 | linear search of one vocabulary slice finds the value exactly when it is there, at its first position |
| NGramLoop.LookupDigit | caffe2/python/operator_test/ngram_ops_test.py:59-63 | searching slice `k` of `vals` at the running offset yields digit `k` of the row |
| NGramLoop.EncodeRowLoop | caffe2/python/operator_test/ngram_ops_test.py:56-63 | one pass with a running multiplier and a running vocabulary offset computes the row's index |
| NGramLoop.Advance | caffe2/python/operator_test/ngram_ops_test.py:56-63 | one step of the row loop adds digit `k` at the running multiplier and moves the multiplier and the vocabulary offset past column `k` |
| NGramLoop.EncodeMatrix | caffe2/python/operator_test/ngram_ops_test.py:54-65 | the row-by-row loop produces exactly the functional encoding of the matrix |

## Left out

- Float32 cells. The matrix holds `float32` values, modelled as integers.
  Vocabulary ids are below 10000, so they are exact in float32. Only exact
  equality is ever used.
- Negative zero. The test's OOV cells are `-rand()`, which lies in `(-1, 0]`.
  A draw of exactly 0 gives `-0.0`. That value compares equal to a
  vocabulary id 0, so the cell would not be OOV. The model assumes OOV cells
  are strictly negative (`NegativeAtChosen`), the evident intent.
- int32 width. The expected output and the operator's output are int32
  arrays. The model uses unbounded integers. The test's bounds keep the
  product of the limits below 20^5, far inside int32.
- Random input generation. The hypothesis strategies and numpy randomness
  (N, D, `out_of_vcb`, choice of columns, limits, vocabularies, positions)
  become parameters. The `Draw` values stand for the test's per-column
  `p > out_of_vcb` decision and its position `r`. The test also draws `r` for
  OOV columns, but that draw does not affect the result.
- The shape of the generated configuration. The test chooses
  `max(int(D / 2), 1)` columns, with limits in `[2, max_categorical_limit)`.
  The model accepts any number of chosen columns and any positive limit.
- Framework plumbing: the workspace, blob feeding, operator creation and
  dispatch, and the device contexts `gc`/`dc`. These are I/O around the
  encoder.
- The C++ operator body is not part of this model. Its behaviour is taken
  from the test's expected output. Validation is this model's choice of
  failure conditions (column out of range, limit count or `vals` length
  mismatch, non-positive limit); the test never exercises it.
- Repeated column ids or repeated vocabulary entries. The test never
  generates either: it draws both without replacement. The model encodes
  such configurations with first-match lookup. The properties that need
  distinctness state it as a hypothesis (`DistinctColumns`, `Distinct`).
