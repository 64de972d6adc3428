/**
 The expected-output computation of the n-gram operator test, and the proof
 that the encoder agrees with it.

 The test builds each row itself.  Every cell starts negative, which no
 vocabulary entry is.  Then, for each chosen column `k` in order, it draws a
 position `r` and either (in vocabulary) overwrites the column's cell with
 entry `r` of vocabulary `k` and adds `Base(limits, k) * r` to the expected
 index, or (out of vocabulary) leaves the cell negative and adds nothing.
 The test asserts that the operator's output equals these expected indices.
 */
module NGramTest {
  import opened Radix
  import opened Vocabulary
  import opened NGram

  /** What the test decides for one chosen column of one row. */
  datatype Draw = InVocabulary(r: int) | OutOfVocabulary

  /** The row built so far, and the index the test expects for it. */
  datatype Sample = Sample(row: Row, expected: int)

  /** One draw per chosen column, every drawn position inside its vocabulary. */
  predicate ValidDraws(draws: seq<Draw>, limits: seq<int>)
  {
    && |draws| == |limits|
    && forall k :: 0 <= k < |draws| && draws[k].InVocabulary? ==> 0 <= draws[k].r < limits[k]
  }

  /** The configuration the test generates: distinct chosen columns of a `width`-wide
      matrix, and vocabularies of distinct non-negative ids whose concatenation is `vals`. */
  predicate TestConfig(cfg: Config, vocabs: seq<seq<int>>, width: nat)
  {
    && WellFormed(cfg, width)
    && DistinctColumns(cfg)
    && |vocabs| == |cfg.limits|
    && (forall k :: 0 <= k < |vocabs| ==> |vocabs[k]| == cfg.limits[k])
    && (forall k :: 0 <= k < |vocabs| ==> Distinct(vocabs[k]) && NonNegative(vocabs[k]))
    && cfg.vals == Flatten(vocabs)
  }

  /** Every chosen cell of the starting row is negative. */
  predicate NegativeAtChosen(cfg: Config, floats: Row)
  {
    forall k :: 0 <= k < |cfg.colIds| && 0 <= cfg.colIds[k] < |floats| ==> floats[cfg.colIds[k]] < 0
  }

  /** The digit the test adds for a draw: the drawn position, or nothing when out of vocabulary. */
  function DrawnDigits(draws: seq<Draw>): (d: seq<int>)
    ensures |d| == |draws|
  {
    seq(|draws|, k requires 0 <= k < |draws| =>
      match draws[k]
      case InVocabulary(r) => r
      case OutOfVocabulary => 0)
  }

  /** The test's loop over the first `n` chosen columns of one row. */
  function SampleRow(cfg: Config, vocabs: seq<seq<int>>, floats: Row, draws: seq<Draw>, n: nat): (s: Sample)
    requires TestConfig(cfg, vocabs, |floats|)
    requires ValidDraws(draws, cfg.limits)
    requires n <= |cfg.colIds|
    ensures |s.row| == |floats|
  {
    if n == 0 then Sample(floats, 0)
    else
      var k := n - 1;
      var s := SampleRow(cfg, vocabs, floats, draws, k);
      match draws[k]
      case OutOfVocabulary => s
      case InVocabulary(r) =>
        Sample(s.row[cfg.colIds[k] := vocabs[k][r]], s.expected + Base(cfg.limits, k) * r)
  }

  /** After the loop has visited `n` columns, each visited chosen cell holds the drawn
      vocabulary entry or is still the starting cell, and every other cell is untouched. */
  lemma {:induction false} SampleRowCells(cfg: Config, vocabs: seq<seq<int>>, floats: Row, draws: seq<Draw>, n: nat)
    requires TestConfig(cfg, vocabs, |floats|)
    requires ValidDraws(draws, cfg.limits)
    requires n <= |cfg.colIds|
    ensures forall k :: 0 <= k < n && draws[k].InVocabulary? ==>
              SampleRow(cfg, vocabs, floats, draws, n).row[cfg.colIds[k]] == vocabs[k][draws[k].r]
    ensures forall k :: 0 <= k < n && draws[k].OutOfVocabulary? ==>
              SampleRow(cfg, vocabs, floats, draws, n).row[cfg.colIds[k]] == floats[cfg.colIds[k]]
    ensures forall j :: 0 <= j < |floats| && (forall k :: 0 <= k < n ==> cfg.colIds[k] != j) ==>
              SampleRow(cfg, vocabs, floats, draws, n).row[j] == floats[j]
  {
    if n > 0 {
      SampleRowCells(cfg, vocabs, floats, draws, n - 1);
    }
  }

  /** The expected index is the weighted sum of the drawn digits. */
  lemma {:induction false} SampleRowExpected(cfg: Config, vocabs: seq<seq<int>>, floats: Row, draws: seq<Draw>, n: nat)
    requires TestConfig(cfg, vocabs, |floats|)
    requires ValidDraws(draws, cfg.limits)
    requires n <= |cfg.colIds|
    ensures SampleRow(cfg, vocabs, floats, draws, n).expected
         == WeightedSum(DrawnDigits(draws), cfg.limits, n)
  {
    if n > 0 {
      SampleRowExpected(cfg, vocabs, floats, draws, n - 1);
    }
  }

  /** The encoder finds, in each chosen cell of a built row, exactly the digit the test drew. */
  lemma PositionsOfSampledRow(cfg: Config, vocabs: seq<seq<int>>, floats: Row, draws: seq<Draw>)
    requires TestConfig(cfg, vocabs, |floats|)
    requires ValidDraws(draws, cfg.limits)
    requires NegativeAtChosen(cfg, floats)
    ensures WellFormed(cfg, |SampleRow(cfg, vocabs, floats, draws, |cfg.colIds|).row|)
    ensures Digits(cfg, SampleRow(cfg, vocabs, floats, draws, |cfg.colIds|).row) == DrawnDigits(draws)
  {
    var n := |cfg.colIds|;
    var row := SampleRow(cfg, vocabs, floats, draws, n).row;
    SampleRowCells(cfg, vocabs, floats, draws, n);
    PositiveIsNonNegative(cfg.limits);
    forall k | 0 <= k < n
      ensures Position(cfg, row, k) == DrawnDigits(draws)[k]
    {
      VocabOfFlatten(vocabs, cfg.limits, k);
      assert Vocab(cfg, k) == vocabs[k];
      match draws[k]
      case InVocabulary(r) =>
        InVocabularyPosition(cfg, row, k, r);
      case OutOfVocabulary =>
        IndexOfBelowAll(vocabs[k], row[cfg.colIds[k]]);
    }
  }

  /** The operator's index for a row the test built equals the index the test expects. */
  lemma EncoderMatchesExpected(cfg: Config, vocabs: seq<seq<int>>, floats: Row, draws: seq<Draw>)
    requires TestConfig(cfg, vocabs, |floats|)
    requires ValidDraws(draws, cfg.limits)
    requires NegativeAtChosen(cfg, floats)
    ensures WellFormed(cfg, |SampleRow(cfg, vocabs, floats, draws, |cfg.colIds|).row|)
    ensures EncodeRow(cfg, SampleRow(cfg, vocabs, floats, draws, |cfg.colIds|).row)
         == SampleRow(cfg, vocabs, floats, draws, |cfg.colIds|).expected
  {
    PositionsOfSampledRow(cfg, vocabs, floats, draws);
    SampleRowExpected(cfg, vocabs, floats, draws, |cfg.colIds|);
  }

  // ---------------------------------------------------------------------
  // The whole matrix

  /** The test's draws for a whole matrix: one list of valid draws per row. */
  predicate ValidMatrixDraws(draws: seq<seq<Draw>>, rows: nat, limits: seq<int>)
  {
    && |draws| == rows
    && forall i :: 0 <= i < |draws| ==> ValidDraws(draws[i], limits)
  }

  /** Every row of the starting matrix is negative at the chosen columns. */
  predicate NegativeMatrix(cfg: Config, floats: seq<Row>)
  {
    forall i :: 0 <= i < |floats| ==> NegativeAtChosen(cfg, floats[i])
  }

  /** The matrix the test feeds to the operator. */
  function SampledMatrix(cfg: Config, vocabs: seq<seq<int>>, floats: seq<Row>, width: nat,
                         draws: seq<seq<Draw>>): (rows: seq<Row>)
    requires TestConfig(cfg, vocabs, width)
    requires Matrix(floats, width)
    requires ValidMatrixDraws(draws, |floats|, cfg.limits)
    ensures |rows| == |floats|
    ensures Matrix(rows, width)
  {
    seq(|floats|, i requires 0 <= i < |floats| =>
      SampleRow(cfg, vocabs, floats[i], draws[i], |cfg.colIds|).row)
  }

  /** The expected output the test compares against. */
  function ExpectedOutput(cfg: Config, vocabs: seq<seq<int>>, floats: seq<Row>, width: nat,
                          draws: seq<seq<Draw>>): (out: seq<int>)
    requires TestConfig(cfg, vocabs, width)
    requires Matrix(floats, width)
    requires ValidMatrixDraws(draws, |floats|, cfg.limits)
    ensures |out| == |floats|
  {
    seq(|floats|, i requires 0 <= i < |floats| =>
      SampleRow(cfg, vocabs, floats[i], draws[i], |cfg.colIds|).expected)
  }

  /** Row `i` of the matrix the test feeds in encodes to the test's expected value `i`. */
  lemma RowPassesTest(cfg: Config, vocabs: seq<seq<int>>, floats: seq<Row>, width: nat,
                      draws: seq<seq<Draw>>, i: nat)
    requires TestConfig(cfg, vocabs, width)
    requires Matrix(floats, width)
    requires ValidMatrixDraws(draws, |floats|, cfg.limits)
    requires NegativeMatrix(cfg, floats)
    requires i < |floats|
    ensures EncodeRow(cfg, SampledMatrix(cfg, vocabs, floats, width, draws)[i])
         == ExpectedOutput(cfg, vocabs, floats, width, draws)[i]
  {
    EncoderMatchesExpected(cfg, vocabs, floats[i], draws[i]);
  }

  /** The test's final assertion: the operator accepts the configuration and its
      output array equals the expected one, row by row. */
  lemma OperatorPassesTest(cfg: Config, vocabs: seq<seq<int>>, floats: seq<Row>, width: nat,
                           draws: seq<seq<Draw>>)
    requires TestConfig(cfg, vocabs, width)
    requires Matrix(floats, width)
    requires ValidMatrixDraws(draws, |floats|, cfg.limits)
    requires NegativeMatrix(cfg, floats)
    ensures NGramFromCategorical(SampledMatrix(cfg, vocabs, floats, width, draws), width, cfg)
         == Encoded(ExpectedOutput(cfg, vocabs, floats, width, draws))
  {
    var rows := SampledMatrix(cfg, vocabs, floats, width, draws);
    var expected := ExpectedOutput(cfg, vocabs, floats, width, draws);
    forall i | 0 <= i < |rows|
      ensures expected[i] == EncodeRow(cfg, rows[i])
    {
      RowPassesTest(cfg, vocabs, floats, width, draws, i);
    }
    EncodeRowByRow(rows, cfg, width, expected);
  }
}
