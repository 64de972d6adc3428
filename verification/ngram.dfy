/**
 The `NGramFromCategorical` encoder.

 Each row of an N x D matrix is turned into one integer.  The configuration
 names an ordered list of chosen columns (`colIds`), one vocabulary size per
 chosen column (`limits`) and the concatenation of the vocabularies
 (`vals`).  Chosen column `k` contributes `r_k * Base(limits, k)`, where
 `r_k` is the position of the row's cell inside vocabulary `k`, or 0 when the
 cell is not in that vocabulary.  Unchosen columns are ignored.
 */
module NGram {
  import opened Radix
  import opened Vocabulary

  /** One row of the input matrix; cells hold the categorical value ids. */
  type Row = seq<int>

  datatype Config = Config(colIds: seq<int>, limits: seq<int>, vals: seq<int>)

  datatype ConfigError =
    | LimitCountMismatch          // not one limit per chosen column
    | NonPositiveLimit(k: nat)    // vocabulary `k` would be empty or negative
    | VocabularySizeMismatch      // `vals` is not as long as the vocabularies together
    | ColumnOutOfRange(k: nat)    // chosen column `k` is not a column of the matrix

  datatype Validation = Valid | Invalid(error: ConfigError)

  /** What the operator hands back: one index per row, or the rejected configuration. */
  datatype Output = Encoded(indices: seq<int>) | Rejected(error: ConfigError)

  /** A configuration the encoder can run on a matrix `width` columns wide. */
  predicate WellFormed(cfg: Config, width: nat)
  {
    && |cfg.limits| == |cfg.colIds|
    && Positive(cfg.limits)
    && |cfg.vals| == Sum(cfg.limits)
    && forall k :: 0 <= k < |cfg.colIds| ==> 0 <= cfg.colIds[k] < width
  }

  /** Every row of the matrix is `width` cells wide. */
  predicate Matrix(rows: seq<Row>, width: nat)
  {
    forall i :: 0 <= i < |rows| ==> |rows[i]| == width
  }

  /** No column is chosen twice. */
  predicate DistinctColumns(cfg: Config)
  {
    forall k1, k2 :: 0 <= k1 < k2 < |cfg.colIds| ==> cfg.colIds[k1] != cfg.colIds[k2]
  }

  // ---------------------------------------------------------------------
  // Configuration checks

  /** The first limit that is not positive. */
  function FirstNonPositive(limits: seq<int>): (r: Option<nat>)
    ensures r.None? <==> Positive(limits)
    ensures r.Some? ==> r.value < |limits| && limits[r.value] <= 0
    ensures r.Some? ==> Positive(limits[..r.value])
  {
    if |limits| == 0 then None
    else if limits[0] <= 0 then Some(0)
    else
      match FirstNonPositive(limits[1..])
      case None => None
      case Some(i) =>
        assert limits[..i + 1] == [limits[0]] + limits[1..][..i];
        Some(i + 1)
  }

  /** The first chosen column that is not a column of a `width`-wide matrix. */
  function FirstOutOfRange(colIds: seq<int>, width: nat): (r: Option<nat>)
    ensures r.None? <==> forall k :: 0 <= k < |colIds| ==> 0 <= colIds[k] < width
    ensures r.Some? ==> r.value < |colIds| && !(0 <= colIds[r.value] < width)
    ensures r.Some? ==> forall k :: 0 <= k < r.value ==> 0 <= colIds[k] < width
  {
    if |colIds| == 0 then None
    else if !(0 <= colIds[0] < width) then Some(0)
    else
      match FirstOutOfRange(colIds[1..], width)
      case None => None
      case Some(i) => Some(i + 1)
  }

  /** Configuration check done before any row is encoded. */
  function Validate(cfg: Config, width: nat): (v: Validation)
    ensures v.Valid? <==> WellFormed(cfg, width)
    ensures v == Invalid(LimitCountMismatch) <==> |cfg.limits| != |cfg.colIds|
    ensures v == Invalid(VocabularySizeMismatch) ==> Positive(cfg.limits) && |cfg.vals| != Sum(cfg.limits)
    ensures v.Invalid? && v.error.NonPositiveLimit? ==>
              v.error.k < |cfg.limits| && cfg.limits[v.error.k] <= 0
    ensures v.Invalid? && v.error.ColumnOutOfRange? ==>
              v.error.k < |cfg.colIds| && !(0 <= cfg.colIds[v.error.k] < width)
  {
    if |cfg.limits| != |cfg.colIds| then Invalid(LimitCountMismatch)
    else
      match FirstNonPositive(cfg.limits)
      case Some(k) => Invalid(NonPositiveLimit(k))
      case None =>
        if |cfg.vals| != Sum(cfg.limits) then Invalid(VocabularySizeMismatch)
        else
          match FirstOutOfRange(cfg.colIds, width)
          case Some(k) => Invalid(ColumnOutOfRange(k))
          case None => Valid
  }

  // ---------------------------------------------------------------------
  // Encoding

  lemma PositiveIsNonNegative(limits: seq<int>)
    requires Positive(limits)
    ensures NonNegative(limits)
  {
  }

  /** The vocabulary of chosen column `k`. */
  function Vocab(cfg: Config, k: nat): (v: seq<int>)
    requires |cfg.limits| == |cfg.colIds| && Positive(cfg.limits) && |cfg.vals| == Sum(cfg.limits)
    requires k < |cfg.colIds|
    ensures |v| == cfg.limits[k]
  {
    PositiveIsNonNegative(cfg.limits);
    VocabOf(cfg.vals, cfg.limits, k)
  }

  /** Digit `k` of a row: the cell's position in vocabulary `k`, or 0 when it is not there. */
  function Position(cfg: Config, row: Row, k: nat): (p: int)
    requires WellFormed(cfg, |row|)
    requires k < |cfg.colIds|
    ensures 0 <= p < cfg.limits[k]
    ensures row[cfg.colIds[k]] in Vocab(cfg, k) ==> Vocab(cfg, k)[p] == row[cfg.colIds[k]]
    ensures row[cfg.colIds[k]] !in Vocab(cfg, k) ==> p == 0
  {
    match IndexOf(Vocab(cfg, k), row[cfg.colIds[k]])
    case Some(i) => i
    case None => 0
  }

  /** The digits of the first `n` chosen columns of a row, least significant first. */
  function DigitsUpTo(cfg: Config, row: Row, n: nat): (d: seq<int>)
    requires WellFormed(cfg, |row|)
    requires n <= |cfg.colIds|
    ensures |d| == n
    ensures forall k :: 0 <= k < n ==> d[k] == Position(cfg, row, k)
  {
    if n == 0 then [] else DigitsUpTo(cfg, row, n - 1) + [Position(cfg, row, n - 1)]
  }

  /** All digits of a row, least significant first. */
  function Digits(cfg: Config, row: Row): (d: seq<int>)
    requires WellFormed(cfg, |row|)
    ensures InRange(d, cfg.limits)
    ensures forall k :: 0 <= k < |d| ==> d[k] == Position(cfg, row, k)
  {
    DigitsUpTo(cfg, row, |cfg.colIds|)
  }

  /** The composite index of one row. */
  function EncodeRow(cfg: Config, row: Row): (r: int)
    requires WellFormed(cfg, |row|)
    ensures 0 <= r < Product(cfg.limits)
  {
    assert cfg.limits[..|cfg.limits|] == cfg.limits;
    WeightedSum(Digits(cfg, row), cfg.limits, |cfg.colIds|)
  }

  /** `f` applied to every element, in order. */
  function Map<A, B>(s: seq<A>, f: A --> B): (r: seq<B>)
    requires forall i :: 0 <= i < |s| ==> f.requires(s[i])
    ensures |r| == |s|
    ensures forall i :: 0 <= i < |s| ==> r[i] == f(s[i])
  {
    if |s| == 0 then [] else [f(s[0])] + Map(s[1..], f)
  }

  /** Mapping a concatenation maps each part. */
  lemma MapAppend<A, B>(a: seq<A>, b: seq<A>, f: A --> B)
    requires forall i :: 0 <= i < |a| ==> f.requires(a[i])
    requires forall i :: 0 <= i < |b| ==> f.requires(b[i])
    ensures forall i :: 0 <= i < |a + b| ==> f.requires((a + b)[i])
    ensures Map(a + b, f) == Map(a, f) + Map(b, f)
  {
    assert forall i :: 0 <= i < |a + b| ==> (a + b)[i] == if i < |a| then a[i] else b[i - |a|];
  }

  /** Mapping one more element appends its image. */
  lemma MapSnoc<A, B>(s: seq<A>, i: nat, f: A --> B)
    requires i < |s|
    requires forall j :: 0 <= j < |s| ==> f.requires(s[j])
    ensures Map(s[..i + 1], f) == Map(s[..i], f) + [f(s[i])]
  {
    assert s[..i + 1] == s[..i] + [s[i]];
    MapAppend(s[..i], [s[i]], f);
  }

  /** The per-row encoder of a configuration, as a function of the row. */
  function RowEncoder(cfg: Config): (f: Row --> int)
  {
    row requires WellFormed(cfg, |row|) => EncodeRow(cfg, row)
  }

  /** The composite index of every row, in row order. */
  function Encode(rows: seq<Row>, cfg: Config, width: nat): (out: seq<int>)
    requires Matrix(rows, width) && WellFormed(cfg, width)
    ensures |out| == |rows|
  {
    Map(rows, RowEncoder(cfg))
  }

  /** The operator: reject a bad configuration before touching any row, else encode every row. */
  function NGramFromCategorical(rows: seq<Row>, width: nat, cfg: Config): (o: Output)
    requires Matrix(rows, width)
    ensures o.Encoded? <==> WellFormed(cfg, width)
    ensures o.Rejected? ==> Validate(cfg, width) == Invalid(o.error)
    ensures o.Encoded? ==> |o.indices| == |rows|
    ensures o.Encoded? ==> o.indices == Encode(rows, cfg, width)
  {
    match Validate(cfg, width)
    case Invalid(e) => Rejected(e)
    case Valid => Encoded(Encode(rows, cfg, width))
  }

  // ---------------------------------------------------------------------
  // Properties

  /** Output `i` of the encoder is the index of row `i`, and of nothing else. */
  lemma EncodeAt(rows: seq<Row>, cfg: Config, width: nat, i: nat)
    requires Matrix(rows, width) && WellFormed(cfg, width)
    requires i < |rows|
    ensures Encode(rows, cfg, width)[i] == EncodeRow(cfg, rows[i])
  {
  }

  /** The encoding is the one sequence holding, at each position, the index of that row. */
  lemma EncodeRowByRow(rows: seq<Row>, cfg: Config, width: nat, out: seq<int>)
    requires Matrix(rows, width) && WellFormed(cfg, width)
    ensures out == Encode(rows, cfg, width) <==>
              |out| == |rows| && forall i :: 0 <= i < |rows| ==> out[i] == EncodeRow(cfg, rows[i])
  {
    if |out| == |rows| && forall i :: 0 <= i < |rows| ==> out[i] == EncodeRow(cfg, rows[i]) {
      forall i | 0 <= i < |rows| ensures out[i] == Encode(rows, cfg, width)[i] {
        EncodeAt(rows, cfg, width, i);
      }
    }
  }

  /** Repeated `%` and `/` by the limits recover every column's vocabulary position. */
  lemma DecodeRecoversPositions(cfg: Config, row: Row)
    requires WellFormed(cfg, |row|)
    ensures Decode(EncodeRow(cfg, row), cfg.limits) == Digits(cfg, row)
    ensures forall k :: 0 <= k < |cfg.colIds| ==>
              Decode(EncodeRow(cfg, row), cfg.limits)[k] == Position(cfg, row, k)
  {
    DecodeWeightedSum(Digits(cfg, row), cfg.limits);
  }

  /** Two rows get the same index exactly when every chosen column has the same position. */
  lemma EncodeRowInjective(cfg: Config, row1: Row, row2: Row)
    requires WellFormed(cfg, |row1|) && WellFormed(cfg, |row2|)
    ensures EncodeRow(cfg, row1) == EncodeRow(cfg, row2)
        <==> forall k :: 0 <= k < |cfg.colIds| ==> Position(cfg, row1, k) == Position(cfg, row2, k)
  {
    WeightedSumInjective(Digits(cfg, row1), Digits(cfg, row2), cfg.limits);
    if forall k :: 0 <= k < |cfg.colIds| ==> Position(cfg, row1, k) == Position(cfg, row2, k) {
      assert Digits(cfg, row1) == Digits(cfg, row2);
    }
  }

  /** The first chosen column has weight 1: it is the index modulo the first limit. */
  lemma FirstColumnLeastSignificant(cfg: Config, row: Row)
    requires WellFormed(cfg, |row|)
    requires |cfg.colIds| > 0
    ensures Base(cfg.limits, 0) == 1
    ensures EncodeRow(cfg, row) % cfg.limits[0] == Position(cfg, row, 0)
  {
    DecodeRecoversPositions(cfg, row);
  }

  /** With no chosen column every row encodes to 0. */
  lemma EmptyConfigurationEncodesZero(cfg: Config, row: Row)
    requires WellFormed(cfg, |row|)
    requires |cfg.colIds| == 0
    ensures EncodeRow(cfg, row) == 0
  {
  }

  /** A cell found in its vocabulary without repeats contributes its own position. */
  lemma InVocabularyPosition(cfg: Config, row: Row, k: nat, p: nat)
    requires WellFormed(cfg, |row|)
    requires k < |cfg.colIds|
    requires Distinct(Vocab(cfg, k))
    requires p < cfg.limits[k] && row[cfg.colIds[k]] == Vocab(cfg, k)[p]
    ensures Position(cfg, row, k) == p
  {
    IndexOfDistinct(Vocab(cfg, k), p);
  }

  /** Rows that agree on the chosen columns have equal digits. */
  lemma SameChosenCellsSameDigits(cfg: Config, row1: Row, row2: Row)
    requires WellFormed(cfg, |row1|) && WellFormed(cfg, |row2|)
    requires forall k :: 0 <= k < |cfg.colIds| ==> row1[cfg.colIds[k]] == row2[cfg.colIds[k]]
    ensures Digits(cfg, row1) == Digits(cfg, row2)
  {
  }

  /** Columns that are not chosen never affect the index. */
  lemma UnchosenColumnsIgnored(cfg: Config, row1: Row, row2: Row)
    requires WellFormed(cfg, |row1|) && WellFormed(cfg, |row2|)
    requires forall k :: 0 <= k < |cfg.colIds| ==> row1[cfg.colIds[k]] == row2[cfg.colIds[k]]
    ensures EncodeRow(cfg, row1) == EncodeRow(cfg, row2)
  {
    SameChosenCellsSameDigits(cfg, row1, row2);
  }

  /** Overwriting a cell of a column that is not chosen leaves the index unchanged. */
  lemma UpdateUnchosenColumn(cfg: Config, row: Row, j: nat, v: int)
    requires WellFormed(cfg, |row|)
    requires j < |row|
    requires forall k :: 0 <= k < |cfg.colIds| ==> cfg.colIds[k] != j
    ensures EncodeRow(cfg, row[j := v]) == EncodeRow(cfg, row)
  {
    UnchosenColumnsIgnored(cfg, row[j := v], row);
  }

  /** An out-of-vocabulary cell counts as position 0: the index is the one the
      row would get with that cell replaced by the first entry of its vocabulary. */
  lemma OutOfVocabularyIsPositionZero(cfg: Config, row: Row, k: nat)
    requires WellFormed(cfg, |row|)
    requires DistinctColumns(cfg)
    requires k < |cfg.colIds|
    requires row[cfg.colIds[k]] !in Vocab(cfg, k)
    ensures Position(cfg, row, k) == 0
    ensures EncodeRow(cfg, row) == EncodeRow(cfg, row[cfg.colIds[k] := Vocab(cfg, k)[0]])
  {
    var row' := row[cfg.colIds[k] := Vocab(cfg, k)[0]];
    IndexOfFirst(Vocab(cfg, k));
    forall k' | 0 <= k' < |cfg.colIds|
      ensures Digits(cfg, row)[k'] == Digits(cfg, row')[k']
    {
      if k' != k {
        assert row'[cfg.colIds[k']] == row[cfg.colIds[k']];
      }
    }
    assert Digits(cfg, row) == Digits(cfg, row');
  }

  /** Encoding a matrix split into two blocks of rows is encoding each block. */
  lemma EncodeAppend(a: seq<Row>, b: seq<Row>, cfg: Config, width: nat)
    requires Matrix(a, width) && Matrix(b, width) && WellFormed(cfg, width)
    ensures Matrix(a + b, width)
    ensures Encode(a + b, cfg, width) == Encode(a, cfg, width) + Encode(b, cfg, width)
  {
    MapAppend(a, b, RowEncoder(cfg));
  }
}
