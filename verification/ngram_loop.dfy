/**
 An imperative rendering of the encoder: one pass over the chosen columns per
 row, carrying the running multiplier (`Base(limits, k)`) and the running
 offset of vocabulary `k` inside `vals`, and a linear search of the slice.
 Each method is proved to compute what the functional model in `NGram`
 defines.
 */
module NGramLoop {
  import opened Radix
  import opened Vocabulary
  import opened NGram

  /** Linear search for `x` among `vals[lo..hi]`; `p` is its first position in that slice. */
  method FindInSlice(vals: seq<int>, lo: nat, hi: nat, x: int) returns (found: bool, p: nat)
    requires lo <= hi <= |vals|
    ensures found <==> x in vals[lo..hi]
    ensures found ==> IndexOf(vals[lo..hi], x) == Some(p)
  {
    var i := lo;
    while i < hi
      invariant lo <= i <= hi
      invariant forall j :: lo <= j < i ==> vals[j] != x
    {
      if vals[i] == x {
        var s := vals[lo..hi];
        assert s[i - lo] == x;
        assert forall j :: 0 <= j < i - lo ==> s[j] != x by {
          forall j | 0 <= j < i - lo ensures s[j] != x {
            assert s[j] == vals[lo + j];
          }
        }
        return true, i - lo;
      }
      i := i + 1;
    }
    assert forall j :: 0 <= j < hi - lo ==> vals[lo..hi][j] != x by {
      forall j | 0 <= j < hi - lo ensures vals[lo..hi][j] != x {
        assert vals[lo..hi][j] == vals[lo + j];
      }
    }
    return false, 0;
  }

  /** The composite index of one row, computed with a running multiplier. */
  method EncodeRowLoop(cfg: Config, row: Row) returns (v: int)
    requires WellFormed(cfg, |row|)
    ensures v == EncodeRow(cfg, row)
  {
    var n := |cfg.colIds|;
    v := 0;
    var mult := 1;
    var off: nat := 0;
    var k := 0;
    while k < n
      invariant 0 <= k <= n
      invariant mult == Base(cfg.limits, k)
      invariant off == Offset(cfg.limits, k)
      invariant v == WeightedSum(Digits(cfg, row), cfg.limits, k)
    {
      v, mult, off := Advance(cfg, row, k, v, mult, off);
      k := k + 1;
    }
  }

  /** One step of the row loop: fold in column `k` and move the multiplier and offset past it. */
  method Advance(cfg: Config, row: Row, k: nat, v: int, mult: int, off: nat)
    returns (v': int, mult': int, off': nat)
    requires WellFormed(cfg, |row|)
    requires k < |cfg.colIds|
    requires mult == Base(cfg.limits, k)
    requires off == Offset(cfg.limits, k)
    requires v == WeightedSum(Digits(cfg, row), cfg.limits, k)
    ensures mult' == Base(cfg.limits, k + 1)
    ensures off' == Offset(cfg.limits, k + 1)
    ensures v' == WeightedSum(Digits(cfg, row), cfg.limits, k + 1)
  {
    var d := LookupDigit(cfg, row, k, off);
    WeightedSumStep(Digits(cfg, row), cfg.limits, k, v, mult, d);
    OffsetStep(cfg.limits, k);
    v' := v + d * mult;
    mult' := mult * cfg.limits[k];
    off' := off + cfg.limits[k];
  }

  /** Digit `k` of a row, found by searching slice `k` of `vals`, which starts at `off`. */
  method LookupDigit(cfg: Config, row: Row, k: nat, off: nat) returns (d: int)
    requires WellFormed(cfg, |row|)
    requires k < |cfg.colIds|
    requires off == Offset(cfg.limits, k)
    ensures d == Digits(cfg, row)[k]
  {
    PositiveIsNonNegative(cfg.limits);
    OffsetBounds(cfg.limits, k);
    var found, p := FindInSlice(cfg.vals, off, off + cfg.limits[k], row[cfg.colIds[k]]);
    SliceDigit(cfg, row, k, off, found, p);
    d := if found then p else 0;
  }

  /** The search result for slice `k` of `vals` is digit `k` of the row. */
  lemma SliceDigit(cfg: Config, row: Row, k: nat, off: nat, found: bool, p: nat)
    requires WellFormed(cfg, |row|)
    requires k < |cfg.colIds|
    requires off == Offset(cfg.limits, k) && off + cfg.limits[k] <= |cfg.vals|
    requires found <==> row[cfg.colIds[k]] in cfg.vals[off..off + cfg.limits[k]]
    requires found ==> IndexOf(cfg.vals[off..off + cfg.limits[k]], row[cfg.colIds[k]]) == Some(p)
    ensures Digits(cfg, row)[k] == if found then p else 0
  {
    assert Vocab(cfg, k) == cfg.vals[off..off + cfg.limits[k]];
  }

  /** The composite index of every row, computed row by row. */
  method EncodeMatrix(rows: seq<Row>, cfg: Config, width: nat) returns (out: seq<int>)
    requires Matrix(rows, width) && WellFormed(cfg, width)
    ensures out == Encode(rows, cfg, width)
  {
    out := [];
    for i := 0 to |rows|
      invariant out == Map(rows[..i], RowEncoder(cfg))
    {
      var v := EncodeRowLoop(cfg, rows[i]);
      MapSnoc(rows, i, RowEncoder(cfg));
      out := out + [v];
    }
    assert rows[..|rows|] == rows;
  }
}
