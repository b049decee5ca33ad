/**
 * Concrete columns run through the specification of `encode`, and the input
 * that shows the boolean path's scan bypassing the row index.
 */
module Scenarios {
  import opened Wrappers
  import opened STypes
  import opened Rows
  import opened Encoder
  import opened EncoderProperties

  /** A stand-in for the int32 NA sentinel of an integer column. */
  const IntNA: int := -0x8000_0000

  /** A stand-in for the int8 NA value of a boolean column. */
  const BoolNA: int := -0x80

  /** The distinct values of the rows [a, NA, a, b, NA, a], in first-seen order. */
  lemma TwoValueRowsFirstSeen<T>(a: T, b: T)
    requires a != b
    ensures FirstSeen([Some(a), None, Some(a), Some(b), None, Some(a)]) == [a, b]
  {
    var s0: seq<Option<T>> := [];
    var s1 := s0 + [Some(a)];
    var s2 := s1 + [None];
    var s3 := s2 + [Some(a)];
    var s4 := s3 + [Some(b)];
    var s5 := s4 + [None];
    assert FirstSeen(s0) == [];
    FirstSeenSnoc(s0, Some(a));
    FirstSeenSnoc(s1, None);
    FirstSeenSnoc(s2, Some(a));
    FirstSeenSnoc(s3, Some(b));
    FirstSeenSnoc(s4, None);
    FirstSeenSnoc(s5, Some(a));
    assert s5 + [Some(a)] == [Some(a), None, Some(a), Some(b), None, Some(a)];
  }

  /** Integer column [5, NA, 5, 7, NA, 5]: codes [0, NA, 0, 1, NA, 0], labels [5, 7]. */
  lemma IntegerColumnExample()
    ensures EncodeSpec(Column(INT32, [0, 1, 2, 3, 4, 5], [5, IntNA, 5, 7, IntNA, 5]), (x: int) => x == IntNA)
         == Success(ValueLabels(Labels([0, 1], [5, 7]), [Id(0), NA, Id(0), Id(1), NA, Id(0)]))
  {
    var col := Column(INT32, [0, 1, 2, 3, 4, 5], [5, IntNA, 5, 7, IntNA, 5]);
    var isNA := (x: int) => x == IntNA;
    var vs := RowValues(col, isNA);
    assert vs == [Some(5), None, Some(5), Some(7), None, Some(5)];
    TwoValueRowsFirstSeen(5, 7);
    assert IndexOf([5, 7], 5) == 0;
    assert IndexOf([5, 7], 7) == 1;
    assert CodesOf(vs) == [Id(0), NA, Id(0), Id(1), NA, Id(0)];
    assert Iota(2) == [0, 1];
  }

  /** Boolean column [true, NA, false]: the column itself is the codes, labels [false, true]. */
  lemma BoolColumnExample()
    ensures var col := Column(BOOL, [0, 1, 2], [1, BoolNA, 0]);
      EncodeSpec(col, (x: int) => x == BoolNA) == Success(BoolLabels(Labels([0, 1], [false, true]), col))
  {
    var col := Column(BOOL, [0, 1, 2], [1, BoolNA, 0]);
    assert RowValue(col, (x: int) => x == BoolNA, 0) == Some(1);
  }

  /** A boolean column holding only true and NA still gets both labels. */
  lemma BoolColumnOnlyTrueExample()
    ensures var col := Column(BOOL, [0, 1], [BoolNA, 1]);
      EncodeSpec(col, (x: int) => x == BoolNA) == Success(BoolLabels(Labels([0, 1], [false, true]), col))
  {
    var col := Column(BOOL, [0, 1], [BoolNA, 1]);
    assert RowValue(col, (x: int) => x == BoolNA, 1) == Some(1);
  }

  /** A float column of ten NA rows comes back with no tables. */
  lemma AllNAColumnExample<T>(isNA: T -> bool, nan: T)
    requires isNA(nan)
    ensures EncodeSpec(Column(FLOAT64, seq(10, i => i), seq(10, i => nan)), isNA) == Success(NoLabels)
  {
    var col := Column(FLOAT64, seq(10, i => i), seq(10, i => nan));
    EncodeImplEmptyIffAllNA(col, isNA);
  }

  /**
   * String column ["a", "b", "a", NA]: as written the result has no tables,
   * because the string branch fills `labels_map_str` and line 138 tests `labels_map`.
   */
  lemma StringColumnExample()
    ensures EncodeSpec(Column(STR32, [0, 1, 2, 3], ["a", "b", "a", ""]), (s: string) => s == "")
         == Success(NoLabels)
  {
  }

  /**
   * A view of a boolean buffer [NA, true] that selects only physical row 1:
   * the one logical row is true, yet the scan of `encode_bool` as written reads
   * physical slot 0, finds only NA and returns no tables.
   */
  lemma BoolScanIgnoresRowIndex()
    ensures var col := Column(BOOL, [1], [BoolNA, 1]);
      && EncodeBoolAsWrittenSpec(col, (x: int) => x == BoolNA) == NoLabels
      && EncodeBoolSpec(col, (x: int) => x == BoolNA) == BoolLabels(BoolTable(), col)
  {
    var col := Column(BOOL, [1], [BoolNA, 1]);
    assert RowValue(col, (x: int) => x == BoolNA, 0) == Some(1);
  }
}
