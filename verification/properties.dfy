/**
 * What the encoder promises about its result, proved on the specification
 * functions that the methods of module Encoder are verified against.
 */
module EncoderProperties {
  import opened Wrappers
  import opened STypes
  import opened Rows
  import opened Registry
  import opened Encoder

  /** Row `i` is NA: through the row index, or by its own value. */
  predicate RowIsNA<T>(col: Column<T>, isNA: T -> bool, i: nat)
    requires WellFormed(col) && i < |col.rowindex|
  {
    col.rowindex[i] == RowIndexNA || isNA(col.data[col.rowindex[i]])
  }

  /** A non-string column comes back with no tables exactly when every row is NA (lines 137-138). */
  lemma EncodeImplEmptyIffAllNA<T>(col: Column<T>, isNA: T -> bool)
    requires WellFormed(col) && !IsString(col.stype)
    ensures EncodeImplSpec(col, isNA) == NoLabels <==> AllRowsNA(col, isNA)
  {
    var vs := RowValues(col, isNA);
    if !AllRowsNA(col, isNA) {
      var i :| 0 <= i < |vs| && vs[i] != None;
      FirstSeenHas(vs, i);
    } else if |FirstSeen(vs)| != 0 {
      var i := FirstSeenWitness(vs, FirstSeen(vs)[0]);
    }
  }

  /**
   * Row fidelity and the round trip through the labels table: row `i` gets the
   * NA code exactly when it is NA; otherwise its code is a valid index into
   * both label columns, `id` holds the code itself and `label` holds the row's
   * value.
   */
  lemma EncodeImplRoundTrip<T>(col: Column<T>, isNA: T -> bool, i: nat)
    requires WellFormed(col) && EncodeImplSpec(col, isNA).ValueLabels?
    requires i < |col.rowindex|
    ensures var r := EncodeImplSpec(col, isNA);
      && |r.codes| == |col.rowindex|
      && |r.labels.ids| == |r.labels.values|
      && (r.codes[i] == NA <==> RowIsNA(col, isNA, i))
      && (r.codes[i].Id? ==>
            && r.codes[i].code < |r.labels.values|
            && r.labels.ids[r.codes[i].code] == r.codes[i].code
            && r.labels.values[r.codes[i].code] == col.data[col.rowindex[i]])
  {
  }

  /** Two non-NA rows share a code exactly when they hold the same value. */
  lemma EncodeImplInjective<T>(col: Column<T>, isNA: T -> bool, i: nat, j: nat)
    requires WellFormed(col) && EncodeImplSpec(col, isNA).ValueLabels?
    requires i < |col.rowindex| && j < |col.rowindex|
    requires !RowIsNA(col, isNA, i) && !RowIsNA(col, isNA, j)
    ensures var r := EncodeImplSpec(col, isNA);
      r.codes[i] == r.codes[j] <==> col.data[col.rowindex[i]] == col.data[col.rowindex[j]]
  {
    var vs := RowValues(col, isNA);
    FirstSeenHas(vs, i);
    FirstSeenHas(vs, j);
    assert vs[i].value == col.data[col.rowindex[i]];
    assert vs[j].value == col.data[col.rowindex[j]];
  }

  /**
   * Density: the codes the rows receive are exactly 0 .. n-1, the labels table
   * has n entries without repetition, and n is the number of distinct non-NA
   * values in the column.
   */
  lemma EncodeImplDense<T>(col: Column<T>, isNA: T -> bool)
    requires WellFormed(col) && EncodeImplSpec(col, isNA).ValueLabels?
    ensures |EncodeImplSpec(col, isNA).labels.values| == |SeenValues(RowValues(col, isNA))|
    ensures Distinct(EncodeImplSpec(col, isNA).labels.values)
    ensures var r := EncodeImplSpec(col, isNA);
      forall i :: 0 <= i < |r.codes| && r.codes[i].Id? ==> r.codes[i].code < |r.labels.values|
    ensures var r := EncodeImplSpec(col, isNA);
      forall k :: 0 <= k < |r.labels.values| ==> Id(k) in r.codes
  {
    var vs := RowValues(col, isNA);
    var order := FirstSeen(vs);
    FirstSeenCount(vs);
    FirstSeenDistinct(vs);
    var codes := CodesOf(vs);
    assert EncodeImplSpec(col, isNA) == ValueLabels(Labels(Iota(|order|), order), codes);
    forall i | 0 <= i < |codes| && codes[i].Id? ensures codes[i].code < |order| {
    }
    forall k | 0 <= k < |order| ensures Id(k) in codes {
      var i := FirstSeenWitness(vs, order[k]);
      IndexOfDistinct(order, k);
      assert codes[i] == Id(k);
    }
  }

  /**
   * Codes follow first-seen order when the rows are processed 0 .. n-1: the
   * first row holding a value gets the number of distinct values met before
   * it, so a value first met earlier has a smaller code.
   */
  lemma EncodeImplFirstSeenOrder<T>(col: Column<T>, isNA: T -> bool, i: nat, j: nat)
    requires WellFormed(col) && EncodeImplSpec(col, isNA).ValueLabels?
    requires i < j < |col.rowindex|
    requires !RowIsNA(col, isNA, i) && !RowIsNA(col, isNA, j)
    requires forall i' :: 0 <= i' < i ==> RowValue(col, isNA, i') != RowValue(col, isNA, i)
    requires forall j' :: 0 <= j' < j ==> RowValue(col, isNA, j') != RowValue(col, isNA, j)
    ensures var r := EncodeImplSpec(col, isNA);
      && r.codes[i] == Id(|FirstSeen(RowValues(col, isNA)[..i])|)
      && r.codes[i].code < r.codes[j].code
  {
    var vs := RowValues(col, isNA);
    assert vs[i] !in vs[..i];
    assert vs[j] !in vs[..j];
    FirstOccurrenceCode(vs, i);
    FirstSeenOrder(vs, i, j);
  }

  /** As written, a string column always comes back with no tables (line 138 tests `labels_map`). */
  lemma StringColumnsEncodeEmpty<T>(col: Column<T>, isNA: T -> bool)
    requires WellFormed(col) && IsString(col.stype)
    ensures EncodeSpec(col, isNA) == Success(NoLabels)
  {
  }

  /**
   * The boolean path and the generic path agree on when there is nothing to
   * encode; when there is, the boolean path lists both values whether or not
   * both occur.
   */
  lemma BoolAndGenericAgreeOnEmptiness<T>(col: Column<T>, isNA: T -> bool)
    requires WellFormed(col) && !IsString(col.stype)
    ensures EncodeBoolSpec(col, isNA) == NoLabels <==> EncodeImplSpec(col, isNA) == NoLabels
    ensures EncodeBoolSpec(col, isNA) != NoLabels ==>
      EncodeBoolSpec(col, isNA) == BoolLabels(Labels([0, 1], [false, true]), col)
  {
    EncodeImplEmptyIffAllNA(col, isNA);
  }

  /**
   * On a column that is not a view (row `i` is slot `i` of the buffer), the
   * scan of lines 169-175 as written and the scan through the row index agree,
   * and so `encode` as written and `Encode` agree on boolean columns.
   */
  lemma BoolScansAgreeOnPlainColumns<T>(col: Column<T>, isNA: T -> bool)
    requires |col.rowindex| == |col.data|
    requires forall i :: 0 <= i < |col.rowindex| ==> col.rowindex[i] == i
    ensures WellFormed(col)
    ensures EncodeBoolAsWrittenSpec(col, isNA) == EncodeBoolSpec(col, isNA)
    ensures col.stype == BOOL ==> EncodeSpec(col, isNA) == Success(EncodeBoolAsWrittenSpec(col, isNA))
  {
    forall i | 0 <= i < |col.rowindex| ensures RowValue(col, isNA, i) == None <==> isNA(col.data[i]) {
    }
  }

  /** `encode` fails exactly for the unsupported storage types, naming the type (lines 40-41). */
  lemma EncodeFailsOnlyForUnsupported<T>(col: Column<T>, isNA: T -> bool)
    requires WellFormed(col)
    ensures EncodeSpec(col, isNA).Failure? <==> col.stype.OtherSType?
    ensures EncodeSpec(col, isNA).Failure? ==> EncodeSpec(col, isNA).error == UnsupportedType(col.stype)
    ensures col.stype == BOOL ==> EncodeSpec(col, isNA) == Success(EncodeBoolSpec(col, isNA))
    ensures !col.stype.OtherSType? && col.stype != BOOL ==>
      EncodeSpec(col, isNA) == Success(EncodeImplSpec(col, isNA))
  {
  }
}
