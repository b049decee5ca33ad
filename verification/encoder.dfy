/**
 * The label encoder of c/models/encode.cc: `encode` (type dispatch),
 * `encode_impl` (one pass over the rows through the registry), `create_dt_labels`
 * (the labels table, indexed by code) and `encode_bool` (the fixed boolean path).
 */
module Encoder {
  import opened Wrappers
  import opened STypes
  import opened Rows
  import opened Registry

  /** A labels table: the `id` column and the `label` column, both indexed by code. */
  datatype Labels<L> = Labels(ids: seq<int>, values: seq<L>)

  /** `EncodedLabels`: the pair of tables `encode` returns. */
  datatype EncodedLabels<T> =
    | NoLabels                                              // {nullptr, nullptr}
    | ValueLabels(labels: Labels<T>, codes: seq<Code>)      // from encode_impl
    | BoolLabels(table: Labels<bool>, column: Column<T>)    // from encode_bool: the input column reused

  /** 0, 1, ..., n-1. */
  function Iota(n: nat): (r: seq<int>)
    ensures |r| == n && forall k :: 0 <= k < n ==> r[k] == k
  {
    seq(n, k => k)
  }

  // ---------------------------------------------------------------------------
  // encode_impl

  /** What `encode_impl` returns, stated on the rows as a sequential scan sees them. */
  function EncodeImplSpec<T(==)>(col: Column<T>, isNA: T -> bool): EncodedLabels<T>
    requires WellFormed(col)
  {
    if IsString(col.stype) then NoLabels
    else
      var vs := RowValues(col, isNA);
      var order := FirstSeen(vs);
      if |order| == 0 then NoLabels
      else ValueLabels(Labels(Iota(|order|), order), CodesOf(vs))
  }

  /** The code a row holds once the registry `codes` has seen it. */
  function CodeIn<T>(codes: map<T, nat>, x: Option<T>): Code {
    match x
    case None => NA
    case Some(v) => if v in codes then Id(codes[v]) else NA
  }

  /** One more row: the registry's listing grows exactly as `FirstSeen` does. */
  lemma ScanStep<T>(vs: seq<Option<T>>, i: nat, codes: map<T, nat>, order: seq<T>)
    requires i < |vs| && Enumerates(codes, order) && order == FirstSeen(vs[..i])
    ensures FirstSeen(vs[..i + 1]) ==
      match vs[i]
      case None => order
      case Some(v) => if v in codes then order else order + [v]
  {
    EnumeratedMembers(codes, order);
    FirstSeenSnoc(vs[..i], vs[i]);
    assert vs[..i + 1] == vs[..i] + [vs[i]];
  }

  /** After all rows, the registry's codes are the first-seen positions. */
  lemma ScanResult<T>(vs: seq<Option<T>>, codes: map<T, nat>, order: seq<T>)
    requires Enumerates(codes, order) && order == FirstSeen(vs)
    ensures forall j :: 0 <= j < |vs| ==> CodeIn(codes, vs[j]) == CodeAt(vs, j)
  {
    FirstSeenDistinct(vs);
    forall j | 0 <= j < |vs| ensures CodeIn(codes, vs[j]) == CodeAt(vs, j) {
      if vs[j].Some? {
        FirstSeenHas(vs, j);
        EnumeratedMembers(codes, order);
        IndexOfDistinct(order, codes[vs[j].value]);
      }
    }
  }

  /**
   * The loop's state after rows 0 .. i-1: the registry lists the first-seen
   * values of those rows, each of their values has a code, and each of them
   * holds its value's code.
   */
  ghost predicate Scanned<T>(vs: seq<Option<T>>, i: nat, codes: map<T, nat>, order: seq<T>, out: seq<Code>)
  {
    && i <= |vs| == |out|
    && Enumerates(codes, order)
    && order == FirstSeen(vs[..i])
    && (forall j :: 0 <= j < i && vs[j].Some? ==> vs[j].value in codes)
    && (forall j :: 0 <= j < i ==> out[j] == CodeIn(codes, vs[j]))
  }

  /** How one row read as `x` moves the registry: an NA row or a known value leaves it alone, a new value is appended. */
  ghost predicate RowStep<T>(x: Option<T>, codes: map<T, nat>, order: seq<T>, codes': map<T, nat>, order': seq<T>)
  {
    match x
    case None => codes' == codes && order' == order
    case Some(v) =>
      if v in codes then codes' == codes && order' == order
      else codes' == codes[v := |order|] && order' == order + [v]
  }

  /** One row keeps the loop's state. */
  lemma ScannedStep<T>(vs: seq<Option<T>>, i: nat, codes: map<T, nat>, order: seq<T>, out: seq<Code>,
                       codes': map<T, nat>, order': seq<T>, out': seq<Code>)
    requires i < |vs| && Scanned(vs, i, codes, order, out)
    requires Enumerates(codes', order')
    requires RowStep(vs[i], codes, order, codes', order')
    requires out' == out[i := CodeIn(codes', vs[i])]
    ensures Scanned(vs, i + 1, codes', order', out')
  {
    ScanStep(vs, i, codes, order);
    forall j | 0 <= j < i + 1 && vs[j].Some? ensures vs[j].value in codes' {
    }
    forall j | 0 <= j < i + 1 ensures out'[j] == CodeIn(codes', vs[j]) {
      if j < i {
        assert out'[j] == out[j];
      }
    }
  }

  /** After every row, the registry lists the first-seen values and each row holds its first-seen code. */
  lemma ScannedAll<T>(vs: seq<Option<T>>, codes: map<T, nat>, order: seq<T>, out: seq<Code>)
    requires Scanned(vs, |vs|, codes, order, out)
    ensures order == FirstSeen(vs)
    ensures forall j :: 0 <= j < |vs| ==> out[j] == CodeAt(vs, j)
  {
    assert vs[..|vs|] == vs;
    ScanResult(vs, codes, order);
  }

  /**
   * The per-row body of the loop (lines 109-132): resolve row `irow` through
   * the row index; an NA row gets the NA code and leaves the registry alone,
   * any other row gets its value's code from `GetOrInsert`.
   */
  method EncodeRow<T(==)>(col: Column<T>, isNA: T -> bool, reg: LabelRegistry<T>, outdata: array<Code>, irow: nat)
    requires WellFormed(col)
    requires reg.Valid()
    requires irow < outdata.Length == |col.rowindex|
    modifies reg, outdata
    ensures reg.Valid()
    ensures RowStep(RowValue(col, isNA, irow), old(reg.codes), old(reg.order), reg.codes, reg.order)
    ensures outdata[..] == old(outdata[..])[irow := CodeIn(reg.codes, RowValue(col, isNA, irow))]
  {
    var jrow := col.rowindex[irow];
    if jrow == RowIndexNA || isNA(col.data[jrow]) {
      outdata[irow] := NA;
    } else {
      var code := reg.GetOrInsert(col.data[jrow]);
      outdata[irow] := Id(code);
    }
  }

  /**
   * The row loop (lines 66-103 and 108-133), the parallel loop read as a
   * sequential loop over rows 0 .. nrows-1.
   */
  method ScanRows<T(==)>(col: Column<T>, isNA: T -> bool, reg: LabelRegistry<T>, outdata: array<Code>)
    requires WellFormed(col)
    requires reg.Valid() && reg.order == []
    requires outdata.Length == |col.rowindex|
    modifies reg, outdata
    ensures reg.Valid()
    ensures reg.order == FirstSeen(RowValues(col, isNA))
    ensures forall j :: 0 <= j < outdata.Length ==> outdata[j] == CodeAt(RowValues(col, isNA), j)
    ensures forall j :: 0 <= j < outdata.Length ==> outdata[j] == CodeIn(reg.codes, RowValues(col, isNA)[j])
  {
    ghost var vs := RowValues(col, isNA);
    var nrows := |col.rowindex|;
    assert vs[..0] == [];
    for irow := 0 to nrows
      invariant reg.Valid()
      invariant Scanned(vs, irow, reg.codes, reg.order, outdata[..])
    {
      ghost var codes, order, out := reg.codes, reg.order, outdata[..];
      EncodeRow(col, isNA, reg, outdata, irow);
      ScannedStep(vs, irow, codes, order, out, reg.codes, reg.order, outdata[..]);
    }
    ScannedAll(vs, reg.codes, reg.order, outdata[..]);
  }

  /**
   * `create_dt_labels` (lines 147-161): one pass over the map, in whatever
   * order it yields its entries, placing each value at its code. Both arrays
   * have `map.size()` entries, `ids[k] == k`, and `labels[k]` is the value whose
   * code is k.
   */
  method CreateLabels<T(==,0)>(reg: LabelRegistry<T>) returns (ids: array<int>, labels: array<T>)
    requires reg.Valid()
    ensures fresh(ids) && fresh(labels)
    ensures ids.Length == labels.Length == reg.Size()
    ensures forall k :: 0 <= k < ids.Length ==>
      ids[k] == k && labels[k] in reg.codes && reg.codes[labels[k]] == k
    ensures labels[..] == reg.order
  {
    var nlabels := |reg.codes|;
    ids := new int[nlabels];
    labels := new T[nlabels];
    var pending := reg.codes.Keys;
    while pending != {}
      invariant pending <= reg.codes.Keys
      invariant forall k :: 0 <= k < nlabels && reg.order[k] !in pending ==>
        ids[k] == k && labels[k] == reg.order[k]
      decreases pending
    {
      var v :| v in pending;
      var code := reg.codes[v];
      labels[code] := v;
      ids[code] := code;
      pending := pending - {v};
    }
  }

  /**
   * `encode_impl` (lines 47-144). String columns fill `labels_map_str` while
   * the emptiness test and the labels table read `labels_map`, so a string
   * column comes back with no tables; other columns come back empty exactly
   * when every row is NA.
   */
  method EncodeImpl<T(==,0)>(col: Column<T>, isNA: T -> bool) returns (res: EncodedLabels<T>)
    requires WellFormed(col)
    ensures res == EncodeImplSpec(col, isNA)
  {
    var nrows := |col.rowindex|;
    var outdata := new Code[nrows];
    var labelsMap := new LabelRegistry<T>();
    var labelsMapStr := new LabelRegistry<T>();
    if IsString(col.stype) {
      ScanRows(col, isNA, labelsMapStr, outdata);
    } else {
      ScanRows(col, isNA, labelsMap, outdata);
    }
    if labelsMap.Size() == 0 {
      return NoLabels;
    }
    var ids, labels := CreateLabels(labelsMap);
    assert ids[..] == Iota(ids.Length);
    assert outdata[..] == CodesOf(RowValues(col, isNA));
    res := ValueLabels(Labels(ids[..], labels[..]), outdata[..]);
  }

  // ---------------------------------------------------------------------------
  // encode_bool

  /** The fixed labels table of the boolean path: ids [0, 1], labels [false, true]. */
  function BoolTable(): (t: Labels<bool>)
    ensures t.ids == Iota(2)
  {
    Labels([0, 1], [false, true])
  }

  /** Every logical row is NA, through the row index or by its own value. */
  predicate AllRowsNA<T>(col: Column<T>, isNA: T -> bool)
    requires WellFormed(col)
  {
    forall i :: 0 <= i < |col.rowindex| ==> RowValue(col, isNA, i) == None
  }

  /** What `encode_bool` returns once the all-NA scan reads the rows through the row index. */
  function EncodeBoolSpec<T>(col: Column<T>, isNA: T -> bool): EncodedLabels<T>
    requires WellFormed(col)
  {
    if AllRowsNA(col, isNA) then NoLabels else BoolLabels(BoolTable(), col)
  }

  /** The first `n` slots of the physical buffer are NA: what the scan of lines 169-175 tests. */
  predicate BufferPrefixNA<T>(data: seq<T>, isNA: T -> bool, n: nat)
    requires n <= |data|
  {
    forall i :: 0 <= i < n ==> isNA(data[i])
  }

  /** What `encode_bool` returns as written: the scan reads `data[i]` for `i < nrows`, bypassing the row index. */
  function EncodeBoolAsWrittenSpec<T>(col: Column<T>, isNA: T -> bool): EncodedLabels<T>
    requires |col.rowindex| <= |col.data|
  {
    if BufferPrefixNA(col.data, isNA, |col.rowindex|) then NoLabels else BoolLabels(BoolTable(), col)
  }

  /**
   * `encode_bool` as written (lines 164-192): scan the raw buffer for a non-NA
   * element, stopping at the first one; if none is found return no tables,
   * otherwise the fixed two-entry labels table and the input column as the codes.
   */
  method EncodeBoolAsWritten<T>(col: Column<T>, isNA: T -> bool) returns (res: EncodedLabels<T>)
    requires |col.rowindex| <= |col.data|
    ensures res == EncodeBoolAsWrittenSpec(col, isNA)
  {
    var nasOnly := true;
    var i := 0;
    while i < |col.rowindex|
      invariant 0 <= i <= |col.rowindex|
      invariant nasOnly && BufferPrefixNA(col.data, isNA, i)
    {
      if !isNA(col.data[i]) {
        nasOnly := false;
        break;
      }
      i := i + 1;
    }
    if nasOnly {
      return NoLabels;
    }
    res := BoolLabels(BoolTable(), col);
  }

  /**
   * `encode_bool` with the scan reading each logical row through the row
   * index, as `encode_impl` does; otherwise the same as the source.
   */
  method EncodeBool<T>(col: Column<T>, isNA: T -> bool) returns (res: EncodedLabels<T>)
    requires WellFormed(col)
    ensures res == EncodeBoolSpec(col, isNA)
  {
    var nasOnly := true;
    var i := 0;
    while i < |col.rowindex|
      invariant 0 <= i <= |col.rowindex|
      invariant nasOnly && forall j :: 0 <= j < i ==> RowValue(col, isNA, j) == None
    {
      var jrow := col.rowindex[i];
      if jrow != RowIndexNA && !isNA(col.data[jrow]) {
        assert RowValue(col, isNA, i) != None;
        nasOnly := false;
        break;
      }
      i := i + 1;
    }
    if nasOnly {
      return NoLabels;
    }
    res := BoolLabels(BoolTable(), col);
  }

  // ---------------------------------------------------------------------------
  // encode

  /** What `encode` returns: the chosen encoder's result, or the TypeError. */
  function EncodeSpec<T(==)>(col: Column<T>, isNA: T -> bool): Result<EncodedLabels<T>, TypeError>
    requires WellFormed(col)
  {
    match Route(col.stype)
    case Failure(e) => Failure(e)
    case Success(BoolPath) => Success(EncodeBoolSpec(col, isNA))
    case Success(GenericPath) => Success(EncodeImplSpec(col, isNA))
  }

  /** `encode` (lines 27-44): dispatch on the storage type. */
  method Encode<T(==,0)>(col: Column<T>, isNA: T -> bool) returns (r: Result<EncodedLabels<T>, TypeError>)
    requires WellFormed(col)
    ensures r == EncodeSpec(col, isNA)
  {
    match Route(col.stype)
    case Failure(e) =>
      r := Failure(e);
    case Success(BoolPath) =>
      var res := EncodeBool(col, isNA);
      r := Success(res);
    case Success(GenericPath) =>
      var res := EncodeImpl(col, isNA);
      r := Success(res);
  }
}
