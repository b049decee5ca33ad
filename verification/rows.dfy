/**
 * Columns seen through their row index, and the specification of a sequential
 * scan over the rows: which distinct values it meets, in which order, and the
 * code each row receives (c/models/encode.cc:108-133 read as a plain loop).
 */
module Rows {
  import opened Wrappers
  import opened STypes

  /** `RowIndex::NA`: the row index entry that stands for "no physical row". */
  const RowIndexNA: int := -1

  /**
   * A column: its storage type, the row index that maps each logical row to a
   * physical slot (the identity for a column that is not a view), and the
   * physical elements. `nrows` is the length of the row index.
   */
  datatype Column<T> = Column(stype: SType, rowindex: seq<int>, data: seq<T>)

  /** The code written for one row: the int32 NA code, or a label id. */
  datatype Code = NA | Id(code: nat)

  /** Every row index entry is either the NA marker or a physical slot that exists. */
  predicate WellFormed<T>(col: Column<T>) {
    forall i :: 0 <= i < |col.rowindex| ==>
      col.rowindex[i] == RowIndexNA || 0 <= col.rowindex[i] < |col.data|
  }

  /** The value of logical row `i`, or None when the row is NA through the row index or by its own value. */
  function RowValue<T>(col: Column<T>, isNA: T -> bool, i: nat): Option<T>
    requires WellFormed(col) && i < |col.rowindex|
  {
    var j := col.rowindex[i];
    if j == RowIndexNA || isNA(col.data[j]) then None else Some(col.data[j])
  }

  /** The values of all logical rows, in row order. */
  function RowValues<T>(col: Column<T>, isNA: T -> bool): (vs: seq<Option<T>>)
    requires WellFormed(col)
    ensures |vs| == |col.rowindex|
    ensures forall i :: 0 <= i < |vs| ==> vs[i] == RowValue(col, isNA, i)
  {
    seq(|col.rowindex|, i requires 0 <= i < |col.rowindex| => RowValue(col, isNA, i))
  }

  predicate Distinct<T(==)>(s: seq<T>) {
    forall i, j :: 0 <= i < j < |s| ==> s[i] != s[j]
  }

  /** The distinct non-NA values of `vs`, each listed where it first occurs. */
  function FirstSeen<T(==)>(vs: seq<Option<T>>): seq<T>
    decreases |vs|
  {
    if vs == [] then []
    else
      var before := FirstSeen(vs[..|vs| - 1]);
      match vs[|vs| - 1]
      case None => before
      case Some(v) => if v in before then before else before + [v]
  }

  /** The elements of a sequence, as a set. */
  function Elements<T>(s: seq<T>): (r: set<T>)
    ensures forall x :: x in s ==> x in r
    ensures forall x :: x in r ==> x in s
  {
    set x | x in s
  }

  /** The set of non-NA values among `vs`. */
  function SeenValues<T>(vs: seq<Option<T>>): set<T> {
    set i | 0 <= i < |vs| && vs[i].Some? :: vs[i].value
  }

  /** The position of the first occurrence of `v` in `s`. */
  function IndexOf<T(==)>(s: seq<T>, v: T): (k: nat)
    requires v in s
    ensures k < |s| && s[k] == v
    ensures v !in s[..k]
  {
    if s[0] == v then 0
    else
      var k := 1 + IndexOf(s[1..], v);
      assert s[..k] == [s[0]] + s[1..][..k - 1];
      k
  }

  /** The code a sequential scan gives row `i`: NA, or the first-seen position of the row's value. */
  function CodeAt<T(==)>(vs: seq<Option<T>>, i: nat): Code
    requires i < |vs|
  {
    match vs[i]
    case None => NA
    case Some(v) =>
      FirstSeenHas(vs, i);
      Id(IndexOf(FirstSeen(vs), v))
  }

  /** The codes of all rows, in row order. */
  function CodesOf<T(==)>(vs: seq<Option<T>>): (codes: seq<Code>)
    ensures |codes| == |vs|
    ensures forall i :: 0 <= i < |vs| ==> codes[i] == CodeAt(vs, i)
  {
    seq(|vs|, i requires 0 <= i < |vs| => CodeAt(vs, i))
  }

  /** `FirstSeen` of a one-row extension. */
  lemma FirstSeenSnoc<T>(vs: seq<Option<T>>, x: Option<T>)
    ensures FirstSeen(vs + [x]) ==
      match x
      case None => FirstSeen(vs)
      case Some(v) => if v in FirstSeen(vs) then FirstSeen(vs) else FirstSeen(vs) + [v]
  {
    assert (vs + [x])[..|vs + [x]| - 1] == vs;
  }

  /** A value is listed exactly when some row carries it. */
  lemma {:induction false} FirstSeenMembers<T>(vs: seq<Option<T>>)
    ensures forall v :: v in FirstSeen(vs) <==> Some(v) in vs
    decreases |vs|
  {
    if vs != [] {
      var init := vs[..|vs| - 1];
      FirstSeenMembers(init);
      assert vs == init + [vs[|vs| - 1]];
      forall v ensures Some(v) in vs <==> Some(v) in init || vs[|vs| - 1] == Some(v) {
      }
    }
  }

  /** A listed value comes from a row: the lemma returns one that holds it. */
  lemma {:induction false} FirstSeenWitness<T>(vs: seq<Option<T>>, v: T) returns (i: nat)
    requires v in FirstSeen(vs)
    ensures i < |vs| && vs[i] == Some(v)
    decreases |vs|
  {
    var init := vs[..|vs| - 1];
    if v in FirstSeen(init) {
      i := FirstSeenWitness(init, v);
    } else {
      i := |vs| - 1;
    }
  }

  /** The value of every non-NA row is listed. */
  lemma {:induction false} FirstSeenHas<T>(vs: seq<Option<T>>, i: nat)
    requires i < |vs| && vs[i].Some?
    ensures vs[i].value in FirstSeen(vs)
    decreases |vs|
  {
    if i < |vs| - 1 {
      FirstSeenHas(vs[..|vs| - 1], i);
    }
  }

  /** No value is listed twice. */
  lemma {:induction false} FirstSeenDistinct<T>(vs: seq<Option<T>>)
    ensures Distinct(FirstSeen(vs))
    decreases |vs|
  {
    if vs != [] {
      FirstSeenDistinct(vs[..|vs| - 1]);
    }
  }

  /** Scanning more rows only appends to the list. */
  lemma {:induction false} FirstSeenPrefix<T>(vs: seq<Option<T>>, n: nat)
    requires n <= |vs|
    ensures FirstSeen(vs[..n]) <= FirstSeen(vs)
    decreases |vs| - n
  {
    if n < |vs| {
      FirstSeenPrefix(vs, n + 1);
      assert vs[..n + 1][..n] == vs[..n];
      FirstSeenSnoc(vs[..n], vs[n]);
      assert vs[..n + 1] == vs[..n] + [vs[n]];
    } else {
      assert vs[..n] == vs;
    }
  }

  /** The number of listed values is the number of distinct non-NA values. */
  lemma FirstSeenCount<T>(vs: seq<Option<T>>)
    ensures |FirstSeen(vs)| == |SeenValues(vs)|
  {
    var fs := FirstSeen(vs);
    FirstSeenMembers(vs);
    FirstSeenDistinct(vs);
    assert SeenValues(vs) == Elements(fs) by {
      forall v | v in SeenValues(vs) ensures v in fs {
        var i :| 0 <= i < |vs| && vs[i].Some? && vs[i].value == v;
        FirstSeenHas(vs, i);
      }
      forall v | v in fs ensures v in SeenValues(vs) {
        var i := FirstSeenWitness(vs, v);
        assert vs[i].Some? && vs[i].value == v;
      }
    }
    DistinctCard(fs);
  }

  /** A sequence without repetitions has as many elements as its set. */
  lemma {:induction false} DistinctCard<T>(s: seq<T>)
    requires Distinct(s)
    ensures |Elements(s)| == |s|
  {
    if s != [] {
      var init := s[..|s| - 1];
      var last := s[|s| - 1];
      assert s == init + [last];
      assert Distinct(init);
      DistinctCard(init);
      assert last !in init;
      assert Elements(s) == Elements(init) + {last};
    }
  }

  /** In a sequence without repetitions, the position of an element is its only position. */
  lemma IndexOfDistinct<T>(s: seq<T>, k: nat)
    requires Distinct(s) && k < |s|
    ensures IndexOf(s, s[k]) == k
  {
    var k' := IndexOf(s, s[k]);
    assert s[k'] == s[k];
  }

  /**
   * The first row carrying a value gets, as its code, the number of distinct
   * values met in the rows before it.
   */
  lemma FirstOccurrenceCode<T>(vs: seq<Option<T>>, j: nat)
    requires j < |vs| && vs[j].Some? && vs[j] !in vs[..j]
    ensures CodeAt(vs, j) == Id(|FirstSeen(vs[..j])|)
  {
    var v := vs[j].value;
    FirstSeenMembers(vs[..j]);
    FirstSeenSnoc(vs[..j], vs[j]);
    assert vs[..j + 1] == vs[..j] + [vs[j]];
    FirstSeenPrefix(vs, j + 1);
    FirstSeenDistinct(vs);
    var k := |FirstSeen(vs[..j])|;
    assert FirstSeen(vs[..j + 1])[k] == v;
    IndexOfDistinct(FirstSeen(vs), k);
  }

  /** Codes follow first-seen order: a value first met in an earlier row has a smaller code. */
  lemma FirstSeenOrder<T>(vs: seq<Option<T>>, i: nat, j: nat)
    requires i < j < |vs|
    requires vs[i].Some? && vs[i] !in vs[..i]
    requires vs[j].Some? && vs[j] !in vs[..j]
    ensures CodeAt(vs, i).code < CodeAt(vs, j).code
  {
    FirstOccurrenceCode(vs, i);
    FirstOccurrenceCode(vs, j);
    FirstSeenMembers(vs[..i]);
    FirstSeenSnoc(vs[..i], vs[i]);
    assert vs[..i + 1] == vs[..i] + [vs[i]];
    assert vs[..j][..i + 1] == vs[..i + 1];
    FirstSeenPrefix(vs[..j], i + 1);
  }

  /**
   * Processing the same rows in another order (the race order of a parallel
   * scan) lists the same values, just as many of them; only their positions,
   * and so the codes, may differ.
   */
  lemma ArrivalOrderKeepsValues<T>(vs: seq<Option<T>>, ws: seq<Option<T>>)
    requires multiset(vs) == multiset(ws)
    ensures forall v :: v in FirstSeen(vs) <==> v in FirstSeen(ws)
    ensures |FirstSeen(vs)| == |FirstSeen(ws)|
  {
    FirstSeenMembers(vs);
    FirstSeenMembers(ws);
    forall v ensures Some(v) in vs <==> Some(v) in ws {
      assert Some(v) in vs <==> Some(v) in multiset(vs);
      assert Some(v) in ws <==> Some(v) in multiset(ws);
    }
    FirstSeenDistinct(vs);
    FirstSeenDistinct(ws);
    assert Elements(FirstSeen(vs)) == Elements(FirstSeen(ws)) by {
      forall v ensures v in FirstSeen(vs) <==> v in FirstSeen(ws) {
        assert Some(v) in vs <==> Some(v) in ws;
      }
    }
    DistinctCard(FirstSeen(vs));
    DistinctCard(FirstSeen(ws));
  }
}
