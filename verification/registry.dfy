/**
 * The value-to-code map `labels_map` of `encode_impl` and its get-or-insert step
 * (c/models/encode.cc:118-132). Under the lock protocol a caller probes the map
 * in shared mode and, on a miss, upgrades to exclusive mode, probes again and
 * only then inserts; read sequentially, the whole step is one atomic
 * `GetOrInsert`.
 */
module Registry {

  /**
   * `order` lists the keys of `codes` by code: the key with code k sits at
   * position k. This says at once that the codes are 0 .. |codes|-1, that
   * distinct keys have distinct codes, and that `order` is the inverse map.
   */
  ghost predicate Enumerates<T>(codes: map<T, nat>, order: seq<T>) {
    && |codes| == |order|
    && (forall k :: 0 <= k < |order| ==> order[k] in codes && codes[order[k]] == k)
    && (forall v :: v in codes ==> codes[v] < |order| && order[codes[v]] == v)
  }

  /** The listing holds exactly the keys of the map. */
  lemma EnumeratedMembers<T>(codes: map<T, nat>, order: seq<T>)
    requires Enumerates(codes, order)
    ensures forall v :: v in codes <==> v in order
  {
    forall v | v in order ensures v in codes {
      var k :| 0 <= k < |order| && order[k] == v;
    }
  }

  /** The map is injective: distinct values never share a code. */
  lemma EnumeratedCodesInjective<T>(codes: map<T, nat>, order: seq<T>, a: T, b: T)
    requires Enumerates(codes, order)
    requires a in codes && b in codes
    ensures codes[a] == codes[b] <==> a == b
  {
    if codes[a] == codes[b] {
      assert a == order[codes[a]];
    }
  }

  /** The codes in use are exactly 0 .. |codes|-1. */
  lemma EnumeratedCodesDense<T>(codes: map<T, nat>, order: seq<T>)
    requires Enumerates(codes, order)
    ensures forall c :: c in codes.Values ==> c < |codes|
    ensures forall k :: 0 <= k < |codes| ==> k in codes.Values
  {
    forall k | 0 <= k < |codes| ensures k in codes.Values {
      assert codes[order[k]] == k;
    }
  }

  /**
   * The exclusive section (lines 122-131): probe again; if another caller has
   * inserted `v` meanwhile, use its code, otherwise insert `v` with the size
   * the map has before the insertion. Returns the new map and the code.
   */
  function ExclusiveSection<T>(codes: map<T, nat>, v: T): (r: (map<T, nat>, nat))
    ensures r.0.Keys == codes.Keys + {v}
    ensures v in r.0 && r.0[v] == r.1
    ensures forall w :: w in codes ==> r.0[w] == codes[w]
    ensures v !in codes ==> r.1 == |codes|
  {
    if v in codes then (codes, codes[v])
    else (codes[v := |codes|], |codes|)
  }

  /**
   * Whatever other callers inserted between this caller's shared probe and its
   * exclusive section, the section keeps the map enumerated, gives `v` a code,
   * grows the map by at most one entry and changes no existing code; when `v`
   * is already there it changes nothing at all, so no value is inserted twice.
   */
  lemma ExclusiveSectionSound<T>(codes: map<T, nat>, order: seq<T>, v: T)
    requires Enumerates(codes, order)
    ensures var (codes', code) := ExclusiveSection(codes, v);
      && v in codes' && codes'[v] == code
      && Enumerates(codes', if v in codes then order else order + [v])
      && (v in codes ==> codes' == codes)
      && (v !in codes ==> code == |codes| && |codes'| == |codes| + 1)
      && (forall w :: w in codes ==> w in codes' && codes'[w] == codes[w])
  {
    if v !in codes {
      var order' := order + [v];
      var codes' := codes[v := |codes|];
      forall k | 0 <= k < |order'| ensures order'[k] in codes' && codes'[order'[k]] == k {
        if k < |order| {
          assert order'[k] == order[k] != v;
        }
      }
    }
  }

  /**
   * Without the re-probe, inserting a value that another caller inserted
   * meanwhile would overwrite its code with the map's size, a code outside
   * 0 .. size-1: no listing `order'` of the keys enumerates the result.
   */
  lemma BlindInsertBreaksDensity<T>(codes: map<T, nat>, order: seq<T>, v: T, order': seq<T>)
    requires Enumerates(codes, order) && v in codes
    ensures !Enumerates(codes[v := |codes|], order')
  {
    var blind := codes[v := |codes|];
    assert blind.Keys == codes.Keys;
    assert |blind| == |codes|;
  }

  /** `labels_map`, with the insertion history kept as a ghost listing by code. */
  class LabelRegistry<T(==)> {
    var codes: map<T, nat>
    ghost var order: seq<T>

    ghost predicate Valid()
      reads this
    {
      Enumerates(codes, order)
    }

    constructor ()
      ensures Valid() && codes == map[] && order == []
    {
      codes := map[];
      order := [];
    }

    /** `labels_map.size()`: the number of distinct values registered so far. */
    function Size(): (n: nat)
      reads this
      requires Valid()
      ensures n == |order|
    {
      |codes|
    }

    /**
     * Shared-mode probe (lines 119-120); on a miss, the exclusive section with
     * its re-probe (lines 122-131). A known value keeps its code and leaves the
     * map as it is; a new value gets the size before insertion as its code and
     * grows the map by one.
     */
    method GetOrInsert(v: T) returns (code: nat)
      requires Valid()
      modifies this
      ensures Valid()
      ensures v in codes && codes[v] == code
      ensures v in old(codes) ==> codes == old(codes) && order == old(order) && code == old(codes)[v]
      ensures v !in old(codes) ==>
        && code == old(Size())
        && codes == old(codes)[v := code]
        && order == old(order) + [v]
    {
      if v in codes {
        code := codes[v];
      } else {
        ExclusiveSectionSound(codes, order, v);
        var section := ExclusiveSection(codes, v);
        codes, code := section.0, section.1;
        order := order + [v];
      }
    }
  }
}
