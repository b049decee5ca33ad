/**
 * Storage types of a column, and the switch of `encode` (c/models/encode.cc:27-44)
 * that decides which encoder a column goes to.
 */
module STypes {
  import opened Wrappers

  /** The column storage types `encode` names, plus every other storage type under one constructor. */
  datatype SType =
    | BOOL
    | INT8 | INT16 | INT32 | INT64
    | FLOAT32 | FLOAT64
    | STR32 | STR64
    | OtherSType(name: string)

  /** The logical type is STRING exactly for the two string storage widths. */
  predicate IsString(stype: SType) {
    stype == STR32 || stype == STR64
  }

  /** Which encoder a column is handed to. */
  datatype Path = BoolPath | GenericPath

  /** The TypeError `encode` raises; it carries the offending storage type. */
  datatype TypeError = UnsupportedType(stype: SType)

  /** The `switch (stype)` of `encode`. */
  function Route(stype: SType): (r: Result<Path, TypeError>)
    ensures r == Success(BoolPath) <==> stype == BOOL
    ensures r == Success(GenericPath) <==>
              stype in {INT8, INT16, INT32, INT64, FLOAT32, FLOAT64, STR32, STR64}
    ensures r.Failure? <==> stype.OtherSType?
    ensures r.Failure? ==> r.error == UnsupportedType(stype)
  {
    match stype
    case BOOL => Success(BoolPath)
    case INT8 => Success(GenericPath)
    case INT16 => Success(GenericPath)
    case INT32 => Success(GenericPath)
    case INT64 => Success(GenericPath)
    case FLOAT32 => Success(GenericPath)
    case FLOAT64 => Success(GenericPath)
    case STR32 => Success(GenericPath)
    case STR64 => Success(GenericPath)
    case OtherSType(_) => Failure(UnsupportedType(stype))
  }
}
