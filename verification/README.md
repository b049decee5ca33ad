# Label encoder of datatable (`c/models/encode.cc`), modelled in Dafny

The label encoder turns a column into two tables:

- an encoded column with one int32 code per row;
- a labels table of `id` and `label` columns, indexed by code, that maps each code back to its value.

The model covers the whole file:

- `encode`: the switch on the column's storage type.
- `encode_impl`: one pass over the rows. Each row goes through the row index. NA rows get the NA code. Every other row's value goes through a get-or-insert on the value-to-code map `labels_map`.
- `create_dt_labels`: inverts the map into the `id` and `label` arrays.
- `encode_bool`: the fixed path for booleans.

How the model is built:

- **Modules.** One module per component:
  - `STypes`: storage types and the dispatch switch.
  - `Rows`: columns, the row index, and the specification of a sequential scan.
  - `Registry`: the map and its get-or-insert, as a class.
  - `Encoder`: the four operations.
  - `EncoderProperties`: what the result promises.
  - `Scenarios`: concrete columns.
- **Element values.** The element type is a type parameter `T`. The per-type NA test `ISNA<T>` is a parameter `isNA: T -> bool`. This stands for one instantiation of the C++ template.
- **String columns.** An element stands for the row's offset entry and character span. `isNA` holds when the offset carries the NA bit (line 70) or the span is empty (line 77).
- **Row index.** A `seq<int>`. The marker `RowIndexNA` (-1) stands for `RowIndex::NA`.
- **Codes.** A code is `NA` or `Id(k)`.
- **Parallel loop.** `dt::parallel_for_static` is read as a sequential loop over the rows. Its body is `Encoder.EncodeRow`.
- **Lock protocol.** The shared/exclusive protocol becomes one atomic `GetOrInsert`:
  - The shared-mode probe stays in the method.
  - The exclusive section, with its re-probe, is the function `Registry.ExclusiveSection`.
  - Lemmas state what the re-probe guarantees whatever other callers did in between.
  - `Rows.ArrivalOrderKeepsValues` covers a scan in another order, such as the race order of a parallel run. It lists the same values, the same number of them; only the codes may differ.

The methods are proved against specification functions (`EncodeImplSpec`, `EncodeBoolSpec`, `EncodeSpec`, `FirstSeen`, `CodesOf`), and the lemmas prove the promised properties of those functions.

The model follows the code in three places where its behaviour may be unexpected:

- An empty string span is NA (line 77); it does not get a code of its own.
- The string branch fills `labels_map_str`, but line 138 and line 140 read `labels_map`. As written, a string column therefore always comes back with no tables (`EncoderProperties.StringColumnsEncodeEmpty`). No corrected string behaviour is modelled, because extracting the string bytes (lines 75-85) is itself defective and not part of this model.
- `encode_bool` reads its buffer without the row index; see Findings.

## Model

| member | source | states |
|---|---|---|
| `STypes.Route` | c/models/encode.cc:29-42 | BOOL goes to the boolean path. Exactly INT8, INT16, INT32, INT64, FLOAT32, FLOAT64, STR32 and STR64 go to `encode_impl`. Any other storage type fails with a TypeError that carries that type. |
| `Encoder.Encode` | c/models/encode.cc:27-44 | Returns exactly what the chosen encoder returns, or the TypeError with no result. |
| `EncoderProperties.EncodeFailsOnlyForUnsupported` | c/models/encode.cc:29-42 | `encode` fails if and only if the storage type is unsupported. The error names that type. BOOL yields the boolean result; every other supported type yields the `encode_impl` result. |
| `EncoderProperties.BoolScansAgreeOnPlainColumns` | c/models/encode.cc:164-175 | On a column whose row index is the identity over its buffer, the all-NA scan as written and the scan through the row index give the same result. So on such a column, `encode` as written and `Encoder.Encode` agree on the BOOL branch. |
| `Registry.LabelRegistry.constructor` | c/models/encode.cc:55 | A fresh map is empty, with codes enumerated by an empty listing. |
| `Registry.LabelRegistry.Size` | c/models/encode.cc:124 | `labels_map.size()` is the number of values registered so far, the length of the listing by code. |
| `Registry.LabelRegistry.GetOrInsert` | c/models/encode.cc:118-132 | A value already in the map returns its existing code, and the map is unchanged. An absent value gets code = size before insertion; the map grows by exactly that one entry. The codes stay enumerated. The value is in the map afterwards, with the returned code. |
| `Registry.ExclusiveSection` | c/models/encode.cc:122-131 | The re-probe, then the insert. The resulting map has exactly the old keys plus the value. The value maps to the returned code. No existing code changes. An absent value gets the size the map had before the insertion. |
| `Registry.ExclusiveSectionSound` | c/models/encode.cc:122-131 | Whatever was inserted before the exclusive section, the section (re-probe, then insert) keeps the map enumerated and gives the value a code. It grows the map by at most one and changes no existing code. If the value is already present, the map is left unchanged, so no value is ever inserted twice. |
| `Registry.BlindInsertBreaksDensity` | c/models/encode.cc:123-130 | Without the re-probe, inserting a value that is already present would overwrite its code with the size. No listing of the keys would then enumerate the codes. |
| `Registry.EnumeratedMembers` | c/models/encode.cc:124 | The listing by code holds exactly the keys of the map. |
| `Registry.EnumeratedCodesInjective` | c/models/encode.cc:123-125 | Two keys share a code if and only if they are equal. |
| `Registry.EnumeratedCodesDense` | c/models/encode.cc:124 | The codes in use are exactly 0 .. size-1. |
| `Encoder.EncodeRow` | c/models/encode.cc:109-132 | A row that is NA through the row index or by its value gets the NA code, and the map is untouched. Any other row gets the code of its value, via get-or-insert. No other output slot changes. |
| `Encoder.ScanRows` | c/models/encode.cc:66-133 | After all rows, the map lists the distinct non-NA values in first-seen order. Every row holds NA or the first-seen position of its value. Every row also holds exactly what the final map gives its value: NA for an NA row. |
| `Encoder.CreateLabels` | c/models/encode.cc:147-161 | Both arrays have `map.size()` entries, with `ids[k] == k`. `labels[k]` is the value whose code is k: the value is in the map with code k, and the arrays list the values by code. This holds for any iteration order of the map. |
| `Encoder.EncodeImpl` | c/models/encode.cc:47-144 | Returns `EncodeImplSpec`: no tables for a string column or when every row is NA. Otherwise: labels `id` = 0..n-1, `label` = the distinct values in first-seen order, and per-row codes. |
| `EncoderProperties.EncodeImplEmptyIffAllNA` | c/models/encode.cc:137-138 | A non-string column comes back with no tables if and only if every row is NA. |
| `EncoderProperties.EncodeImplRoundTrip` | c/models/encode.cc:108-159 | Row i gets the NA code if and only if its row index entry is `RowIndex::NA` or its value is NA. Otherwise its code indexes both label columns, `id[code] == code`, and `label[code]` is the row's value. |
| `EncoderProperties.EncodeImplInjective` | c/models/encode.cc:119-130 | Two non-NA rows share a code if and only if they hold the same value. |
| `EncoderProperties.EncodeImplDense` | c/models/encode.cc:122-125 | The labels table has one entry per distinct non-NA value, without repetition. Every row code is below its size, and every code 0..n-1 is used by some row. |
| `EncoderProperties.EncodeImplFirstSeenOrder` | c/models/encode.cc:108-133 | Rows processed in order: the first row holding a value gets the number of distinct values met before it. A value first met earlier has a smaller code. |
| `EncoderProperties.StringColumnsEncodeEmpty` | c/models/encode.cc:56-138 | As written, a string column comes back with no tables. |
| `Rows.FirstSeenMembers` | c/models/encode.cc:108-133 | A value is listed if and only if some non-NA row holds it. |
| `Rows.FirstSeenWitness` | c/models/encode.cc:108-133 | Every listed value comes from a row that holds it. |
| `Rows.FirstSeenHas` | c/models/encode.cc:108-133 | Every non-NA row's value is listed. |
| `Rows.FirstSeenDistinct` | c/models/encode.cc:123-125 | No value is listed twice. |
| `Rows.FirstSeenPrefix` | c/models/encode.cc:108-133 | Scanning more rows only appends to the list; earlier codes never change. |
| `Rows.FirstSeenCount` | c/models/encode.cc:122-125 | The number of listed values is the number of distinct non-NA values. |
| `Rows.FirstOccurrenceCode` | c/models/encode.cc:122-125 | The first row holding a value gets, as its code, the number of distinct values in the rows before it. |
| `Rows.FirstSeenOrder` | c/models/encode.cc:108-133 | Of two first occurrences, the earlier row has the smaller code. |
| `Rows.ArrivalOrderKeepsValues` | c/models/encode.cc:108-133 | Processing the same rows in another order lists the same set of values, just as many of them. |
| `Encoder.EncodeBoolAsWritten` | c/models/encode.cc:164-192 | As written: no tables exactly when the first `nrows` slots of the buffer are NA. The scan stops at the first non-NA slot. Otherwise the labels are `id=[0,1]`, `label=[false,true]` and the input column is reused unchanged. |
| `Encoder.EncodeBool` | c/models/encode.cc:164-192 | The same as `EncodeBoolAsWritten`, except that the scan reads each logical row through the row index. No tables exactly when every row is NA. |
| `EncoderProperties.BoolAndGenericAgreeOnEmptiness` | c/models/encode.cc:168-187 | The boolean path returns no tables exactly when the generic path would. Otherwise it lists both labels, whether or not both values occur, and reuses the input column. |
| `Scenarios.IntegerColumnExample` | c/models/encode.cc:47-144 | Integer column [5, NA, 5, 7, NA, 5] encodes to [0, NA, 0, 1, NA, 0] with labels `id=[0,1]`, `label=[5,7]`. |
| `Scenarios.BoolColumnExample` | c/models/encode.cc:164-192 | Boolean column [true, NA, false]: the column itself is the codes; labels `id=[0,1]`, `label=[false,true]`. |
| `Scenarios.BoolColumnOnlyTrueExample` | c/models/encode.cc:184-190 | A boolean column of only true and NA still gets both labels. |
| `Scenarios.AllNAColumnExample` | c/models/encode.cc:137-138 | A float column of ten NA rows comes back with no tables. |
| `Scenarios.StringColumnExample` | c/models/encode.cc:89-138 | The string column ["a", "b", "a", NA] comes back with no tables, as written. |
| `Scenarios.BoolScanIgnoresRowIndex` | c/models/encode.cc:170-171 | Counterexample: on a boolean view whose one row is true, the as-written scan returns no tables; the corrected scan returns the labels. |

## Findings

| source | as written | input that shows it | evidently intended | confidence | as-written member | corrected member |
|---|---|---|---|---|---|---|
| c/models/encode.cc:170-171 | The all-NA scan of `encode_bool` reads `data[i]` for `i < nrows`. That is the physical buffer, bypassing the row index that `encode_impl` applies (lines 110-113). | A BOOL column that is a view: buffer [NA, true], row index [1]. Its one row is true, but the scan sees only the NA in slot 0 and returns no tables. | Test each logical row through the row index, as `encode_impl` does. | medium; not executed. Whether callers can pass a view of a boolean column is not visible in this file. | `Encoder.EncodeBoolAsWritten`, shown by `Scenarios.BoolScanIgnoresRowIndex` | `Encoder.EncodeBool` (used by `Encoder.Encode`) |

## Left out

- Concurrency is not modelled: `dt::parallel_for_static`, `dt::shared_mutex`, `shared_lock`, `exclusive_start`/`exclusive_end` (lines 58, 66, 88, 92, 101, 108, 118, 122, 131).
  - The loop is sequential over rows 0..nrows-1.
  - The locked section is one atomic `GetOrInsert`.
  - Race order is covered only by `Rows.ArrivalOrderKeepsValues` and `Registry.ExclusiveSectionSound`.
- Extracting string bytes from the offsets and the character buffer (lines 75-85) is not modelled. A string element is abstract; only its NA tests (lines 70 and 77) are modelled, through `isNA`.
- Float NA tests (NaN) and the bit patterns of the NA sentinels are not modelled; `isNA` and the `NA` code are abstract. The example lemmas pick stand-in values.
- `Registry.LabelRegistry.GetOrInsert` assumes that on line 124 `labels_map.size()` is evaluated before `labels_map[v]` inserts `v`. C++17 guarantees that order for an assignment. Under an earlier standard, the insertion may come first: codes would then run 1..n and line 157 would write one slot past the labels column. The model does not capture that order.
- `static_cast<int32_t>(labels_map.size())` (line 124) is not modelled: codes are unbounded naturals. The source's cast would wrap after 2^31-1 distinct values.
- Column and DataTable construction, memory ownership and column names are not modelled (`IntColumn`, `BoolColumn`, `Column::new_data_column`, `DataTable`, `dtptr`; lines 53, 141, 150-151, 160, 179-180, 189-190). The tables are sequences. `col->shallowcopy()` is the input column value itself.
- Hashing inside `std::unordered_map` is not modelled; a Dafny `map` has the same lookup semantics.
- Line 111 reads `data[jrow]` before checking `jrow == RowIndex::NA`. In the model, the NA check guards the read; the out-of-range read is not modelled.
- The text of the TypeError message is not modelled; the error carries the offending storage type. The storage types other than the nine named in `encode` are gathered in `OtherSType`, because the enumeration itself is not part of this model.
- `Encoder.EncodeBoolAsWritten` requires `nrows <= |data|`. It does not model the out-of-bounds read that the as-written scan makes when a view has more rows than its buffer.
- `Encoder.Encode`: its BOOL branch calls the corrected scan `Encoder.EncodeBool`, not the scan as written (`Encoder.EncodeBoolAsWritten`, lines 169-175). On a view whose buffer slots differ from its rows, `Encode` can return the boolean tables where `encode` as written returns none (`Scenarios.BoolScanIgnoresRowIndex`). On a column that is not a view, the two agree (`EncoderProperties.BoolScansAgreeOnPlainColumns`).
