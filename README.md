# bittwiddler: a Dafny model

bittwiddler is the bit-level codec the openfpga tools use to map CPLD
configuration values onto fuse grids. This project models its core in Dafny.

- **Pattern codec** (`bitpattern.dfy`).
  - A `#[bitpattern]` enum is a table of variants. Each variant has a name, a
    description and a bit-string over `0`, `1`, `x`, `X`.
  - Encode maps a variant to a vector of `BITS_COUNT` booleans. Decode maps a
    vector back to a variant.
  - The bit names and positions form a bijection.
  - The `bool` instance is modelled too.
- **Pattern docs** (`pattern_docs.dfy`). `docs_as_ascii_table` renders the
  variant table as aligned text. It is modelled as the imperative loop the
  source runs, proved against a reference function.
- **Schema resolution** (`schema.dfy`). This is the `#[bitfragment]`
  attribute macro, modelled over an abstract expression tree and attribute
  list:
  - `parse_pat_bits_expr`;
  - the `#[pat_bits]` argument loop and `parse_attrs`, including doc-string
    joining and variant selection;
  - the fragment settings loop;
  - the gathering of fields into the schema the generated impl is built
    from, with its `fieldname`/`fielddesc`/`fieldtype` tables.
- **Generated encode/decode** (`fragment.dfy`).
  - Each located bit of each field is resolved to
    `offset[d] ± loc[d]`, with mirroring.
  - Encode writes bits into a caller-owned `array<bool>` in place. Its
    result is specified as a sequence of writes.
  - Decode reads each field's bit buffer, or its constants, and runs the
    pattern decoder. Fields are decoded in declaration order, and the first
    error ends the decode.
  - Pattern-array fields (`#[arr_off]`) are sequences of elements, each
    displaced by its array offset.
- **Grid geometry** (`coordinates.dfy`). Coordinate resolution under offset
  and mirroring, and the row-major flattening of N-dimensional coordinates.
- **Macrocell** (`macrocell.dfy`).
  - The six CoolRunner-II macrocell enums and the ten-field `XC2Macrocell`
    record.
  - Its seven layouts: three 1-D JED layouts and four 2-D configuration-RAM
    layouts.
  - The `JedLarge` dispatch on the buried flag.
  - `Default`.
- **Golden vectors** (`golden_vectors.dfy`). The encode/decode vectors of
  `basic_bitfragment_enum.rs` and `pattern_array.rs`, as lemmas about the
  model.

## Model conventions

These are places where the code does not fix the behaviour, or where the
model chooses a form:

- **Pattern decode.** The `#[bitpattern]` generator is not part of this
  model. Decode is taken to return the first variant, in declaration order,
  whose non-wildcard characters equal the input bits.
  `BitPattern.DecodeUniqueMatch` shows this is the only match whenever no
  two bit-strings overlap. All tables used here have that property.
- **Wildcards on encode.** Encode writes a wildcard position as `false` (0).
- **Bit names.** Bit name `"k"` is canonical position `k`. Character `k` of
  a bit-string is the bit at position `k`.
- **`#[pat_pict]` pictures.** Their parser is not part of this model.
  - Each whitespace-separated cell of a picture is one position.
  - JED pictures are indexed by token order.
  - Configuration-RAM pictures are indexed as `[column, row]` with the
    origin at the top-left cell.
  - Coordinates are flattened first-coordinate-fastest (`x + width * y`).
  - `!0` marks an inverted bit. `\n0=false` marks the constant `false`.
- **Offsets and extra data.** The macro emits
  `encode(&self, fuses, offset, mirror)` and `decode(fuses, offset, mirror)`,
  with `[usize; n]` offsets
  (src/bittwiddler_macros/src/bitfragment.rs:701-717). An extra-data
  argument appears in two places: in the calls of pattern_array.rs, which
  pass `()`, and in the hand-written `BitFragment<JedLarge>` impl
  (src/xc2bit/src/mc.rs:400-436). That impl also uses `[isize; 1]` offsets.
  The model uses `int` offsets everywhere, and an extra-data flag only for
  JedLarge, where it is the `buried` flag.
- **Write order.** The source iterates bit maps in `HashMap` order. The model
  iterates in canonical bit-position order. The layouts it proves things
  about put the bits of one instance on distinct cells, so the write order
  does not change the result.

## Model

| member | source | states |
|---|---|---|
| BitPattern.Decode | src/bittwiddler/src/bitpattern.rs:38 | The result is a variant that matches the input, and no earlier variant matches. `NoMatchingVariant` is returned iff no variant matches. |
| BitPattern.Encode | src/bittwiddler/src/bitpattern.rs:37 | The vector has `BITS_COUNT` bits, matches the variant's bit-string, and is `false` at wildcard positions. |
| BitPattern.PosToName | src/bittwiddler/src/bitpattern.rs:39 | A position below `BITS_COUNT` names a declared bit. |
| BitPattern.NameToPos | src/bittwiddler/src/bitpattern.rs:40 | A declared name maps to a position below `BITS_COUNT` that carries that name. |
| BitPattern.NamePosInverse | src/bittwiddler/src/bitpattern.rs:39-40 | With distinct bit names, `_name_to_pos` and `_pos_to_name` are mutually inverse. |
| BitPattern.ExactTableUnambiguous | src/bittwiddler/src/bitpattern.rs:44 | Pairwise-distinct bit-strings without wildcards never overlap. |
| BitPattern.MatchBothOverlap | src/bittwiddler/src/bitpattern.rs:38 | An input matching two bit-strings witnesses that they overlap. |
| BitPattern.DecodeUniqueMatch | src/bittwiddler/src/bitpattern.rs:38 | In an unambiguous table, decode yields `k` iff variant `k` matches the input. |
| BitPattern.EncodeDecodeRoundTrip | src/bittwiddler/src/bitpattern.rs:37-38 | `decode(encode(k)) == Ok(k)` for every variant of an unambiguous table. |
| BitPattern.BoolIndex | src/bittwiddler/src/bitpattern.rs:142-144 | `false` is variant "false" and `true` is variant "true". |
| BitPattern.BoolEncode | src/bittwiddler/src/bitpattern.rs:119-121 | `bool` encode is the one-bit vector `[b]`, which is the generic table encode of its variant. |
| BitPattern.BoolDecode | src/bittwiddler/src/bitpattern.rs:124-126 | On a non-empty input, `bool` decode returns `Ok(bits[0])`. That is the variant the generic table decode picks for the first bit. |
| BitPattern.BoolTableWellFormed | src/bittwiddler/src/bitpattern.rs:107-116 | The bool table has `BITS_COUNT = 1` and `VARIANT_COUNT = 2`, and is well formed and unambiguous. |
| BitPattern.BoolRoundTrip | src/bittwiddler/src/bitpattern.rs:119-126 | `decode(encode(b)) == Ok(b)` for both booleans. |
| BitPattern.BoolDecodeAgrees | src/bittwiddler/src/bitpattern.rs:124-126 | On a one-bit input, the bool decode agrees with the generic table decode. |
| BitPattern.BoolNames | src/bittwiddler/src/bitpattern.rs:129-139 | `_pos_to_name(0) == "0"` and `_name_to_pos("0") == 0`. |
| PatternDocs.MaxLen | src/bittwiddler/src/bitpattern.rs:50-64 | The result bounds every length and is attained by some string. It is 0 when there are none. |
| PatternDocs.MaxLenOf | src/bittwiddler/src/bitpattern.rs:50-56 | The maximum loop computes `MaxLen`. |
| PatternDocs.DocsAsAsciiTable | src/bittwiddler/src/bitpattern.rs:46-104 | The renderer returns the header, the separator and one row per variant. |
| PatternDocs.AppendHeader | src/bittwiddler/src/bitpattern.rs:67-74 | Appends the bit names, `" | "`, `max_name_len` spaces and `" |\n"`. It is a step of `DocsAsAsciiTable`, whose result is proved equal to `AsciiTable`. |
| PatternDocs.AppendSeparator | src/bittwiddler/src/bitpattern.rs:77-88 | Appends `BITS_COUNT` dashes, `"-+-"`, name-width dashes, `"-+-"`, description-width dashes and a newline. It is a step of `DocsAsAsciiTable`. |
| PatternDocs.AppendRows | src/bittwiddler/src/bitpattern.rs:91-101 | Appends one row per variant, in index order. |
| PatternDocs.AppendRow | src/bittwiddler/src/bitpattern.rs:92-100 | Appends the bits, `" | "`, the name padded to the width, `" | "`, the description and a newline. It is a step of `AppendRows`. |
| PatternDocs.AppendAll | src/bittwiddler/src/bitpattern.rs:67-69 | Appends the strings one after another. |
| PatternDocs.AppendRepeat | src/bittwiddler/src/bitpattern.rs:71-73 | Appends `n` copies of a character. |
| PatternDocs.NewlinesAppend | src/bittwiddler/src/bitpattern.rs:46-104 | Line breaks add up under concatenation. |
| PatternDocs.TableLineCount | src/bittwiddler/src/bitpattern.rs:46-104 | With single-line names and descriptions, the table has `VARIANT_COUNT + 2` lines. |
| PatternDocs.RowsNewlines | src/bittwiddler/src/bitpattern.rs:91-101 | The data part has one line per variant. |
| PatternDocs.RowAligned | src/bittwiddler/src/bitpattern.rs:95-97 | Every row puts its description at the same column: `BITS_COUNT + 3 + max_name_len + 3`. |
| PatternDocs.BoolColumnWidths | src/bittwiddler/src/bitpattern.rs:142-149 | For `bool`, `max_name_len` and `max_desc_len` are both 5. |
| PatternDocs.BoolHeader | src/bittwiddler/tests/bool_bitpattern.rs:23-29 | The `bool` header line is `"0 |       |\n"`. |
| PatternDocs.BoolSeparator | src/bittwiddler/tests/bool_bitpattern.rs:23-29 | The `bool` separator is `"--+-------+------\n"`. |
| PatternDocs.BoolRowText | src/bittwiddler/tests/bool_bitpattern.rs:23-29 | The two `bool` rows are `"0 | false | false\n"` and `"1 | true  | true\n"`. |
| PatternDocs.BoolRows | src/bittwiddler/tests/bool_bitpattern.rs:23-29 | The `bool` data part is its two rows, in order. |
| PatternDocs.BoolTableRendering | src/bittwiddler/tests/bool_bitpattern.rs:23-29 | The `bool` table is exactly the four reference lines. |
| Schema.ParsePatBitsExpr | src/bittwiddler_macros/src/bitfragment.rs:154-218 | The recursive parser, with its tuple loop, computes `PatBitsOf`. |
| Schema.PatBitsMeaning | src/bittwiddler_macros/src/bitfragment.rs:154-218 | Parsing fails iff an integer literal overflows `isize`. Otherwise: `invert` is the parity of `!`; `pos` is the peeled bool, int or tuple of ints; the flag is set iff some form is invalid. |
| Schema.TupleOffsMeaning | src/bittwiddler_macros/src/bitfragment.rs:172-186 | The tuple loop fails iff an element overflows. Otherwise it keeps the integer elements in order, and flags an error iff some element is not an integer. |
| Schema.DoubleNegation | src/bittwiddler_macros/src/bitfragment.rs:188-205 | `!!e` parses as `e`, and `(e)` parses as `e`. |
| Schema.TupleOfInts | src/bittwiddler_macros/src/bitfragment.rs:172-186 | A tuple of in-range integers is `Loc` of those integers, without inversion or error. |
| Schema.PatBitsErrorIsParseError | src/bittwiddler_macros/src/bitfragment.rs:165-176 | The only hard error is the literal parse. |
| Schema.IntsOfSnoc | src/bittwiddler_macros/src/bitfragment.rs:174-181 | Appending an element to a tuple appends its integer, if it has one. |
| Schema.ParsePatBitsArgs | src/bittwiddler_macros/src/bitfragment.rs:248-303 | The argument loop computes `ArgsFold`. |
| Schema.ArgsFoldFails | src/bittwiddler_macros/src/bitfragment.rs:271 | The loop fails iff some position overflows, and then with that error. |
| Schema.ArgsFoldKeys | src/bittwiddler_macros/src/bitfragment.rs:264-301 | The bit map's keys are exactly the bit names given, and `frag_variant`/`pat_variant` hold the last value given. |
| Schema.ArgsFoldLastWins | src/bittwiddler_macros/src/bitfragment.rs:281 | A bit name maps to the position of its last entry. |
| Schema.ArgsCleanIff | src/bittwiddler_macros/src/bitfragment.rs:248-303 | No error is flagged iff the arguments are clean. Clean means: no bit named twice, no repeated `frag_variant` or `pat_variant`, every position valid, and every location of the right dimension. |
| Schema.DuplicateBitFlagged | src/bittwiddler_macros/src/bitfragment.rs:264-269 | A bit named twice raises the error flag. |
| Schema.DimensionChecked | src/bittwiddler_macros/src/bitfragment.rs:275-280 | A location of the wrong dimension raises the flag. Only locations are checked. |
| Schema.LeadingWhitespace | src/bittwiddler_macros/src/bitfragment.rs:235 | The length of the maximal whitespace prefix. |
| Schema.TrailingWhitespace | src/bittwiddler_macros/src/bitfragment.rs:235 | The length of the maximal whitespace suffix. |
| Schema.TrimSlice | src/bittwiddler_macros/src/bitfragment.rs:235 | The trimmed doc line is a slice of the line with only whitespace around it. |
| Schema.TrimEnds | src/bittwiddler_macros/src/bitfragment.rs:235 | The trimmed line neither starts nor ends with whitespace. |
| Schema.SelectedIffEqual | src/bittwiddler_macros/src/bitfragment.rs:306-308 | A `#[pat_bits]` is selected iff its `frag_variant` equals the fragment's variant, both possibly absent. |
| Schema.AttrsFoldPrefix | src/bittwiddler_macros/src/bitfragment.rs:226-323 | Later attributes never clear the error flag or a selection. |
| Schema.AttrsSelection | src/bittwiddler_macros/src/bitfragment.rs:305-321 | `parse_attrs` keeps a bit map iff some well-formed `#[pat_bits]` is selected. |
| Schema.AttrsFoldLast | src/bittwiddler_macros/src/bitfragment.rs:226-323 | The last attribute's step either installs its map and `pat_variant`, or keeps the previous ones. |
| Schema.AttrsLastSelected | src/bittwiddler_macros/src/bitfragment.rs:318-319 | The kept map and `pat_variant` are those of the last selected attribute. |
| Schema.StepSelection | src/bittwiddler_macros/src/bitfragment.rs:305-321 | One step has a bit map iff it had one or the attribute is selected. A selected attribute's map and `pat_variant` replace the old ones. |
| Schema.TwoSelectedFlagged | src/bittwiddler_macros/src/bitfragment.rs:309-316 | Two `#[pat_bits]` selected for the same variant raise the error flag. |
| Schema.ArgErrorsPropagate | src/bittwiddler_macros/src/bitfragment.rs:248-303 | An error flagged inside any `#[pat_bits]`, selected or not, flags the field. |
| Schema.DocsJoined | src/bittwiddler_macros/src/bitfragment.rs:227-237 | The field's docs are its trimmed doc lines joined by single spaces. Empty lines before the first non-empty one are dropped. |
| Schema.ParseAttrs | src/bittwiddler_macros/src/bitfragment.rs:220-335 | The attribute loop computes `AttrsFold`. |
| Schema.AttrsFoldFails | src/bittwiddler_macros/src/bitfragment.rs:228-242 | A hard error at an attribute is the result of `parse_attrs`. |
| Schema.SettingsFoldLast | src/bittwiddler_macros/src/bitfragment.rs:351-375 | The last setting keeps the earlier errors, flags one more if its kind was already set, and takes its own value. |
| Schema.SettingsPresence | src/bittwiddler_macros/src/bitfragment.rs:351-375 | `errtype`, `variant` and `dimensions` are each present iff given. |
| Schema.SettingsLastValue | src/bittwiddler_macros/src/bitfragment.rs:358-372 | Each setting holds the last value given for it. |
| Schema.SettingsErrors | src/bittwiddler_macros/src/bitfragment.rs:353-370 | An error is flagged iff some kind of setting is repeated. |
| Schema.ProcessSettings | src/bittwiddler_macros/src/bitfragment.rs:351-375 | The settings loop computes `SettingsFold`. |
| Schema.NatToString | src/bittwiddler_macros/src/bitfragment.rs:438 | A non-empty string of decimal digits. |
| Schema.DecimalRoundTrip | src/bittwiddler_macros/src/bitfragment.rs:435-439 | The name of an unnamed field reads back as its index. |
| Schema.GatherFieldsMeaning | src/bittwiddler_macros/src/bitfragment.rs:434-460 | There is one field info per field, in order, each from its own `parse_attrs`. Any field's error flag sets the overall flag. |
| Schema.GatherFieldsFails | src/bittwiddler_macros/src/bitfragment.rs:441-444 | A hard error in a field's attributes is the result of the field loop. |
| Schema.ResolveFieldsMeaning | src/bittwiddler_macros/src/bitfragment.rs:527 | Generation succeeds iff every field has a selected bit map. The first field without one is the one that panics. |
| Schema.ExpandFieldTables | src/bittwiddler_macros/src/bitfragment.rs:682-730 | `FIELD_COUNT` is the number of fields. `fieldname(i)` is the declared name. `fielddesc(i)` is the joined docs. `fieldtype(i)` is Pattern. The bit map is the selected one. |
| Schema.UnnamedFieldNames | src/bittwiddler_macros/src/bitfragment.rs:435-439 | Field `i` of a tuple struct is named by the decimal digits of `i`. |
| Schema.ExpandSettings | src/bittwiddler_macros/src/bitfragment.rs:467-489 | Generation happens only with no repeated setting and no flagged field. `IDX_DIMS` is the given dimensions, and the indexing type is scalar iff it is 1. |
| Schema.MissingDimensionsAborts | src/bittwiddler_macros/src/bitfragment.rs:378-380 | Without `dimensions` the macro aborts. |
| Schema.RepeatedSettingBlocks | src/bittwiddler_macros/src/bitfragment.rs:467-470 | A repeated setting stops generation. |
| Schema.Bitfragment | src/bittwiddler_macros/src/bitfragment.rs:337-751 | The macro body computes `Expand`. |
| Schema.ParseFields | src/bittwiddler_macros/src/bitfragment.rs:434-460 | The struct-field loop computes `GatherFields`. |
| Schema.ResolveAll | src/bittwiddler_macros/src/bitfragment.rs:518-527 | The generation loop computes `ResolveFields`. |
| Coordinates.ResolveMirror | src/bittwiddler_macros/src/bitfragment.rs:536 | Coordinate `d` resolves to `offset[d] - loc[d]` when mirrored, and to `offset[d] + loc[d]` otherwise. |
| Coordinates.ResolveInjective | src/bittwiddler_macros/src/bitfragment.rs:536 | Distinct local positions resolve to distinct coordinates. |
| Coordinates.ResolveCompose | src/bittwiddler/tests/pattern_array.rs:68-84 | Resolving `arr_off + loc` equals resolving `loc` against the resolved `arr_off`, under the same mirroring. A mirrored array element is therefore its pattern placed at `offset - arr_off`, with its bits running towards lower cells. |
| Coordinates.Flatten | src/bittwiddler_macros/src/bitfragment.rs:541 | An in-bounds coordinate maps to an index inside the grid. |
| Coordinates.FlattenInjective | src/bittwiddler_macros/src/bitfragment.rs:541 | Distinct in-bounds coordinates map to distinct indices. |
| Fragment.TargetsShape | src/bittwiddler_macros/src/bitfragment.rs:526-545 | Encode's write list holds exactly the located bits of every element of every field. |
| Fragment.ApplyWritesAt | src/bittwiddler_macros/src/bitfragment.rs:541-542 | After writes to distinct cells, each written cell holds its value. |
| Fragment.ApplyWritesFrame | src/bittwiddler_macros/src/bitfragment.rs:541-542 | A cell no write names keeps its value. |
| Fragment.EncodeWritesBit | src/bittwiddler_macros/src/bitfragment.rs:540-543 | Each located bit's cell holds the encoded pattern bit, negated when `invert`. |
| Fragment.EncodeFrame | src/bittwiddler_macros/src/bitfragment.rs:526-550 | A cell that no located bit resolves to is unchanged by encode. |
| Fragment.EncodeOverwritesAll | src/bittwiddler/tests/pattern_array.rs:32-102 | When the located bits cover the grid, encode's result does not depend on the grid's prior contents. |
| Fragment.EncodeElement | src/bittwiddler_macros/src/bitfragment.rs:526-545 | Writes one element's located bits into the grid, in bit order, and nothing else. |
| Fragment.EncodeField | src/bittwiddler_macros/src/bitfragment.rs:547-550 | Extends the encoded prefix by one field. |
| Fragment.EncodeFragment | src/bittwiddler_macros/src/bitfragment.rs:708-712 | The grid afterwards is `Encoded` of the grid before. |
| Fragment.ReadElement | src/bittwiddler_macros/src/bitfragment.rs:607-641 | The decode buffer of one element, filled slot by slot from the grid or a constant, negated when `invert`. |
| Fragment.DecodeField | src/bittwiddler_macros/src/bitfragment.rs:637-645 | Decodes a field's elements in order. The first pattern error ends it. |
| Fragment.DecodeFragment | src/bittwiddler_macros/src/bitfragment.rs:660-679 | Decodes the fields in declaration order. The first error ends it. |
| Fragment.CollectMeaning | src/bittwiddler_macros/src/bitfragment.rs:643 | A list of results is `Ok` iff every entry is. Its values are then those of the entries, in order. |
| Fragment.CollectErrSticks | src/bittwiddler_macros/src/bitfragment.rs:643 | The first error is the result. |
| Fragment.DecodeElemsMeaning | src/bittwiddler_macros/src/bitfragment.rs:637-645 | A field decodes iff each element's pattern decode succeeds, and then to those values. |
| Fragment.DecodeFieldsMeaning | src/bittwiddler_macros/src/bitfragment.rs:660-679 | A fragment decodes iff every element of every field does, and then field by field to those values. |
| Fragment.DecodedIsValue | src/bittwiddler_macros/src/bitfragment.rs:643 | A successful decode is a value of the layout. |
| Fragment.ElemRoundTrip | src/bittwiddler_macros/src/bitfragment.rs:604-645 | Decoding an encoded element gives back its variant. |
| Fragment.FragmentRoundTrip | src/bittwiddler_macros/src/bitfragment.rs:708-717 | `decode(encode(v)) == Ok(v)` at the same offset and mirror, on any prior grid. This needs unambiguous tables, constants agreeing with the values, and distinct cells. |
| Fragment.DecodeLocal | src/bittwiddler_macros/src/bitfragment.rs:608-624 | Decode depends only on the cells the located bits resolve to. |
| Fragment.FieldTargetsSorted | src/bittwiddler_macros/src/bitfragment.rs:493-569 | Writes go field by field, element by element, bit by bit. |
| Fragment.CoordOfElement | src/bittwiddler/tests/pattern_array.rs:19-28 | Element `e` of an array field is its pattern placed at the resolved array offset `arr_off(e)`. A plain field's element is placed at the offset itself. |
| Fragment.DisjointFromLocal | src/bittwiddler_macros/src/bitfragment.rs:536 | Distinct local positions inside the grid give distinct cells. |
| GoldenVectors.MyEnumTableOk | src/bittwiddler/tests/basic_bitfragment_enum.rs:7-16 | MyEnum's table is well formed and unambiguous. |
| GoldenVectors.MyEnumTargets | src/bittwiddler/tests/basic_bitfragment_enum.rs:3-5 | The two writes go to `offset ± 1` and `offset ± 2`. |
| GoldenVectors.MyEnumEncoded | src/bittwiddler/tests/basic_bitfragment_enum.rs:19-50 | Encoding variant `k` sets the two cells to its bits. No other cell changes. |
| GoldenVectors.MyEnumDecoded | src/bittwiddler/tests/basic_bitfragment_enum.rs:53-80 | A grid holding variant `k`'s bits in the two cells decodes to `k`, whatever the other cells hold. |
| GoldenVectors.MyEnumEncodePlain | src/bittwiddler/tests/basic_bitfragment_enum.rs:20-28 | The offset-0 encode vectors, with the grid reused. |
| GoldenVectors.MyEnumEncodeOffset | src/bittwiddler/tests/basic_bitfragment_enum.rs:31-39 | The offset-1 encode vectors in a grid of five set cells. |
| GoldenVectors.MyEnumEncodeMirrored | src/bittwiddler/tests/basic_bitfragment_enum.rs:42-50 | The mirrored encode vectors at offsets 2 and 3. |
| GoldenVectors.MyEnumDecodePlain | src/bittwiddler/tests/basic_bitfragment_enum.rs:55-61 | The offset-0 decode vectors: Choice1 and Choice4. |
| GoldenVectors.MyEnumDecodeOffset | src/bittwiddler/tests/basic_bitfragment_enum.rs:64-70 | The offset-3 decode vectors. |
| GoldenVectors.MyEnumDecodeMirrored | src/bittwiddler/tests/basic_bitfragment_enum.rs:73-79 | The mirrored decode vectors: Choice2 at offset 2, and Choice3 at offset 5. |
| GoldenVectors.MyStruct1Ok | src/bittwiddler/tests/pattern_array.rs:19-28 | Both fields of MyStruct1 are well formed, with unambiguous tables. |
| GoldenVectors.MyStruct1Locals | src/bittwiddler/tests/pattern_array.rs:19-28 | Bit `p` of flattened element `e` is at local position `2e + 1 + p`, and `field_bool` is at 0. |
| GoldenVectors.Struct1ElementPlacement | src/bittwiddler/tests/pattern_array.rs:68-84 | Element `e` of `field_enum` starts at cell `2e`, or `12 - 2e` when mirrored at 12. Its bit `p` lies `1 + p` cells further on, towards cell 0 when mirrored. |
| GoldenVectors.MyStruct1Placeable | src/bittwiddler/tests/pattern_array.rs:19-28 | Both test placements put every bit inside the 13 cells, each on its own cell. |
| GoldenVectors.Struct1CellAt | src/bittwiddler/tests/pattern_array.rs:32-102 | Each cell holds the bit of its local position, with the position reversed when mirrored. |
| GoldenVectors.MyStruct1Encoding | src/bittwiddler/tests/pattern_array.rs:32-102 | Encode determines all 13 cells, whatever the grid held before. |
| GoldenVectors.MyStruct1RoundTrip | src/bittwiddler/tests/pattern_array.rs:30-175 | Every MyStruct1 value decodes back from its grid, mirrored or not. |
| GoldenVectors.MyStruct1EncodeVectors | src/bittwiddler/tests/pattern_array.rs:31-103 | The four encode vectors, each encode writing into the grid the previous one left. |
| GoldenVectors.MyStruct1DecodeVectors | src/bittwiddler/tests/pattern_array.rs:106-176 | The four decode vectors, at offset 0 and mirrored at offset 12. |
| Macrocell.EnumIndexBijections | src/xc2bit/src/mc.rs:35-124 | Each enum's variant index and its value are mutually inverse. |
| Macrocell.ClkSrcTableOk | src/xc2bit/src/mc.rs:35-46 | The clock-source strings have length 3 and no two of them overlap. |
| Macrocell.ClkSrcDecodeTotal | src/xc2bit/src/mc.rs:35-46 | Every 3-bit input decodes to a clock source. |
| Macrocell.ResetSrcTableOk | src/xc2bit/src/mc.rs:51-60 | Reset-source strings are the four distinct 2-bit vectors. |
| Macrocell.SetSrcTableOk | src/xc2bit/src/mc.rs:65-74 | Set-source strings are the four distinct 2-bit vectors. |
| Macrocell.RegModeTableOk | src/xc2bit/src/mc.rs:79-92 | Register-mode strings are the four distinct 2-bit vectors. |
| Macrocell.XorModeTableOk | src/xc2bit/src/mc.rs:111-124 | XOR-mode strings are the four distinct 2-bit vectors. |
| Macrocell.TwoBitDecodeTotal | src/xc2bit/src/mc.rs:51-124 | A table whose strings are the four 2-bit vectors decodes every input. |
| Macrocell.FeedbackModeTableOk | src/xc2bit/src/mc.rs:98-105 | `X1`, `00` and `10` never overlap. |
| Macrocell.FeedbackModeDecodeTotal | src/xc2bit/src/mc.rs:98-105 | Every 2-bit input decodes to a feedback mode. |
| Macrocell.FeedbackModeDisabledIff | src/xc2bit/src/mc.rs:98-105 | An input decodes to `Disabled` iff its bit 1 is set. |
| Macrocell.FieldTablesOk | src/xc2bit/src/mc.rs:144-394 | Every field's pattern is well formed and unambiguous. Its `BITS_COUNT` equals the number of bits the field's pictures place (3 for `clk_src`, 2 for the 2-bit modes, 1 for each bool). |
| Macrocell.Extent | src/xc2bit/src/mc.rs:136-142 | JED layouts are 1-D and configuration-RAM layouts are 2-D. |
| Macrocell.LayoutOfOk | src/xc2bit/src/mc.rs:136-394 | Each of the seven layouts is well formed, with unambiguous tables and bits of the declared dimension. |
| Macrocell.AllCellsOk | src/xc2bit/src/mc.rs:146-392 | Every picture cell lies inside its picture, and no two bits share a cell. |
| Macrocell.CoordsOfInBounds | src/xc2bit/src/mc.rs:152-165 | A picture cell's `[column, row]` lies inside the picture. |
| Macrocell.CoordsOfInjective | src/xc2bit/src/mc.rs:152-165 | Distinct cells have distinct coordinates. |
| Macrocell.LayoutOfInjective | src/xc2bit/src/mc.rs:146-392 | No two bits of a layout share a local position. |
| Macrocell.ConstantBit | src/xc2bit/src/mc.rs:353 | The only constant bit is `ff_in_ibuf` in JedLargeBuried, with the value `false`. |
| Macrocell.FuseIndexFormula | src/bittwiddler_macros/src/bitfragment.rs:533-542 | Picture cell `k` is fuse `offset ± k` in 1-D, and `(offset0 ± column) + width * (offset1 ± row)` in 2-D. |
| Macrocell.LayoutOfPlaceable | src/xc2bit/src/mc.rs:136-142 | Every layout placed so that its picture fits the grid puts each bit on its own fuse. |
| Macrocell.ValuesRoundTrip | src/xc2bit/src/mc.rs:144-394 | A record and its per-field variant indices are mutually inverse. |
| Macrocell.FromValuesRoundTrip | src/xc2bit/src/mc.rs:144-394 | Per-field variant indices and a record are mutually inverse. |
| Macrocell.RecordValuesOk | src/xc2bit/src/mc.rs:144-394 | The layout's values are exactly the records' index vectors. |
| Macrocell.ConstantsAgreeOf | src/xc2bit/src/mc.rs:345-353 | A record with `ff_in_ibuf` false agrees with the buried layout's constant. Every other layout has no constant. |
| Macrocell.MacrocellRoundTrip | src/xc2bit/src/mc.rs:136-394 | Decoding an encoded macrocell gives it back, in every layout where its constant agrees. |
| Macrocell.DecodeMacrocellTotal | src/xc2bit/src/mc.rs:35-124 | Macrocell decode never fails: every field's table decodes every input. |
| Macrocell.BuriedDecodeNoIbuf | src/xc2bit/src/mc.rs:345-353 | A buried macrocell always decodes with `ff_in_ibuf == false`. |
| Macrocell.BuriedRoundTripIff | src/xc2bit/src/mc.rs:345-353 | Round trip through the buried layout holds iff `ff_in_ibuf` is false. |
| Macrocell.EncodeFuse | src/xc2bit/src/mc.rs:144-394 | Each fuse of the picture receives its field's encoded bit, negated when inverted. |
| Macrocell.InitStateFuseInverted | src/xc2bit/src/mc.rs:271-294 | In all seven layouts, the `init_state` fuse holds `!init_state`. |
| Macrocell.IbufFuseInverted | src/xc2bit/src/mc.rs:345-369 | Where `ff_in_ibuf` has a fuse, the fuse holds `!ff_in_ibuf`. |
| Macrocell.EncodeOnlyFuses | src/xc2bit/src/mc.rs:410-422 | Encode leaves every cell outside the macrocell's fuses unchanged. |
| Macrocell.DecodeOnlyFuses | src/xc2bit/src/mc.rs:424-436 | Decode depends only on the macrocell's fuses. |
| Macrocell.JedLargeVariant | src/xc2bit/src/mc.rs:415-421 | Chooses `JedLargeBuried` when the extra data is true and `JedLargeUnburied` otherwise. Both layouts are 1-D. |
| Macrocell.EncodeJedLarge | src/xc2bit/src/mc.rs:410-422 | Encodes with the buried or unburied layout at the same offset and mirror. |
| Macrocell.DecodeJedLarge | src/xc2bit/src/mc.rs:424-436 | Decodes with the buried or unburied layout at the same offset and mirror. |
| Macrocell.JedLargeRoundTrip | src/xc2bit/src/mc.rs:410-436 | With the same extra data on both sides, the round trip holds iff the macrocell is not buried with `ff_in_ibuf` set. |
| Macrocell.DefaultRoundTrip | src/xc2bit/src/mc.rs:468-485 | The default configuration survives encode and decode in every layout. |
| Macrocell.DefaultInitStateFuse | src/xc2bit/src/mc.rs:471-483 | The default writes 0 into the `init_state` fuse. |

## Left out

- src/xbpar-rs/src/bin/demo.rs is not part of this model. It is a
  place-and-route demo built on a library that is not shown, and it prints
  trace output.
- Macro plumbing is not modelled:
  - token streams and `quote!`;
  - the `emit_error!` and `abort!` diagnostics (only their effect is kept:
    an error flag, or a `MacroError`);
  - token-level parse errors of `syn`, other than the integer-literal range
    check.
- Removing the selected `#[pat_bits]` from the item is not modelled
  (src/bittwiddler_macros/src/bitfragment.rs:325-327). It only changes the
  emitted tokens.
- The Fragment and FragmentArray field types are not modelled. Their encode
  and decode arms are `unimplemented!()`
  (src/bittwiddler_macros/src/bitfragment.rs:552-559, 647-655).
- The pattern-array field type is modelled from the pattern_array.rs vectors,
  because the macro shown never produces it.
- The `BitFragment<JedLarge>` field tables (src/xc2bit/src/mc.rs:438-465)
  are not modelled: they are `unimplemented!()`.
- The generated constant stubs `field_offset`, `field_mirror`, `field_bits`
  and `field_bit_base_pos` (src/bittwiddler_macros/src/bitfragment.rs:731-746)
  are not modelled. They carry no behaviour.
- `impl fmt::Display for XC2Macrocell` (src/xc2bit/src/mc.rs:487-532) is not
  modelled. It is text formatting through a `fmt::Formatter`.
- The `#[pat_pict]` picture parser and the `#[bitpattern]` enum generator are
  not part of this model. Their effect is written out as data (`Cells`, the
  pattern tables). Decode's first-match rule and encode's wildcard value are
  conventions of the model.
- BitPattern.BoolDecode requires a non-empty input. On an empty slice the source's `bits[0]` panics, and the model does not represent that panic.
- Fragment.EncodeFragment requires every resolved coordinate to lie inside
  the grid. The source's `as usize` cast of a negative coordinate wraps
  around, and an out-of-range index panics; neither is modelled.
- Fragment.DecodeFragment, Fragment.DecodeField and Fragment.ReadElement
  have the same in-grid precondition, `Placeable`. The generated decode
  indexes `fuses` through the same `as usize` cast, so it wraps and panics
  the same way.
- Macrocell.EncodeJedLarge and Macrocell.DecodeJedLarge have the same in-grid
  precondition, as `Fits`.
- Fragment.FragmentRoundTrip requires the bits of one instance to land on
  distinct cells. With two bits on one cell, the `HashMap` iteration order
  of the source decides which write wins, and that order is not modelled.
- Fragment.ReadElement fills a buffer of exactly `BITS_COUNT` slots, one per
  canonical bit name. The source sizes it by the number of bit names in the
  `#[pat_bits]` map. The two agree whenever that map names each pattern bit
  once.
- Fragment.ReadElement gives a constant bit (`PatBitPos::Bool`) its evident
  meaning: the constant, negated when inverted. As written, the generator
  emits no `;` after a constant bit's assignment
  (src/bittwiddler_macros/src/bitfragment.rs:625-634). The `Loc` arm carries
  its `;` inside its tokens (621-623); the `Bool` arm does not. So the
  generated statement runs into the next one. This reading of the tokens was
  not compiled.
- Schema.ParsePatBitsExpr takes integer literals as unbounded naturals and
  checks them against the 64-bit `isize` range. Other integer widths are not
  modelled.
- Schema.ExpandSettings checks `dimensions` against the 64-bit `usize`
  range.
- Schema.DocsJoined counts the docs as empty by character count, where the
  source uses the UTF-8 byte length. The two agree on emptiness.
- PatternDocs.MaxLen measures names and descriptions in characters, where
  the source's `len()` counts UTF-8 bytes. The two agree on ASCII text,
  which is all that the tables here contain.
- Nothing else that `bitfragment` emits is modelled: the `IDX_DIMS`, `ErrType`
  and associated-type declarations appear only as fields of the resolved
  schema.
