# A verified model of the Google Sheet importer's CSV engine

This project models, in Dafny, the core of a Unity package that turns a Google Sheet exported as
CSV into typed config records:

- **CSV table** (`CsvParser.ConvertCsv`, `EnumerateCsvLine`): the text is split on CR LF, the first
  line gives the headers, every later line becomes a row mapping each header (except those starting
  with `$`) to its trimmed cell, or to `""` when the line is short. The line tokenizer is the
  regular expression of the source, modelled match by match, including its greedy-then-backtracking
  quoted alternative.
- **Scalar parser** (`CsvParser.Parse`, `TryGetKeyValuePair`): trim, then dispatch on the target
  type: strings, enums (`Enum.Parse`), key/value structs, user decoders in registration order,
  32-bit integers (`Convert.ChangeType`), and a JSON fallback for reference types.
- **Collections** (`ArrayParse`, `DictionaryParse`): splitting on `, ( ) [ ] { }`, dropping empty
  pieces, and the two dictionary layouts (`k:v` items, or alternating keys and values).
- **Records** (`DeserializeObject`, `DeserializeTo`, `GetSubListDictionary`, `DeserializeSubList`):
  the field-by-field record mapper and the nested sub-list blocks (a `Name[]` row followed by `#`
  continuation rows).
- **Importers** (`GoogleSheetConfigsImporter`, `GoogleSheetSingleConfigSubListImporter`,
  `GoogleSheetToolImporter`): one config per row, one config per sheet with sub-lists, the order in
  which importers run, the CSV export address, and the guard that skips a download that yields no rows.

Errors the .NET code throws become the `Failure` case of a `Result` (module `Errors`): a
`FormatException` is `FormatError`, an `OverflowException` is `Overflow`, a failed `Enum.Parse` is
`EnumNotFound`, `IndexOutOfRangeException` is `IndexOutOfRange`, a duplicate `Dictionary.Add` is
`DuplicateKey`, a missing dictionary key is `KeyNotFound`, `String.Remove` out of range is
`ArgumentOutOfRange`, the `ArgumentException` of `FieldInfo.SetValue` for a value of the wrong type is
`ArgumentMismatch`, the `FieldAccessException` of writing a constant field is `ConstantField`, and
`Activator.CreateInstance` of a type without a parameterless constructor is `MissingConstructor`. Reflection is replaced by explicit descriptions: a record type is a sequence of
`Field(name, type, ignored)`, an assembly is a sequence of `TypeInfo`.

Behaviour of the code worth knowing, which the model follows:

- An empty line tokenizes to no field at all (the regular expression has no match on `""`), not to
  one empty field. A short line still reads `""` for its missing columns, through the
  `j >= values.Length` branch of `ConvertCsv`.
- The header map of a sub-list block is not an identity map: a column of the `Name[]` row is renamed
  to the text of its cell in that row (`headerMap.Add(key, value)`), and the continuation rows are
  re-keyed through it.
- `DictionaryParse` returns null for a text with no items, although its doc comment
  (Runtime/CsvParser.cs:240-244) promises an empty dictionary.
- The single-config importer does not consult `ParseIgnore`; only `DeserializeTo` does.
- An array field `T[]` never takes a value from a cell: `DeserializeObject` hands it the `List<T>`
  that `ArrayParse` builds, and `FieldInfo.SetValue` rejects that (`ArgumentMismatch`). Only list
  fields read a comma-separated cell as a collection.
- A `[]` row does not need a list of records, although the doc comment of `DeserializeSubList`
  (Runtime/CsvParser.cs:150) speaks of custom complex types: it reads each continuation row as an
  instance of the field type's first generic argument. A `List<int>` field gets one `0` per row
  (unless a column is named after `Int32.MaxValue` or `Int32.MinValue`, constants that cannot be
  written), a `List<string>` field fails for want of a parameterless constructor, a non-generic field
  fails with `IndexOutOfRange`, and a dictionary or Key/Value field is handed a list of its key type,
  which `SetValue` rejects.

The modules, one file each: `errors.dfy`, `text.dfy` (the .NET string operations, ordinal),
`shapes.dfy` (target types and values), `csv_line.dfy`, `csv_table.dfy`, `scalar_parser.dfy`,
`collections.dfy`, `records.dfy`, `configs_importer.dfy`, `tool_importer.dfy`. The loops of the
source are methods proved equal to specification functions: the row and header loops of
`ConvertCsv`, the copy loop of `EnumerateCsvLine`, the decoder loop of `Parse`, the loops of
`ArrayParse` and `DictionaryParse`, the field loop of `DeserializeTo`, the three loops of
`GetSubListDictionary`, the loop of `DeserializeSubList`, the row loops of both importers, and the
type scan and sort of `GetAllImporters`. The matching inside `Regex.Matches` is library code, modelled
by the recursive function `Tokenize`. The properties are lemmas about those functions.

## Model

| member | source | states |
|---|---|---|
| Text.Trim | Runtime/CsvParser.cs:324 | String.Trim returns a string no longer than its input with white space at neither end |
| Text.TrimSlice | Runtime/CsvParser.cs:324 | the trimmed text is a slice of the input between a blank prefix and a blank suffix |
| Text.TrimIdempotent | Runtime/CsvParser.cs:324 | trimming twice is trimming once, and a text trims to "" exactly when it is blank |
| Text.IndexOf | Editor/GoogleSheetToolImporter.cs:154-155 | the ordinal IndexOf result is an occurrence with no earlier one, or -1 when there is none |
| Text.ReplaceKeepsPrefix | Editor/GoogleSheetConfigsImporter.cs:152 | String.Replace leaves alone a prefix in which no occurrence of the pattern starts |
| Text.SplitAnyJoin | Runtime/CsvParser.cs:228 | String.Split on one character loses nothing: the pieces hold no separator and join back to the input |
| Text.JoinSplitAny | Runtime/CsvParser.cs:228 | splitting a join of separator-free pieces gives the pieces back |
| Text.NonEmpty | Runtime/CsvParser.cs:228 | RemoveEmptyEntries keeps only non-empty pieces of the split, never more than there were |
| Text.SplitAnyPieces | Runtime/CsvParser.cs:228 | no piece of String.Split on a set of characters holds one of those characters |
| Text.SplitLinesSingle | Runtime/CsvParser.cs:34 | splitting on CR LF gives one line exactly when the text holds no CR LF |
| Text.SplitLinesJoin | Runtime/CsvParser.cs:34 | joining the CR LF lines back gives the text |
| CsvLine.RunEnd | Runtime/CsvParser.cs:389 | the unquoted alternative `[^,\r\n]+` covers the maximal run of non-stop characters |
| CsvLine.QuoteClose | Runtime/CsvParser.cs:389 | the quoted alternative closes on a quote strictly inside the text |
| CsvLine.Tokenize | Runtime/CsvParser.cs:386-400 | EnumerateCsvLine yields at most one field per character, and none exactly for the empty line |
| CsvLine.EnumerateCsvLine | Runtime/CsvParser.cs:386-400 | the returned array holds the captured field of every successive match, in order |
| CsvLine.TokenizeUnquoted | Runtime/CsvParser.cs:386-400 | on a line without quotes or line breaks the fields are the comma-separated pieces, a trailing comma opening no field |
| CsvLine.QuoteCloseEscaped | Runtime/CsvParser.cs:389 | backtracking closes a quoted cell on the quote after its body when the body's quotes are doubled |
| CsvLine.FirstMatchCell | Runtime/CsvParser.cs:389-398 | the first match over a written cell captures that cell's field and consumes its comma |
| CsvLine.FirstMatchBare | Runtime/CsvParser.cs:389-398 | the first match over an unquoted cell followed by a comma or the end captures the whole cell |
| CsvLine.FirstMatchQuoted | Runtime/CsvParser.cs:389-398 | the first match over a quoted cell followed by a comma or the end captures its body and consumes both quotes |
| CsvLine.TokenizeEncodeLine | Runtime/CsvParser.cs:386-400 | writing well-formed cells joined by commas and tokenizing gives back every cell's field, quoted commas included |
| CsvTable.RowOfKeys | Runtime/CsvParser.cs:40-60 | a row's keys are exactly the headers not starting with `$` |
| CsvTable.RowOfCells | Runtime/CsvParser.cs:50-59 | column j holds the trimmed token j, or "" past the end of the line |
| CsvTable.ExtendDistinct | Runtime/CsvParser.cs:40-60 | Dictionary.Add fails on a kept header exactly when an earlier kept header has the same name |
| CsvTable.RowsOf | Runtime/CsvParser.cs:38-64 | one row per data line |
| CsvTable.FillRow | Runtime/CsvParser.cs:40-61 | the header loop builds the line's dictionary, failing exactly when a kept header repeats |
| CsvTable.TableRowCount | Runtime/CsvParser.cs:32-67 | one row per line after the first, none without a CR LF; the only failure is a repeated kept header with a data line present |
| CsvTable.TableRow | Runtime/CsvParser.cs:38-64 | every row has the kept headers as keys, each holding its trimmed cell or "" |
| CsvTable.ConvertCsv | Runtime/CsvParser.cs:32-67 | the nested loops compute Table, with one row per line after the header |
| Shapes.DefaultHasShape | Runtime/CsvParser.cs:428-429 | default(T) of every target has that target's shape |
| ScalarParser.ParseInt32 | Runtime/CsvParser.cs:370-375 | Int32 conversion succeeds exactly on a signed digit run in range, with its value; otherwise FormatError, or Overflow for a digit run out of range |
| ScalarParser.ParseFormatInt | Runtime/CsvParser.cs:370-375 | reading back a formatted 32-bit integer gives it back |
| ScalarParser.EnumParse | Runtime/CsvParser.cs:331-334 | Enum.Parse succeeds exactly on a member name and returns the first member of that name |
| ScalarParser.DecoderOrder | Runtime/CsvParser.cs:343-351 | some decoder answers exactly when the first answer is found, and it is the answer of the first decoder that gives one |
| ScalarParser.RunDecoders | Runtime/CsvParser.cs:341-351 | the decoder loop returns the answer of the first decoder that gives one, or none |
| ScalarParser.NoneDecoded | Runtime/CsvParser.cs:343-351 | when no decoder answers the text, the decoder loop finds no answer |
| ScalarParser.ParseTrimmed | Runtime/CsvParser.cs:324 | surrounding white space never changes what Parse returns |
| ScalarParser.DecoderFirstWins | Runtime/CsvParser.cs:341-351 | for integer and custom targets the first answering decoder decides, before any built-in reading |
| ScalarParser.ParseDecoded | Runtime/CsvParser.cs:343-351 | a target the decoders answer parses as the first answer |
| ScalarParser.NoDecoderInt | Runtime/CsvParser.cs:343-375 | an integer target no decoder answers is read by Int32 conversion of the trimmed text |
| ScalarParser.DecodersIgnored | Runtime/CsvParser.cs:326-339 | string, enum and pair targets are read before the decoders, which cannot change their outcome |
| ScalarParser.PairDecodersIgnored | Runtime/CsvParser.cs:409-436 | a pair of decoder-free parts is read the same with or without decoders |
| ScalarParser.ParseHasShape | Runtime/CsvParser.cs:322-384 | with decoders that respect shapes, a parsed value has the shape it was parsed as |
| ScalarParser.PairHasShape | Runtime/CsvParser.cs:409-436 | a parsed key/value pair has a key of the key shape and a value of the value shape |
| ScalarParser.ParseRender | Runtime/CsvParser.cs:322-384 | parsing the cell text of a renderable string, enum member, integer or pair gives the value back |
| ScalarParser.ParseRenderLeaf | Runtime/CsvParser.cs:322-375 | a string, enum member or integer reads back from its cell text |
| ScalarParser.ParseRenderPair | Runtime/CsvParser.cs:409-436 | a pair whose key and value read back from their texts reads back from its own text |
| ScalarParser.ParseIntExamples | Tests/Editor/CsvParserTest.cs:205-217 | "1" reads as 1 and "1.1f" is a format error |
| Collections.ParseAllSpec | Runtime/CsvParser.cs:231-234 | the list succeeds exactly when every piece parses, holds one value per piece in order, and otherwise fails as the first failing piece |
| Collections.ArrayParse | Runtime/CsvParser.cs:226-237 | the loop computes ArrayOf |
| Collections.ReadEach | Runtime/CsvParser.cs:231-234 | the loop stops at the first failing piece and otherwise reads them all |
| Collections.PiecesAtDelim | Runtime/CsvParser.cs:228 | every array character separates alike, and empty pieces vanish |
| Collections.PiecesWord | Runtime/CsvParser.cs:228 | a non-empty text without array characters is one piece |
| Collections.ArrayExample | Tests/Editor/CsvParserTest.cs:154-160 | "1,[2],{3,4},(5),6" reads as the integers 1 to 6 |
| Collections.ArrayOfStr | Runtime/CsvParser.cs:268 | reading a list of strings never fails and gives the trimmed pieces |
| Collections.AddEntryDistinct | Runtime/CsvParser.cs:284 | Dictionary.Add fails exactly on a key already present and otherwise keeps the keys distinct |
| Collections.PairEntriesSound | Runtime/CsvParser.cs:276-286 | a pair-layout dictionary that reads holds item j read as entry j, with no key twice |
| Collections.PairEntriesComplete | Runtime/CsvParser.cs:276-286 | items that all read as pairs with no key read twice always make a dictionary |
| Collections.PairEntriesSpec | Runtime/CsvParser.cs:276-286 | the pair layout succeeds exactly when every item reads as a pair and no key repeats, with one entry per item in order |
| Collections.FlatEntriesSound | Runtime/CsvParser.cs:293-302 | a flat dictionary that reads holds items 2j and 2j + 1 read as entry j, with no key twice |
| Collections.FlatEntriesComplete | Runtime/CsvParser.cs:293-302 | an even number of items that all read, with no key read twice, always makes a flat dictionary |
| Collections.FlatEntriesSpec | Runtime/CsvParser.cs:293-302 | the flat layout succeeds exactly when all items read and no key repeats, entry j pairing items 2j and 2j + 1 |
| Collections.DictionaryParse | Runtime/CsvParser.cs:265-305 | the method computes DictionaryOf: null without items, the pair layout, an odd-count error, or the flat layout |
| Collections.AddPairs | Runtime/CsvParser.cs:278-285 | the pair loop computes the pair layout |
| Collections.AddFlat | Runtime/CsvParser.cs:295-301 | the flat loop computes the flat layout |
| Collections.DictionaryOdd | Runtime/CsvParser.cs:287-292 | an odd number of items without a pair character in the first is an IndexOutOfRange error |
| Collections.DictionaryOddExample | Tests/Editor/CsvParserTest.cs:199-203 | "1,2,3" is an IndexOutOfRange error for any key and value types |
| Collections.DictionaryFlatExample | Tests/Editor/CsvParserTest.cs:183-189 | "1,2,3,4" reads as the dictionary 1 to 2, 3 to 4 |
| Collections.DictionaryPairExample | Tests/Editor/CsvParserTest.cs:191-197 | "1:2,(3>4)" takes the pair layout and reads as the dictionary 1 to 2, 3 to 4 |
| Records.DeserializeObjectFits | Runtime/CsvParser.cs:113-147 | with decoders that respect shapes, whatever DeserializeObject returns fits the field's type, except that an array field gets a list of its element type |
| Records.StoredValueSpec | Runtime/CsvParser.cs:100 | with decoders that respect shapes, SetValue stores a cell exactly when it deserializes into a field that is not an array; an array field is an ArgumentMismatch |
| Records.RecordOfSuccess | Runtime/CsvParser.cs:89-101 | DeserializeTo succeeds exactly when the cell of every present, non-ignored field deserializes and SetValue accepts it |
| Records.RecordOfSound | Runtime/CsvParser.cs:89-101 | a record that deserializes had the cell of every present, non-ignored field deserialize and be stored |
| Records.RecordOfComplete | Runtime/CsvParser.cs:89-101 | when every such cell deserializes and is stored, so does the record |
| Records.RecordOfFailure | Runtime/CsvParser.cs:89-101 | a failure is that of the first such field, in declaration order, whether from the parse or from SetValue |
| Records.RecordOfFields | Runtime/CsvParser.cs:85-103 | the record sets exactly the present, non-ignored fields, each to its cell's stored value; the others keep their default |
| Records.RecordIgnoresOtherColumns | Runtime/CsvParser.cs:89-94 | columns no field is named after do not change the record |
| Records.DeserializeTo | Runtime/CsvParser.cs:82-104 | the field loop computes Record |
| Records.RecordsOfSpec | Editor/GoogleSheetConfigsImporter.cs:94-104 | a list of records succeeds exactly when every row does, holds one record per row in order, and otherwise fails as the first failing row |
| Records.RecordsOfSound | Editor/GoogleSheetConfigsImporter.cs:94-104 | a list of records that reads holds the record of each row, in row order |
| Records.RecordsOfComplete | Editor/GoogleSheetConfigsImporter.cs:94-104 | rows that all read make a list of records |
| Records.RecordsOfFailure | Editor/GoogleSheetConfigsImporter.cs:94-104 | a failing list fails as its first failing row, every earlier row reading |
| Records.ReKeySpec | Runtime/CsvParser.cs:193-200 | a re-keyed row holds exactly the header-mapped columns under their new names, and fails exactly when two of them collide |
| Records.BlockEnd | Runtime/CsvParser.cs:186-190 | the block is the maximal run of `#` rows |
| Records.HeaderMapOf | Runtime/CsvParser.cs:176-183 | the first loop maps every column of the start row whose cell does not end in "[]" to that cell |
| Records.SubRowsSuccess | Runtime/CsvParser.cs:186-206 | the block succeeds exactly when the row ending it has a Key column and every block row re-keys |
| Records.SubRowsContent | Runtime/CsvParser.cs:186-206 | the block holds one re-keyed row per `#` row of the run, in order |
| Records.SubRowsLocal | Runtime/CsvParser.cs:186-190 | rows after the one that ends the block are never examined |
| Records.GetSubListDictionary | Runtime/CsvParser.cs:174-207 | the header loop and the block loop compute SubListRows |
| Records.ReKeyRow | Runtime/CsvParser.cs:193-200 | the inner loop computes ReKey |
| Records.SubListLength | Runtime/CsvParser.cs:152-169 | a sub-list exists only for a field type with a generic argument and holds one element per `#` row after the start row |
| Records.SubListItem | Runtime/CsvParser.cs:152-169 | element j is `#` row j re-keyed through the start row's header map and read by DeserializeTo as the element type |
| Records.DeserializeSubList | Runtime/CsvParser.cs:152-169 | the method computes SubListOf: IndexOutOfRange without a generic argument, else the block's elements |
| Records.AddElements | Runtime/CsvParser.cs:163-166 | the loop adds the element of each block row, in order, and stops at the first that fails |
| Records.DeserializeElement | Runtime/CsvParser.cs:165 | DeserializeTo of the element type: the field loop for a record type, the shape reading otherwise |
| Records.SubListStored | Editor/GoogleSheetConfigsImporter.cs:166-174 | a sub-list can be stored in its field exactly when the field is a list |
| Records.SubListFits | Runtime/CsvParser.cs:156-168 | with decoders that respect shapes, a sub-list of a list field has elements of the field's element type |
| Records.ElementFits | Runtime/CsvParser.cs:165 | with decoders that respect shapes, an element that reads has its element type's shape |
| ConfigsImporter.OnImport | Editor/GoogleSheetConfigsImporter.cs:94-109 | one config per row, in row order, each the DeserializeTo record of its row |
| ConfigsImporter.FieldNamed | Editor/GoogleSheetConfigsImporter.cs:155 | GetField finds a declared field of that name, or none exists |
| ConfigsImporter.ReadRow | Editor/GoogleSheetConfigsImporter.cs:146-174 | the loop body computes the row's outcome RowValue |
| ConfigsImporter.Deserialize | Editor/GoogleSheetConfigsImporter.cs:140-178 | the loop computes the config after every row |
| ConfigsImporter.ConfigSuccess | Editor/GoogleSheetConfigsImporter.cs:144-177 | the loop succeeds exactly when every row does, and otherwise fails as the first failing row |
| ConfigsImporter.ConfigKeysNamed | Editor/GoogleSheetConfigsImporter.cs:155-174 | every field the config sets was set by some row, so a field no row names keeps its default |
| ConfigsImporter.LastRowWins | Editor/GoogleSheetConfigsImporter.cs:144-174 | a field holds the value of the last row that sets it |
| ConfigsImporter.SkipUnknown | Editor/GoogleSheetConfigsImporter.cs:155-160 | a row naming no field is passed over without error |
| ConfigsImporter.SkipContinuation | Editor/GoogleSheetConfigsImporter.cs:148-160 | `#` rows are passed over when no field is named `#` |
| ConfigsImporter.SubListKeyName | Editor/GoogleSheetConfigsImporter.cs:148-153 | for a name that holds no "[]", removing "[]" from `Name[]` gives the name back |
| ConfigsImporter.RowValueCases | Editor/GoogleSheetConfigsImporter.cs:148-174 | a `Name[]` row sets the field to the sub-list starting at it and a `Name` row to its Value cell, each through SetValue |
| ToolImporter.OrderOf | Editor/GoogleSheetToolImporter.cs:121-126 | a type without the attribute has order Int32.MaxValue |
| ToolImporter.ImportersInSpec | Editor/GoogleSheetToolImporter.cs:117-135 | an assembly contributes exactly its concrete types that implement the importer interface |
| ToolImporter.ImportersInSound | Editor/GoogleSheetToolImporter.cs:117-135 | every importer an assembly contributes comes from one of its concrete importer types |
| ToolImporter.ImportersInComplete | Editor/GoogleSheetToolImporter.cs:117-135 | every concrete importer type of an assembly is contributed |
| ToolImporter.ScanTypes | Editor/GoogleSheetToolImporter.cs:117-135 | the inner loop collects the importers of one assembly, in type order |
| ToolImporter.CollectedSpec | Editor/GoogleSheetToolImporter.cs:115-136 | the importers found are exactly the concrete importer types of all assemblies |
| ToolImporter.OrdinalCompare | Editor/GoogleSheetToolImporter.cs:142-144 | ordinal comparison has sign -1, 0 or 1 and is 0 exactly on equal names |
| ToolImporter.OrdinalAntisymmetric | Editor/GoogleSheetToolImporter.cs:142-144 | swapping the names flips the sign |
| ToolImporter.OrdinalTransitive | Editor/GoogleSheetToolImporter.cs:142-144 | ordinal order is transitive |
| ToolImporter.CompareAntisymmetric | Editor/GoogleSheetToolImporter.cs:138-148 | the sort comparison flips sign when its arguments are swapped |
| ToolImporter.CompareTransitive | Editor/GoogleSheetToolImporter.cs:138-148 | the sort comparison is transitive |
| ToolImporter.CompareTies | Editor/GoogleSheetToolImporter.cs:138-148 | two importers tie only with the same order and the same type name |
| ToolImporter.UnorderedLast | Editor/GoogleSheetToolImporter.cs:121-148 | an importer without the attribute sorts after every importer with an order below Int32.MaxValue |
| ToolImporter.SortImporters | Editor/GoogleSheetToolImporter.cs:138-148 | after the sort the importers are in order and are a permutation of those before |
| ToolImporter.GetAllImporters | Editor/GoogleSheetToolImporter.cs:109-150 | the result is sorted and holds exactly the importers found |
| ToolImporter.ReplaceLonger | Editor/GoogleSheetToolImporter.cs:156-157 | replacing "edit#" by the longer export text never shortens the address |
| ToolImporter.SheetUrlFails | Editor/GoogleSheetToolImporter.cs:154-157 | building the address fails exactly for a non-blank id when "/edit#" is missing or comes less than three characters after "/d/" |
| ToolImporter.EditUrlIndices | Editor/GoogleSheetToolImporter.cs:154-155 | in `pre/d/ID/edit#frag` the id starts after the first "/d/" and ends at "/edit#" |
| ToolImporter.EditUrlReplaced | Editor/GoogleSheetToolImporter.cs:156 | in such an address the replacement turns only its "edit#" into "export?format=csv&" |
| ToolImporter.ReplaceOnly | Editor/GoogleSheetToolImporter.cs:156 | String.Replace with a pattern occurring at one position only rewrites that occurrence |
| ToolImporter.SheetUrlRewrite | Editor/GoogleSheetToolImporter.cs:154-157 | the result is the export address of the same sheet, or of the sheet a non-blank id names |
| ToolImporter.ImportSheet | Editor/GoogleSheetToolImporter.cs:167-176 | the downloaded text's rows reach Import exactly when the text holds a CR LF; a repeated header is the only failure |

## Left out

- Floating-point, boolean and other `Convert.ChangeType` targets: only `int` is modelled, as the integer target the tests use; float formats and their culture rules are not modelled.
- `DateTime.Parse` and `TimeSpan.Parse` (Runtime/CsvParser.cs:353-361): date and time formats are not modelled.
- Nullable value types read through `TypeDescriptor` (Runtime/CsvParser.cs:364-368) are not modelled.
- The JSON fallback (Runtime/CsvParser.cs:383) is not computed: a reference type nobody decodes reads as `Opaque(text)`.
- `Enum.Parse` accepts only an exact member name here; numeric values, comma-separated flags and surrounding white space inside the name are not modelled.
- Value-type structs other than Key/Value pairs (which `TryGetKeyValuePair` rejects and `Convert.ChangeType` then handles) are not modelled.
- Reflection and `Activator.CreateInstance`: record types are explicit field lists. `ListOf` is exactly `List<T>`, `ArrayField` is `T[]`, and `DictOf` is exactly `Dictionary<K,V>` or a class deriving from `UnitySerializedDictionary<K,V>` (which `DictionaryParse` instantiates as the field's own type).
- Shapes.FieldType: other collection fields are not modelled. `ArrayParse` always builds a `List<T>` and the `IDictionary` branch of `DeserializeObject` a `Dictionary<K,V>`, so in .NET a `Collection<T>`, `ObservableCollection<T>` or `SortedDictionary<K,V>` field fails with `ArgumentMismatch` at `SetValue`, and a non-generic `ArrayList` or `Hashtable` field fails earlier with `IndexOutOfRange` on its missing generic arguments; the model has no field type for them.
- Collections.AddEntry: dictionary keys are compared by value. .NET compares keys of a class type by reference, so two equal keys read by a JSON decoder, or two equal records, would not collide there, where the model reports `DuplicateKey`.
- Shapes.Default: an enum value is identified with its declaration index and `default(E)` with the first declared member. In .NET `default(E)` is the numeric value 0, which differs for enums with explicit values (`enum R { Common = 1, Rare = 2 }` defaults to `(R)0`, a non-member), and aliases (`A = 0, B = 0`) parse to equal values, so `Dictionary.Add` rejects them as keys where the model sees distinct members. Enums declared with implicit values, as the generated ones are, behave alike in both.
- Records.ShapeInstance: a `[]` sub-list of enum values or of a custom type without a record descriptor fails with `SubListUnsupported`; the source builds enum values (set through the `value__` column, failing on a column named after a member) and instances of the custom type through its public fields, which the model does not know.
- Records.ShapeInstance: a Key/Value struct element reads its fields from the columns "Key" and "Value"; a struct whose fields are named Value1/Value2 is not told apart. The public fields of `Int32` are taken to be `MaxValue` then `MinValue`, in that order.
- Records.SubType: a custom scalar type is taken to have no generic argument, and a dictionary field to be `Dictionary<K,V>` itself; a class deriving from `UnitySerializedDictionary<K,V>` has no generic argument of its own, so its `[]` row would fail with `IndexOutOfRange` rather than with `ArgumentMismatch`.
- Records.SetValue: checks the value's kind (list, dictionary, scalar shape) only; a decoder answer of the wrong type inside a list or dictionary, which `IList.Add` or `IDictionary.Add` would reject in .NET, is not caught.
- CsvLine.TokenizeUnquoted and CsvLine.TokenizeEncodeLine: stated only for lines without CR or LF characters; Tokenize itself models a lone CR or LF too (an empty field, the character skipped) but no lemma describes those lines.
- `StartsWith("$")`, `EndsWith("[]")`, `Trim` and `IsNullOrWhiteSpace` are modelled with ordinal semantics; culture-sensitive comparison is not modelled.
- ToolImporter.OrdinalCompare: strings are sequences of Unicode scalar values, while .NET compares UTF-16 code units; above U+FFFF the two orders differ (U+1D400 sorts after U+FF21 here and before it in .NET), and indices and lengths count scalar values rather than code units.
- Integer parsing ignores culture settings and the `NumberStyles` corner cases (thousands separators, trailing NUL characters).
- ToolImporter.SortImporters: promises a sorted permutation only; `List.Sort` is an unstable introspective sort, so the relative order of two importers that tie (same order and same type name) is not pinned down, and the model sorts by insertion.
- Scanning the loaded assemblies is replaced by a parameter holding each assembly's types; `Activator.CreateInstance` of the importers is not modelled.
- The web request, `async`/`await`, `UnityWebRequest` failures and the final log lines of `ImportSheetAsync` are not modelled: `ImportSheet` receives the downloaded text.
- Logging (`Console.WriteLine`, `Debug.Log`, `Debug.LogWarning`) is not modelled.
- Unity editor plumbing (GUI, ScriptableObject creation, `AssetDatabase`, `EditorUtility.SetDirty`) is not modelled.
- `GetDeserializers()` of the single-config importer is a parameter (`decoders`), as are the user decoders of every parse.
- Null strings and null rows cannot occur in the model.
