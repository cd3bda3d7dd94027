# ADT table decoder, modelled in Dafny

This project models the core of a Ruby gem that decodes Advantage Database
Server `.adt` tables, read-only. An `.adt` file has three parts:

- A 400-byte preamble. It holds the record count, the offset of the data
  and the record length, each an unsigned little-endian 32-bit integer.
- One 200-byte descriptor slot per column. A slot holds a 128-byte name,
  a 16-bit type code and a 16-bit length.
- Fixed-length records, one after another. Each record starts with a flag
  byte, and `*` marks a deleted record.

The model covers these parts of the gem:

- `ADT::Header`: the preamble and the column count it implies.
- `ADT::Column`: name cleaning, validation, cast dispatch, the decoding
  flag, `to_hash` and the underscored alias of a name.
- `ADT::ColumnType`: the casts from field bytes to values.
- `ADT::Record`: decoding the fields in column order after four skipped
  bytes, the attribute hash, `to_a`, lookup by name or alias, `==` and
  `match?`.
- `ADT::Table`: the lazily read header and column list, memoised, plus
  record access through the file position.
- `ADT::Schema`: the ActiveRecord and JSON schema texts.
- `ADT::Rails`: `camelize` and the generated model class.

The open file is modelled as its bytes plus a read position. Table
operations are pure functions that return a result together with the
table they leave behind.

| file | module | what it holds |
|---|---|---|
| `wrappers.dfy` | `Wrappers` | `Option` and `Result` |
| `bytes.dfy` | `Bytes` | little-endian integers and their encoders; `IO#read` at a position |
| `text.dfy` | `RubyText` | Ruby's `strip`; ASCII case; decimal text |
| `column_type.dfy` | `ColumnTypes` | values and the per-type casts |
| `column.dfy` | `Columns` | the column record and its operations |
| `header.dfy` | `Headers` | the preamble |
| `record.dfy` | `Records` | field decoding and the attribute hash |
| `table.dfy` | `Tables` | descriptor slots, the memoised table and record access |
| `schema.dfy` | `Schemas` | schema generation |
| `rails.dfy` | `RailsModel` | `camelize` and the model text |

## Model

| member | source | states |
|---|---|---|
| Bytes.U32RoundTrip | lib/adt/header.rb:15-17 | the 32-bit little-endian reading that `unpack("I")` performs inverts the encoding of every 32-bit number |
| Bytes.EncodeU32OfU32At | lib/adt/header.rb:15-17 | conversely, encoding the number read at an offset gives back the four bytes there |
| Bytes.ReadAt | lib/adt/table.rb:84 | `read(n)` gives nil exactly when n > 0 and the position is at or past the end; otherwise it gives the next bytes, at most n of them, fewer only at the end of the file, and moves past them |
| Bytes.ReadAtSamePlace | lib/adt/record.rb:62-64 | two positions at or past the end of the data read the same way, so a cursor clipped to the end behaves like the nominal one |
| RubyText.Strip | lib/adt/column_type.rb:73-74 | `strip` leaves the core of the text: no whitespace or NUL at either end, with only whitespace or NUL removed around it; it is empty exactly when the text is blank |
| RubyText.StripIsCore | lib/adt/column_type.rb:17 | stripping gives a trimmed text `core` exactly when the input is `core` padded with whitespace or NUL on both sides |
| RubyText.DecimalRoundTrip | lib/adt/column.rb:42 | the decimal text that `to_s` produces for a length reads back as that length |
| ColumnTypes.BooleanCast | lib/adt/column_type.rb:15-23 | a boolean is false exactly when the field is `F` padded with whitespace or NUL; every other field, `f` and a blank field included, is true |
| ColumnTypes.IntegerCastAsWritten | lib/adt/column_type.rb:25-35 | the integer cast as written: nil for a field that is blank after `strip`, nil for the sentinel 2147483648, 0 for fewer than four bytes, otherwise the unsigned little-endian 32-bit value |
| ColumnTypes.IntegerCastAsWrittenDropsTen | lib/adt/column_type.rb:27 | the stored integer 10 (`0A 00 00 00`) is read back as nil by the cast as written |
| ColumnTypes.IntegerCast | lib/adt/column_type.rb:25-35 | the corrected integer cast: nil only for an empty field or the sentinel; 0 for one to three bytes; otherwise the 32-bit value |
| ColumnTypes.IntegerCastRoundTrip | lib/adt/column_type.rb:29 | every 32-bit integer except the sentinel survives encoding and the corrected cast, whatever follows it in the field |
| ColumnTypes.DateCast | lib/adt/column_type.rb:37-48 | a date is the Julian day in the first four bytes; day 0, and a field too short for `unpack`, give nil |
| ColumnTypes.DateCastRoundTrip | lib/adt/column_type.rb:38-40 | every non-zero 32-bit day number survives encoding and the cast |
| ColumnTypes.DateTimeCast | lib/adt/column_type.rb:50-60 | a timestamp is the day in bytes 0-3 and the milliseconds in bytes 4-7, truncated to whole seconds; a field shorter than eight bytes raises |
| ColumnTypes.DateTimeCastRoundTrip | lib/adt/column_type.rb:51-54 | an encoded day and millisecond count come back as the day and the whole seconds |
| ColumnTypes.CurDoubleCast | lib/adt/column_type.rb:62-70 | a currency double is the 64-bit pattern in the first eight bytes, nil when it compares below 0.001; a shorter field raises |
| ColumnTypes.CurDoubleCastRoundTrip | lib/adt/column_type.rb:64 | an encoded pattern comes back as itself when it is not below the threshold, and as nil when it is |
| ColumnTypes.StringCast | lib/adt/column_type.rb:72-81 | text is the field without surrounding whitespace or NUL, and is trimmed |
| ColumnTypes.StringCastRoundTrip | lib/adt/column_type.rb:73-74 | trimmed text padded with whitespace or NUL on either side comes back unchanged |
| ColumnTypes.Cast | lib/adt/column_type.rb:5-81 | each strategy gives a value of its own shape; on nil data (a read at the end of the file) only `Nil` and `Date` answer, with nil, and every other strategy raises; the only strategies that raise on bytes are `DateTime` and `CurDouble` |
| ColumnTypes.IntegerCastDiffersOnlyOnBlank | lib/adt/column_type.rb:26-30 | the corrected integer cast gives a different answer from the cast as written only on a non-empty field made wholly of NUL and whitespace bytes, which the cast as written reads as nil |
| Columns.Clean | lib/adt/column.rb:72-75 | a cleaned name is the stripped name cut before its first NUL, with every character outside 0x20 to 0x7E dropped and every other occurrence kept; it is never longer than the raw name, and an already printable, trimmed name is kept as it is |
| Columns.CleanNameUnchanged | lib/adt/column.rb:72-75 | strip, cut at the first NUL and drop non-printables leave a printable trimmed name alone |
| Columns.KeepPrintableCounts | lib/adt/column.rb:74 | the character filter keeps every occurrence of each printable character and no occurrence of any other |
| Columns.KeepPrintableAppend | lib/adt/column.rb:74 | filtering a concatenation filters each part, so the kept characters stay in their order |
| Columns.KeepPrintableSingle | lib/adt/column.rb:74 | a single character is kept exactly when it lies in 0x20 to 0x7E |
| Columns.New | lib/adt/column.rb:28-35 | `Column.new` raises `LengthError` exactly when the length is negative, and otherwise `NameError` exactly when the cleaned name is empty; a built column holds the cleaned name, the type and the length |
| Columns.CodeKind | lib/adt/column.rb:12-21 | type codes 1, 3, 11, 14 and 17 map to Boolean, Date, Integer, DateTime and CurDouble; every other code maps to String |
| Columns.TypeCastKind | lib/adt/column.rb:85-90 | a zero-length column uses the `Nil` strategy, whatever its code; any other column uses the strategy of its code |
| Columns.TypeCast | lib/adt/column.rb:10 | a zero-length column casts everything to nil; any value a column yields has the shape of its strategy |
| Columns.Flag | lib/adt/column.rb:40-45 | a string column's flag is `A` followed by the length in decimal digits, which read back as that length; every other strategy reports its own one-letter flag or none |
| Columns.ToHash | lib/adt/column.rb:50-52 | the hash has exactly the keys name, type and length, and the column can be rebuilt from it |
| Columns.ColonsToSlash | lib/adt/column.rb:62 | after `gsub(/::/, '/')` no `::` is left; text without `::` is unchanged |
| Columns.ColonsToSlashAt | lib/adt/column.rb:62 | each `::` becomes exactly one `/`: a colon-free prefix is copied, the first `::` after it becomes `/`, and the rest is rewritten the same way |
| Columns.ColonsToSlashExample | lib/adt/column.rb:62 | `A::B` becomes `A/B` |
| Columns.SplitAcronyms | lib/adt/column.rb:63 | the acronym split keeps the first character of the name |
| Columns.SplitAcronymsAtRun | lib/adt/column.rb:63 | a run of two or more capitals before a lower-case letter gets `_` before its last capital, and the scan resumes after that letter |
| Columns.SplitAcronymsOneAcronym | lib/adt/column.rb:63 | an acronym followed by one capitalised word without further capitals gets exactly one `_`, between the acronym and the word's capital, and nothing else changes |
| Columns.SplitAcronymsExample | lib/adt/column.rb:63 | `HTMLParser` becomes `HTML_Parser` |
| Columns.UnderscoredNameAcronymExample | lib/adt/column.rb:60-68 | the alias of `HTMLParser` is `html_parser` |
| Columns.CamelSplit | lib/adt/column.rb:64 | splitting lower-to-upper boundaries keeps the first character, changes nothing in text without capitals, and creates no `::` |
| Columns.UnderscoredName | lib/adt/column.rb:60-68 | the alias of a name has no capital letter, no `-` and no `::` |
| Columns.UnderscoredNameIdempotent | lib/adt/column.rb:60-68 | the alias of an alias is the alias itself |
| Columns.UnderscoredNameInsertsOnlyUnderscores | lib/adt/column.rb:60-68 | apart from `_`, the alias is the name with `::` turned into `/`, `-` into `_`, and lower-cased; the two regex substitutions only insert underscores |
| Columns.SplitAcronymsInsertsOnlyUnderscores | lib/adt/column.rb:63 | splitting an acronym from the word after it only inserts underscores |
| Columns.CamelSplitInsertsOnlyUnderscores | lib/adt/column.rb:64 | splitting a lower-case letter or digit from the capital after it only inserts underscores |
| Columns.SplitAcronymsNoAcronym | lib/adt/column.rb:63 | a name with no two capitals in a row is left alone by the acronym split |
| Columns.CamelSplitNoHump | lib/adt/column.rb:64 | a name with no lower-case letter or digit before a capital is left alone by the camel-case split |
| Columns.CamelSplitOneHump | lib/adt/column.rb:64 | two hump-free words meeting at a lower-to-upper boundary get exactly one underscore, at the join |
| Columns.UnderscoredNameOfTwoWords | lib/adt/column.rb:60-68 | a two-word alphanumeric name such as `ColumnName` is aliased as both words in lower case joined by `_` |
| Columns.NewKeepsCleanName | lib/adt/column.rb:28-35 | a column built from a non-empty, printable, trimmed name and a non-negative length keeps exactly that name, type and length |
| Columns.NewExample | spec/adt/column_spec.rb:8-26 | `Column.new 'ColumnName', 4, 1` stores name, type 4 and length 1, and length 0 is accepted |
| Columns.LengthErrorExample | spec/adt/column_spec.rb:28-32 | length -1 raises `LengthError`, even with an empty name |
| Columns.NameErrorExample | spec/adt/column_spec.rb:34-38 | an empty name raises `NameError` |
| Columns.ToHashExample | spec/adt/column_spec.rb:40-44 | `to_hash` of that column is name `ColumnName`, type 4, length 1 |
| Columns.UnderscoredNameExample | spec/adt/column_spec.rb:46-50 | the alias of `ColumnName` is `column_name` |
| Columns.IntegerColumnExamples | spec/adt/column_spec.rb:54-80 | an integer column flags `i`; it casts an empty value and any value of a zero-length column to nil, and the bytes 3, 0, 0, 0 to 3 |
| Columns.AsciiNameExample | spec/adt/column_spec.rb:85-90 | the name `thiséeë` is cleaned to `thise` |
| Headers.ParseHeader | lib/adt/header.rb:9-17 | a preamble parses exactly when the file has the 40 bytes that `@24 I x4 I I` needs; the three counts are the 32-bit values at bytes 24, 32 and 36 |
| Headers.ColumnCount | lib/adt/header.rb:12 | the column count is the floor of (data offset - 400) / 200, so the slots fit between the preamble and the data |
| Headers.ColumnCountUnique | lib/adt/header.rb:12 | that floor bound determines the column count |
| Headers.HeaderDependsOnFieldBytes | lib/adt/header.rb:15-17 | only bytes 24 to 39 of the file matter to the header |
| Headers.HeaderDeterminesFieldBytes | lib/adt/header.rb:15-17 | two files with the same header agree on bytes 24-27 and 32-39; bytes 28-31 are skipped |
| Headers.ParseEncodeHeader | lib/adt/header.rb:9-17 | a preamble encoding a header parses back to that header, whatever follows it |
| Records.AllOk | lib/adt/record.rb:58-60 | building the attribute list succeeds exactly when every column's cast does; otherwise it raises the first error in column order |
| Records.NominalCasts | lib/adt/record.rb:66-69 | column i is cast from the bytes at its nominal offset, after the four skipped bytes and the lengths of the columns before it |
| Records.DecodeFromAtOffsets | lib/adt/record.rb:8-12 | reading the fields one after another from position 4 gives the same values as reading each at its nominal offset, even past the end of the data |
| Records.ValuesAtOffsets | lib/adt/record.rb:58-69 | a record's values are its columns' casts of the bytes at their nominal offsets |
| Records.SkippedBytesIgnored | lib/adt/record.rb:10 | the first four bytes of a record never affect its values |
| Records.AttributeMap | lib/adt/record.rb:17-19 | the attribute hash has a key for every column name and no other keys |
| Records.LaterColumnWins | lib/adt/record.rb:18 | when two columns share a name, the hash holds the value of the later one |
| Records.Attributes | lib/adt/record.rb:17-19 | the attributes exist exactly when every field decodes, with a key for each column name |
| Records.ToA | lib/adt/record.rb:24-26 | `to_a` has one entry per column: the hash's value for that column's name |
| Records.ToAIsValues | lib/adt/record.rb:24-26 | with distinct column names, `to_a` is the decoded values in column order; otherwise each last-of-its-name column still gets its own value |
| Records.FirstIndexOf | lib/adt/record.rb:43 | `index` gives the first position holding the key, or nil when none does |
| Records.Lookup | lib/adt/record.rb:39-46 | `[]` answers from the hash when the key is a column name; otherwise from the first column whose alias is the key; otherwise nil |
| Records.LookupByName | lib/adt/record.rb:39-42 | a column's own name finds its value when it is the last column with that name |
| Records.LookupByAlias | lib/adt/record.rb:43-44 | a column's alias finds its value when the alias is no column's name and no earlier column has the same alias |
| Records.Equal | lib/adt/record.rb:52-54 | two records are equal exactly when each column name of either is a name of the other and, at each name, the value of the last column with that name is `==` to the other record's value there |
| Records.EqualSymmetric | lib/adt/record.rb:52-54 | record equality is symmetric |
| Records.TimestampsCompareAsInstants | lib/adt/record.rb:53 | timestamps compare as instants: a day plus 86400 seconds equals the next day, and one second apart is unequal |
| Records.SelfEqualUnlessNaN | lib/adt/record.rb:53 | two attribute hashes built separately from the same values are `==` exactly when they hold no NaN double |
| Records.SameBytesEqual | lib/adt/record.rb:52-54 | two records decoded separately from the same bytes and columns are equal exactly when none of their values is NaN |
| Records.Match | lib/adt/record.rb:32-34 | `match?` holds exactly when every option's key looks up a value equal to the option's value |
| Tables.Open | lib/adt/table.rb:23-26 | a newly opened table is at position 0 with nothing memoised, so its memos are truthful |
| Tables.ATrim | lib/adt/table.rb:71 | the `A128` directive removes exactly the trailing spaces and NULs |
| Tables.ParseSlot | lib/adt/table.rb:71 | a slot unpacks exactly when it has the 137 bytes the template needs; the codes are 16-bit and the name is trimmed and at most 128 characters long |
| Tables.SlotRoundTrip | lib/adt/table.rb:66-71 | a slot written with a trimmed name, a type and a length unpacks to that name, type and length |
| Tables.SlotFrom | lib/adt/table.rb:71-74 | a slot gives an error when `read(200)` gives nil or a slot too short to unpack; it is skipped exactly when its length is 0; a kept column is well formed with a positive length |
| Tables.Keep | lib/adt/table.rb:70-75 | the column list is built exactly when no slot raises, and otherwise the first slot error is raised; it holds exactly the columns of the kept slots |
| Tables.KeepAppend | lib/adt/table.rb:70-75 | keeping the slots of two runs in a row gives the first run's columns followed by the second's, or the first error met |
| Tables.SlotCount | lib/adt/table.rb:70 | `times` runs the column count times, and not at all when that count is negative |
| Tables.ColumnsOf | lib/adt/table.rb:62-81 | every column a file lists is well formed and has a positive length, and a file lists no more columns than its header counts |
| Tables.ScanSlots | lib/adt/table.rb:70-75 | the loop over the slots keeps at most one column per slot, each usable, and it keeps them even when it stops on an error |
| Tables.ScanAtSlots | lib/adt/table.rb:65-75 | reading slots one after another through the cursor gives the result of decoding each slot at its own offset |
| Tables.GetHeader | lib/adt/table.rb:88-93 | on success `header` restores the position and memoises the header; with truthful memos it answers what the file says and leaves the memos truthful |
| Tables.HeaderMemoised | lib/adt/table.rb:88-93 | once `header` has succeeded, asking again gives the same header and leaves the table as it was |
| Tables.GetColumnsAsWritten | lib/adt/table.rb:56-81 | `columns` as written always leaves a list memoised; on success it restores the position and memoises the list it returns |
| Tables.ColumnsAsWrittenForgetsFailure | lib/adt/table.rb:69 | on an empty file the first `columns` call raises, but the second returns an empty list |
| Tables.GetColumns | lib/adt/table.rb:56-81 | the corrected `columns` restores the position and memoises only on success; with truthful memos it answers what the file says and leaves the memos truthful |
| Tables.ColumnsMemoised | lib/adt/table.rb:56-58 | once the corrected `columns` has succeeded, asking again gives the same list and leaves the table as it was |
| Tables.ColumnsAsWrittenAgreesOnSuccess | lib/adt/table.rb:56-81 | whenever the as-written `columns` succeeds, it returns and leaves the same as the corrected one |
| Tables.RecordIn | lib/adt/table.rb:46-51 | a negative offset raises; a flag byte of `*` or one past the end of the file gives nil; a live flag gives a record exactly when the columns read and, for a positive record length, at least one byte follows the flag; the record holds the table's columns and the next `record_length` bytes, cut short only at the end of the file |
| Tables.RecordOf | lib/adt/table.rb:46-51 | a header that does not parse raises; otherwise, at `data_offset + index * record_length`, a negative offset raises, a `*` flag or the end of the file gives nil, and a live flag gives a record exactly when the columns read and the data is there; a record has exactly the file's columns and holds the bytes after its flag byte, at most one record length of them |
| Tables.GetRecord | lib/adt/table.rb:46-51 | `record` leaves the file alone and keeps truthful memos truthful |
| Tables.RecordAtOffset | lib/adt/table.rb:47-50 | reading at a record offset leaves the file alone and keeps truthful memos truthful |
| Tables.RecordThroughCursor | lib/adt/table.rb:46-51 | with truthful memos, reading a record through the seek, the flag byte and the read gives the record the file lays out at `data_offset + index * record_length` |
| Tables.RecordFieldInFile | lib/adt/table.rb:50 | the field of column j in a record is the file's bytes at the record offset + 1 + 4 + the lengths of the earlier columns |
| Schemas.OtherDataType | lib/adt/schema.rb:6-16 | exactly codes 1, 3, 6, 10, 11, 12, 14, 15 and 17 have their own schema type |
| Schemas.SchemaDataType | lib/adt/schema.rb:74-85 | each schema type comes from exactly its codes; every other code becomes `:string, :limit => 255` |
| Schemas.ParseDefinition | lib/adt/schema.rb:70-72 | a recognised line is the quoted alias, a comma and space, the type and a newline |
| Schemas.DefinitionRoundTrip | lib/adt/schema.rb:70-72 | a column's definition line reads back as the column's alias and schema type |
| Schemas.ColumnLinesAppend | lib/adt/schema.rb:55-57 | the column lines of two column lists in a row are the lines of the first followed by those of the second |
| Schemas.ActiveRecordSchema | lib/adt/schema.rb:52-60 | the schema opens `create_table` with the table name, says `{id: false}` exactly when a column is named `id` in any case, and ends the block |
| Schemas.OneMoreColumn | lib/adt/schema.rb:55-58 | one more column, not changing the id test, adds exactly its `t.column` line before the end of the block |
| Schemas.JsonHashes | lib/adt/schema.rb:62-64 | the JSON schema has one hash per column, and each hash rebuilds its column |
| Schemas.ErrorTailText | lib/adt/schema.rb:45 | the list of valid schemas in the message, `FORMATS.join(', ')`, reads `activerecord, json` |
| Schemas.Schema | lib/adt/schema.rb:41-46 | `schema` succeeds exactly for activerecord and json and gives that schema; any other format raises with exactly the message `:<format> is not a valid schema. Valid schemas are: activerecord, json.` |
| RailsModel.CapitalizeFirst | lib/adt/rails.rb:15 | capitalising the leading run of lower-case letters and digits upper-cases the first character and leaves every other character as it was; an empty name stays empty |
| RailsModel.Camelize | lib/adt/rails.rb:13-20 | no `_` and no `/` is left in a camelized name |
| RailsModel.CamelizeAppendRun | lib/adt/rails.rb:19 | a `_` or `/` followed by a run of lower-case letters and digits camelizes to that run capitalised, preceded by `::` for a `/`, after whatever the text before it camelizes to |
| RailsModel.CapitalizeRunsAppend | lib/adt/rails.rb:19 | the run capitalisation of two texts in a row, the second not starting with a lower-case letter or digit, is that of the first followed by that of the second |
| RailsModel.CamelizeExample | lib/adt/rails.rb:13-20 | `ab_cd` camelizes to `AbCd` |
| RailsModel.CamelizeOnlyDropsUnderscores | lib/adt/rails.rb:13-20 | apart from case, camelizing only drops underscores and turns each `/` into `::` |
| RailsModel.CamelizeWithoutSeparators | lib/adt/rails.rb:13-20 | a name with no `_` and no `/` only has its first character capitalised |
| RailsModel.ModelText | lib/adt/rails.rb:5-9 | the model is `class`, the camelized table name, `< ApplicationRecord`, and `self.table_name` set to the unchanged table name |

## Left out

- Opening, closing and `closed?` of the file, and `FileNotFoundError`, are file I/O. A table is built from the bytes of the file (`Tables.Open`).
- The calendar is left out. `Date.jd` and `Time.at(...).to_datetime` are not modelled: a date stays a Julian day number, and a timestamp stays a day with whole seconds. The local time zone is also outside the model.
- `unpack` directives `S`, `L`, `I` and `D` use the host's byte order. The model reads them little-endian, as on a little-endian host. A big-endian host is outside the model.
- The IEEE-754 value of a `CurDouble` is left out. The model keeps the 64-bit pattern and decides `< 0.001` on the pattern, since floating point is outside the model.
- ColumnTypes.StringCast: does not model the UTF-8 repair (`force_encoding` and `encode` with replacement). It returns the stripped text one character per byte, because encoding repair is outside the model.
- Record attribute access through `method_missing` and `respond_to_missing?` is reflection. The lookup it performs is modelled as `Records.Lookup` on aliases.
- Records.Match: compares values as `Records.Equal` does, so the cross-class cases below apply. For example, the option value 3.0 never matches an integer 3, although `3 == 3.0` holds in Ruby.
- Records.Equal: compares attribute hashes only. A receiver that does not respond to `attributes` is not modelled. Equality between Ruby values of different classes is not modelled either: an integer and a float, or a date and a timestamp, are always unequal here. Timestamps compare as instants in a zone with a fixed offset. A zone with daylight saving, where a day is not 86400 seconds, is outside the model.
- Records.SelfEqualUnlessNaN: is stated for two hashes built separately. Ruby's `Hash#==` and `rb_equal` answer true for the very same object before comparing values, so a record compared with itself is equal even when it holds a NaN. Object identity is not modelled.
- `Header.new` is passed a String and the header memo forwards `column_count`, which the source does not define. These mismatches are modelled as intended: the preamble is read from the file and the column count comes from the header.
- Schemas.Schema: takes a column list that has already been read. In the source, `schema` reads `columns` inside the rescued `send`. A failed read there raises NoMethodError, from `nil.unpack` at lib/adt/table.rb:71 or from `nil > 0` at :72. NoMethodError is a NameError, so `rescue NameError` at lib/adt/schema.rb:44 reports it as "not a valid schema" even for activerecord or json. The model does not combine reading the columns with generating the schema.
- RailsModel.ModelText: takes the table name as a parameter. lib/adt/rails.rb:6-7 calls `name`, which `ADT::Table` does not define, and `ADT::Table` includes neither `ADT::Rails` nor `ADT::Schema`. So calling `model` on a table would raise NoMethodError, which the model does not produce. The model shows the text `model` is meant to build for a given name.
- `activerecord_schema` calls `name` and `columns.map(&:downcase)`, neither of which is defined on the table or on a column. The rescue in `schema` would turn that NameError into an `ArgumentError`. The model follows the intent instead: the table name is a parameter and the id test runs over the column names.
- `table_only` in `schema` is ignored by both generators and is not modelled.
- Schemas.JsonHashes: stops at the list of column hashes. The `to_json` serialisation is not modelled, because JSON text encoding is outside the model.
- `camelize` with `uppercase_first_letter = false` is never called and is not modelled.
- lib/adt.rb is not part of this model; it only loads the library.
- Headers.ParseHeader: a preamble of 36 to 39 bytes is treated as an error. In Ruby it gives a nil record length that fails only later.
- Tables.RecordIn: raises `MissingRecordData` where Ruby's `StringIO.new(nil)` would raise a `TypeError`. Only that an error is raised is modelled, not its class.
- Tables.GetRecord: its contract states only that the file is unchanged and truthful memos stay truthful. What it returns is stated by `Tables.RecordThroughCursor` against `Tables.RecordOf`. It asks the corrected `Tables.GetColumns` for the column list, as does `Tables.RecordAtOffset`. The source calls `columns` as written at lib/adt/table.rb:50, which keeps a partial list memoised after a failure (the first row under "## Findings"). So after a failed `record` call, Ruby can build a later record over that partial list, and the model raises again.
- ColumnTypes.Cast: decodes an integer field with the corrected `ColumnTypes.IntegerCast`, not with `ColumnTypes.IntegerCastAsWritten` (the second row under "## Findings"). So `Columns.TypeCast` and every record decode read a non-empty field of NUL and whitespace bytes as a number where Ruby gives nil. `ColumnTypes.IntegerCastDiffersOnlyOnBlank` states that this is the only difference.
- Columns.CodeKind: follows the intended default. lib/adt/column.rb:12-21 freezes `TYPE_CAST_CLASS` and then assigns its `default`. That assignment raises `FrozenError` when the class is loaded. The model gives every unlisted code the String strategy, as the assignment intends.
- The memo in `Column#underscored_name` and in `Record#attributes` is not modelled. Both are recomputed on every call, which gives the same value because the inputs never change.

## Findings

| source | as written | input that shows it | evidently intended | confidence | as-written member | corrected member |
|---|---|---|---|---|---|---|
| lib/adt/table.rb:62-81 | `build_columns` memoises `@columns = []` before it reads the header and the slots, and `safe_seek` restores the position only on success | an empty file: the first `columns` call raises on the short preamble, the second returns `[]` | memoise the column list only once it is built, and always restore the position | not executed | Tables.ColumnsAsWrittenForgetsFailure | Tables.GetColumns |
| lib/adt/column_type.rb:27 | `return nil if value.strip.empty?` runs on the binary field, and `strip` removes whitespace and NUL bytes | the integer 10, stored as `0A 00 00 00` (and any other value whose four bytes are all NUL or whitespace, such as 0, 2560 or 538976288; `ColumnTypes.IntegerCastDiffersOnlyOnBlank` states the whole set) | nil only for an empty field or the sentinel 2147483648 | not executed | ColumnTypes.IntegerCastAsWrittenDropsTen | ColumnTypes.IntegerCastRoundTrip |
