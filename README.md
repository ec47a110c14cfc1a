# arison: schema-inferring import, modelled in Dafny

arison loads JSON records into a relational table whose schema is not known in
advance. This project models its import engine:

- **Type inference.** `get_type` maps a field name and a sample value to a column
  type. The timestamp guard `to_time_or_nil` decides which strings count as
  timestamps. There are two copies of each, one in `Arison::Util` and one in
  `Arison::Core`, and they differ.
- **Input splitting.** `parse_json` reads one JSON document, or JSON Lines when
  the whole buffer does not parse. Both copies are modelled.
- **Schema evolution.** `get_limit_hash`, `get_column_schema` and the CREATE
  TABLE block of `get_create_table_dsl` describe a new table. `get_add_column_dsl`
  and `add_column_live` add every missing column record by record, and
  `create_table` combines the two.
- **Import.** The per-record sanitiser cuts each String to the `limit` entry
  that `get_limit_hash` read for its key, and leaves it whole when that entry is nil.
  One instance is built per record, and the instances go to the backend in
  groups of 10,000.

The modules follow the source:

- `Values`: Ruby values, records and column types.
- `Util`: lib/arison/util.rb.
- `Catalog`: the backend, as a class `Database`. It holds a map from table name
  to its column list, plus the log of accepted bulk inserts.
- `CoreUtil`: core.rb's own `get_type`, `to_time_or_nil` and `parse_json`.
- `CoreSchema`: the DDL builders, and `add_column_live` as a plan of
  `add_column` lines.
- `CoreSync`: `create_table` and `add_column_live` as methods on the `Database`,
  each proved against a function of the old catalog.
- `CoreImport`: `import`.

Several things in the source are parameters of the model:

- `String#to_time` followed by `to_i` is a `TimeParser`. It returns the epoch
  seconds, or None when parsing raises.
- `JSON.parse` is a `JsonParser`.
- Attribute assignment is a predicate on the sanitised record.
- Whether the backend accepts a bulk insert is the `Database`'s `acceptsBatch`.

Evaluating a generated DDL block becomes a structured operation on the catalog.
The operation is refused where Ruby or the backend would raise:

- a CREATE TABLE for an existing table;
- a CREATE TABLE with two columns of the same name;
- an `add_column` whose type is nil, which leaves a bare `:` in the DDL text;
- an `add_column` for a missing table or an existing column.

Where the code and the repository's tests disagree, the model follows the code:

- `Core#import` (lib/arison/core.rb:33-56) does not create the table. It reads
  the limits of an existing one, so on a missing table it raises, and the model
  returns `UndefinedTable`. The tests expect import to create tables
  (spec/core_spec.rb:176-195). The scenario lemma `CoreSync.DynamicTableScenario`
  states what those tests expect, through `create_table`.
- `import` performs no validation of empty or non-Array data, although the tests
  expect `ArgumentError` (spec/core_spec.rb:73-83).
- The sanitiser only truncates Strings. Arrays and Hashes are passed on
  unserialised.

Ruby's `^` and `$` anchor at every line, not only at the ends of the string, so
`/^id$/i` also reserves a multi-line name with an `id` line. The model keeps
this (`Util.MatchesId`).

## Model

| member | source | states |
|---|---|---|
| Util.MatchesIdSingleLine | lib/arison/util.rb:49-50 | for a name without a newline, `/^id$/i` matches exactly the two-letter names i/I followed by d/D |
| Util.MatchesIdOnAnyLine | lib/arison/util.rb:49-50 | with line anchors, "note\nid" and "ID\nnote" are reserved, while "idx" and "uid" are not |
| Util.SliceMatchesIffLeadingDigits | lib/arison/util.rb:74 | the line-anchored four-digit regex on the first four characters holds exactly when the string starts with four ASCII digits |
| Util.ToTimeOrNil | lib/arison/util.rb:71-82 | a time is returned iff the value is a String with at least four characters, the first four ASCII digits, and a successful parse at or after the epoch; the returned time is that parse |
| Util.GetType | lib/arison/util.rb:46-66 | nil means a non-nil value under a reserved `id` name, and only that; a nil value is `string` under any name; a String is `datetime` exactly when `to_time_or_nil` gives a time |
| Util.GetTypeDecisionOrder | lib/arison/util.rb:51-65 | for a non-nil value under an unreserved name: boolean, integer, float, text for Array/Hash, datetime for time-like objects, the String rule, and `string` for any other class |
| Util.GetTypeExamples | spec/util_spec.rb:97-123 | `any_column` with nil is a string; `id` and `ID` with a number are skipped; `name` with `Alice` is a string; `created_at` with a timestamp the parser reads is a datetime |
| Util.GetTypeKindExamples | spec/util_spec.rb:125-165 | `true` and `false` are boolean, 30 is integer, 19.99 is float, an array and a hash are text, a time and a date are datetime |
| Util.ToTimeOrNilExamples | spec/util_spec.rb:168-206 | `hello world`, `abc-12-25` and the empty string are never times, whatever the parser says; both timestamp formats give the parser's time when it is not before 1970; 1900-01-01 read as a time before 1970 gives nil |
| Util.NewlineFromIsFirst | lib/arison/util.rb:30 | the line cutter stops at the first newline |
| Util.LinesConcat | lib/arison/util.rb:30 | `String#lines` loses nothing: the lines joined are the buffer, none is empty, each line but the last ends in a newline, and no line holds a newline before its end |
| Util.ParseJson | lib/arison/util.rb:24-40 | the whole-buffer parse when it succeeds; otherwise an Array of the parses of the non-blank lines that parse, in line order, with bad lines skipped |
| Util.ParsedLinesBound | lib/arison/util.rb:30-37 | the fallback yields at most one value per non-blank line, and exactly one when every non-blank line parses |
| Util.ParsedLinesAppend | lib/arison/util.rb:30-37 | lines are read independently: the fallback over two runs of lines is the concatenation of the two |
| CoreUtil.ToTimeOrNil | lib/arison/core.rb:145-153 | a time is returned iff the four-character slice is four digits and the parse succeeds at or after the epoch, without the length test of the util.rb copy |
| CoreUtil.ToTimeOrNilAgrees | lib/arison/core.rb:145-153 | the core.rb guard and the util.rb guard agree on every String |
| CoreUtil.GetType | lib/arison/core.rb:125-143 | nil means a non-nil value under a reserved name or an object of an unrecognised class; a nil value is `string` |
| CoreUtil.GetTypeAgrees | lib/arison/core.rb:125-143 | the two `get_type` copies agree except on unrecognised classes under an unreserved name, where util.rb says `string` and core.rb nil |
| CoreUtil.ParseEveryLine | lib/arison/core.rb:96-98 | the fallback succeeds iff every line parses, and then holds one parse per line, in order |
| CoreUtil.ParseJson | lib/arison/core.rb:91-101 | the whole-buffer parse when it succeeds; otherwise every line parsed in order, and failure as soon as one line (a blank one included) does not parse |
| CoreUtil.ParseEveryLineExtends | lib/arison/core.rb:96-98 | a failing line fails the whole fallback, whatever follows it |
| CoreUtil.ParseAgreesOnCleanLines | lib/arison/core.rb:91-101 | on lines that are all non-blank and parse, the core.rb and util.rb fallbacks give the same values |
| CoreSchema.LimitHash | lib/arison/core.rb:155-160 | the limit hash has exactly the table's column names as keys |
| CoreSchema.LimitHashUnlimited | lib/arison/core.rb:155-160 | when no column carries a `limit` entry, every key's limit in the hash is nil |
| CoreSchema.LimitHashOf | lib/arison/core.rb:155-160 | a name maps to the limit of its last column of that name, the later column overwriting the earlier in the fold |
| CoreSchema.ColumnSchema | lib/arison/core.rb:118-123 | one entry per field of the record, in order; the entry is nil exactly when core.rb's `get_type` gives no type, and otherwise declares the field's name with that type |
| CoreSchema.GetCreateTableDsl | lib/arison/core.rb:58-66 | the CREATE TABLE block for the table lists the schema entries, then `created_at`, then `updated_at` |
| CoreSchema.CreatedTableNames | lib/arison/core.rb:58-66 | a created table's columns are `id`, then each field of the record that gets a type, in order, then the two timestamps |
| CoreSchema.GetAddColumnDsl | lib/arison/core.rb:74-78 | the line names the table and the column; its type comes from the literal key `column_name`, so it is `string` for a record without that key |
| CoreSchema.Diff | lib/arison/core.rb:165 | `record.keys - limits.keys` holds exactly the keys that are not columns, without repeats when the keys have none |
| CoreSchema.DiffKeepsOrder | lib/arison/core.rb:165 | `Array#-` keeps the order of the record's keys: a key listed earlier in the difference sits earlier among the keys |
| CoreSchema.PlanAddsMissingKeysOnce | lib/arison/core.rb:162-173 | across a call, the columns added are exactly the keys of the records that were not columns, each added once, all on the table |
| CoreSchema.PlanAddsInFirstAppearanceOrder | lib/arison/core.rb:162-173 | the columns are added in the order their keys first appear: by record, then by position within the record |
| CoreSchema.PlanTypesAreString | lib/arison/core.rb:74-77 | without a `column_name` key in any record, every new column is a `string` column |
| CoreSchema.LiveSyncKeepsColumns | lib/arison/core.rb:162-173 | schema evolution is additive: the existing columns stay first and unchanged |
| CoreSchema.LiveSyncKeepsNamesDistinct | lib/arison/core.rb:162-173 | no column name occurs twice after the call when none did before |
| CoreSchema.LiveSyncCovers | lib/arison/core.rb:162-173 | after a completed call every key of every record is a column |
| CoreSchema.LiveSyncNothingNew | lib/arison/core.rb:162-173 | records whose keys are all columns leave the table unchanged, and the call completes |
| CoreSchema.LiveSyncIdempotent | lib/arison/core.rb:162-173 | after a completed call, repeating it with the same records changes nothing |
| CoreSync.First | lib/arison/core.rb:81 | there is no first record only for an empty Array |
| CoreSync.SyncTables | lib/arison/core.rb:162-173 | the catalog after `add_column_live` keeps the same tables and leaves the others alone; on a missing table it is unchanged and the call raises iff there is a record |
| CoreSync.CreateTables | lib/arison/core.rb:80-89 | `create_table` adds at most the one table and leaves the others alone; on a missing table with no first record it changes nothing and raises |
| CoreSync.CreateTablesAdditive | lib/arison/core.rb:80-89 | on an existing table `create_table` only appends columns and keeps the names distinct |
| CoreSync.CreateTablesNewTable | lib/arison/core.rb:80-89 | a new table starts with `id`, the typed fields of the first record and the two timestamps, before any column of later records |
| CoreSync.CreateTablesCovers | lib/arison/core.rb:80-89 | when `create_table` completes on an Array, every key of every record is a column of the table |
| CoreSync.DynamicTableScenario | spec/core_spec.rb:187-195 | a table created from `{col1}` and then given `{col1, col2}` ends with `id`, `col1`, the timestamps and the string column `col2` |
| CoreSync.AddColumnLive | lib/arison/core.rb:162-173 | the catalog and the outcome are those of `SyncTables` on the old catalog; nothing is inserted |
| CoreSync.AddRecordColumns | lib/arison/core.rb:164-170 | one record's pass evaluates the lines for its missing keys up to the first untyped one, and reports whether all were evaluated |
| CoreSync.CreateTable | lib/arison/core.rb:80-89 | the catalog and the outcome are those of `CreateTables` on the old catalog; nothing is inserted |
| Catalog.Database.RunCreateTable | lib/arison/core.rb:86-87 | the block is accepted iff the table is new and its column names are distinct, and the table then has exactly the block's columns |
| Catalog.Database.RunAddColumn | lib/arison/core.rb:168-169 | the line is accepted iff it has a type, the table exists and the column does not, and the column is then appended |
| Catalog.Database.BulkInsert | lib/arison/core.rb:54 | an accepted batch is appended to the insert log, and the catalog is unchanged |
| CoreImport.SanitizeValue | lib/arison/core.rb:41-42 | a String under a limited key becomes its prefix of length min(length, limit); nil, other classes and unlimited keys pass through |
| CoreImport.Sanitize | lib/arison/core.rb:40-44 | field by field, the same key with its value sanitised under that key's limit |
| CoreImport.SanitizeKeepsKeys | lib/arison/core.rb:40-44 | sanitising keeps the keys and their order |
| CoreImport.SanitizeWithoutLimits | lib/arison/core.rb:40-44 | when no column carries a `limit` entry, the sanitiser gives back every record unchanged |
| CoreImport.SanitizeWithinLimits | lib/arison/core.rb:40-44 | afterwards no String exceeds its key's limit, Strings are only cut, and other values are unchanged |
| CoreImport.SanitizeIdempotent | lib/arison/core.rb:40-44 | sanitising twice is sanitising once |
| CoreImport.BuildInstances | lib/arison/core.rb:36-52 | one instance per record, in order, holding the sanitised record, whether or not the assignment raised |
| CoreImport.InGroupsOf | lib/arison/core.rb:53 | no group is empty or longer than the group size, and all but the last are full |
| CoreImport.InGroupsOfFlatten | lib/arison/core.rb:53 | the groups joined in order are the list |
| CoreImport.InGroupsOfCount | lib/arison/core.rb:53 | the number of groups is the length divided by the group size, rounded up |
| CoreImport.AcceptedCount | lib/arison/core.rb:53-55 | the batches before the count are all accepted, and the one at the count is refused |
| CoreImport.Import | lib/arison/core.rb:33-56 | the catalog never changes; a missing table raises with nothing inserted; otherwise the chunks are inserted in order up to the first refused one, which is reported |
| CoreImport.InsertGroups | lib/arison/core.rb:53-55 | one bulk insert per group, in order, stopping at the first refused one |
| CoreImport.ImportDeliversEveryRecord | lib/arison/core.rb:33-56 | the batches of an import hold every record's instance exactly once and in input order, each batch for the table and of 1 to 10,000 instances |

## Left out

- Connections and pass-through calls are foreign calls to a SQL engine: `initialize`, `query`, `tables`, `columns` and `columns_with_table_name`. The same goes for the `establish_connection` after each record of `add_column_live` (lib/arison/core.rb:171).
- `define_class` and `get_class` rebind global constants. This metaprogramming is replaced by the table name.
- `Arison::Migration.run_dsl` evaluates generated DDL text, and is replaced by structured catalog operations. The quoting of names inside that text is not modelled.
- `get_add_index_dsl` is never called by the import path.
- `Util.get_profile`, lib/arison/cli.rb and lib/arison/connection.rb read YAML configuration and command-line arguments. These are I/O.
- The internals of `String#to_time`, `JSON.parse`, activerecord-import's bulk insert and `attributes=` are parameters. Unknown attributes and partially assigned instances are therefore not modelled.
- The `puts` and `warn` diagnostics are output only.
- Floats are an opaque tag with no numeric reasoning.
- Case-insensitive matching is modelled for ASCII letters only. Column names are compared exactly, so a backend whose names are case-insensitive is not modelled.
- `Fixnum` in core.rb's `get_type` is read as Integer, the class it named before Ruby 3.2. On a newer Ruby the constant is undefined and the branch raises.
- `import` called with a single Hash instead of an Array is not modelled. In Ruby it iterates over key-value pairs.
- Util.ParseJson: a None from the parser stands for `JSON::ParserError`. Any other exception, which util.rb lets propagate, is not modelled.
- CoreSync.AddColumnLive: `add_column_live` never calls `data_source_exists?`. Before each record it reads the columns through `get_limit_hash(get_class(table_name))` (lib/arison/core.rb:164), and `klass.columns` raises when the table is missing. The model makes one `DataSourceExists` test, standing for the first of those reads: nothing in the loop drops a table, so the later reads cannot fail that way.
- Elements of `data` that are not Hashes are not modelled, because records are typed as field lists. In `import` a scalar element makes `record.inject` raise inside the `begin` (lib/arison/core.rb:40) and the error is printed; an Array element such as `[1,2]` passes `inject`, and `attributes=` then raises `ActiveRecord::UnknownAttributeError`, which the first `rescue` swallows without printing (lib/arison/core.rb:45-46). Either way the blank `klass.new` instance is still appended and inserted (lib/arison/core.rb:38-50). In `add_column_live`, `record.keys` raises on it (lib/arison/core.rb:165).
- Column limits: `Column.limit` is the top-level `limit` entry of `JSON.parse(column.to_json)` (lib/arison/core.rb:23-25, 157), not the database's declared length. Whether that entry is present depends on the ActiveRecord version. Where the serialised column keeps its type data under `sql_type_metadata`, as spec/core_spec.rb:132-141 reads it, no top-level `limit` exists. Every limit is then nil and the sanitiser truncates nothing (`CoreImport.SanitizeWithoutLimits`). The model leaves this to the backend's `stringLimit`, with None standing for that layout, and does not decide which layout the backend has.
- Table names are never rejected. In Ruby, `get_class` raises `NameError` when the camelcased name is not a valid constant, such as `my-table` or `2024_logs` (lib/arison/core.rb:103-115). `import` then raises at lib/arison/core.rb:34 before anything is inserted, and `create_table` raises inside `add_column_live` after the CREATE has already run (lib/arison/core.rb:87-88).
- CoreSync.AddColumnLive requires the keys of each record to be distinct. A Ruby Hash cannot hold a key twice.
