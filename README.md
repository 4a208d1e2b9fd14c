# laravel-spray: a verified model of the schema-to-code core

laravel-spray reads a MySQL schema and generates, then keeps up to date, the Laravel code
that mirrors it: Eloquent models with their relations, form-request validation rules,
factories, API resources, routes and a Postman collection. Re-running it after the schema
changed patches the files it generated before rather than overwriting them, so values a
developer edited by hand survive for columns that did not change.

This project models that core in Dafny and proves what it promises:

- **Reflection** (`MySQLReflector`): catalog rows are grouped by table in first-appearance
  order and normalised into `Column`s (vendor type to canonical type, nullability,
  precision and scale, `set`/`enum` values, foreign keys); each group becomes a `Table`.
- **Structure model** (`ColumnModel`, `Structure`): columns are values; tables and the
  database are classes, because the `Database` constructor attaches `BelongsTo`/`HasMany`
  relations to the tables in place. The table methods merge freshly derived entries with
  the ones found in an existing file, keeping an entry verbatim when its column is
  unchanged since the previous snapshot.
- **Per-column derivation** (`ValidationRuleGenerator`, `FakerGenerator`, `Constants`):
  validation rule strings and factory expressions.
- **Text patching** (`ArrayHelper`, `ArrayRoundTrip`, `ClassModifier`, `UseStatementAdder`,
  `RouteGroupModifier`, `FileManager`, `ModelGenerator`, `RelationsGenerator`): parsing and
  re-formatting PHP array literals, replacing a located array, inserting a method before the
  class's last `}`, adding an import or a route only when absent, and rewriting a model's
  timestamp constants.
- **Snapshots and statuses** (`DatabaseCache`, `UserProjects`): the latest and previous
  database snapshots, and the per-project table-name to `NEW`/`MODIFIED` map.
- **Small utilities** (`NamingHelper`, `EnvHelper`, `PostmanUrl`, `RequestBodyGenerator`):
  title-casing, `.env` parsing, the Postman URL `raw` text and request bodies.

PHP's own behaviour that the code relies on lives in two helper modules: `PhpString`
(`strpos`, `explode`, `implode`, `str_replace`, `trim`, `empty()`) and `PhpArray` (ordered
string-keyed arrays: assignment replaces in place or appends, lookup, and building an array
from key-value pairs); `array_merge` with one string key is modelled as that assignment.
Integers are unbounded; PHP floats are Dafny reals.

Loops in the source are `while` loops with invariants, each proved against a function that
states what the loop computes; the properties of those functions are separate lemmas.

## Model

| member | source | states |
|---|---|---|
| Constants.NumericMax | src/Constants/NumericSize.php:20-46 | an integer type, and only an integer type, has a largest value, the signed maximum of its width |
| Constants.NumericMin | src/Constants/NumericSize.php:20-46 | an integer type, and only an integer type, has a smallest value, the signed minimum of its width |
| Constants.DateFormat | src/Constants/DateFormat.php:46-51 | the date types, and only they, have a date format |
| ColumnModel.EqualsReflexive | src/Models/Database/Structure/Column.php:216-231 | every column is `equals` to itself |
| ColumnModel.EqualsTransitive | src/Models/Database/Structure/Column.php:216-231 | `equals` chains |
| ColumnModel.EqualsNotSymmetric | src/Models/Database/Structure/Column.php:229 | a column with one enum value more is not `equals` to the narrower one, though the narrower one is `equals` to it |
| ValidationRuleGenerator.TypeValidation | src/Helpers/ValidationRuleGenerator.php:82-101 | the type rule is empty exactly for a column of no known type |
| ValidationRuleGenerator.TypeRules | src/Helpers/ValidationRuleGenerator.php:84-98 | strings carry their non-zero maximum length, integers give `integer`, a one-bit column is `boolean`, dates carry their format |
| ValidationRuleGenerator.RuleParts | src/Helpers/ValidationRuleGenerator.php:33-68 | the rules start with `nullable` or `required` and no rule is empty |
| ValidationRuleGenerator.StartsWithNullability | src/Helpers/ValidationRuleGenerator.php:36-70 | the rule string starts with its nullability rule |
| ValidationRuleGenerator.DescriptionIsPrefix | src/Helpers/ValidationRuleGenerator.php:33-70 | nullability and type rule are the start of the rule string, and what follows starts a new `\|` part |
| ValidationRuleGenerator.RulesWellFormed | src/Helpers/ValidationRuleGenerator.php:33-70 | the rule string is never empty, never starts with `\|`, and without values, foreign key or unique key never ends with `\|` |
| ValidationRuleGenerator.UpdateDiffersBySuffix | src/Helpers/ValidationRuleGenerator.php:62-68 | the update rules differ from the store rules only for a `UNI` or `PRI` column, and then only by the id-exclusion suffix |
| FakerGenerator.Bounds | src/Helpers/FakerGenerator.php:106-121 | with precision and scale the bounds are `±(10^(p-s) - 10^-s)`; otherwise the type's integer range, or 0 and 1000 |
| FakerGenerator.BitMax | src/Helpers/FakerGenerator.php:132 | a bit column of precision p is at most `2^p - 1` |
| FakerGenerator.TypeFakerOf | src/Helpers/FakerGenerator.php:92-144 | each type gets its faker (text, number between the bounds, boolean, float, date) and only a column of no known type gets none |
| FakerGenerator.Generate | src/Helpers/FakerGenerator.php:34-79 | a model is named exactly for a foreign key; otherwise the name faker wins over the enum faker, which wins over the type faker, and `''` is the last resort |
| FakerGenerator.DecimalBoundsEncloseZero | src/Helpers/FakerGenerator.php:106-113 | decimal bounds enclose zero and are symmetric unless unsigned |
| FakerGenerator.IntegerBounds | src/Helpers/FakerGenerator.php:115-120 | integer bounds are the type's range, or start at 0 for an unsigned column |
| FakerGenerator.BitBound | src/Helpers/FakerGenerator.php:132 | a bit column's maximum is `2^p - 1`, and 0 with no precision |
| FakerGenerator.EnumListReadBack | src/Helpers/FakerGenerator.php:57-62 | the enum faker lists every value quoted, in declared order: splitting the list on `, ` gives them back |
| EnvHelper.BeforeHash | src/Helpers/EnvHelper.php:42 | the text before the first `#` holds no `#` and starts the line |
| EnvHelper.ReadVars | src/Helpers/EnvHelper.php:29-48 | the loop over the lines computes the variables of the file |
| EnvHelper.ReadLine | src/Helpers/EnvHelper.php:36-47 | one turn of the loop: a comment or blank line leaves the variables as they are; any other line sets its name to its value |
| EnvHelper.SkippedLineIgnored | src/Helpers/EnvHelper.php:36-39 | a comment or blank line changes nothing |
| EnvHelper.LaterLineWins | src/Helpers/EnvHelper.php:42-47 | a line sets its name to its value whatever earlier lines said, and every other name keeps its value |
| EnvHelper.InlineCommentDropped | src/Helpers/EnvHelper.php:42 | what follows the first `#` is ignored |
| EnvHelper.NoEqualsEmptyValue | src/Helpers/EnvHelper.php:44-46 | a line without `=` sets its trimmed text to the empty value |
| EnvHelper.SecondEqualsLost | src/Helpers/EnvHelper.php:44-46 | only the text between the first and the second `=` is the value |
| Structure.EntryLayout | src/Models/Database/Structure/Column.php:110-153 | a rule entry is written `'name' => rules` and a newline; a faker entry has two spaces before the arrow |
| Structure.ColumnDescription | src/Models/Database/Structure/Column.php:160-177 | the description starts with `nullable` or `required` and is how the column's store and update rule strings start |
| Structure.FindColumn | src/Models/Database/Structure/Table.php:248-256 | a column is found exactly when one has that name, and it is the first such column |
| Structure.FindTable | src/Models/Database/Structure/Database.php:119-127 | a table is found exactly when one has that name, and it is the first such table |
| Structure.IsChanged | src/Models/Database/Structure/Column.php:184-207 | a column changed only when there is a previous snapshot, it has the column's table and a column of that name, and that column is not `equals` to it |
| Structure.UnchangedWhenSame | src/Models/Database/Structure/Column.php:184-207 | a column stored unchanged in the previous snapshot has not changed |
| Structure.KeptMembers | src/Models/Database/Structure/Table.php:97 | the columns a generator loops over are exactly those whose names are not in its ignore list (likewise at lines 120, 155, 178, 208, 227) |
| Structure.MergedEntry | src/Models/Database/Structure/Table.php:97-102 | an entry keeps the existing value when the column did not change and the existing array has its key; otherwise it is the freshly derived one (likewise at lines 120-125, 155-160, 227-233) |
| Structure.MergedEntriesAt | src/Models/Database/Structure/Table.php:96-104 | one merged entry per kept column, in column order |
| Structure.MergeKeys | src/Models/Database/Structure/Table.php:92-129 | every key a merge writes is `list` (bulk store only) or a kept column's key: existing keys that are not columns are dropped |
| Structure.FakerEntry | src/Models/Database/Structure/Table.php:178-189 | a kept faker entry has no model; a fresh one carries the model the faker generator names |
| Structure.FakerModelsFrom | src/Models/Database/Structure/Table.php:185-188 | every model listed comes from a freshly generated foreign key faker of a factory column and is not the empty name `!= null` drops |
| Structure.FreshFakerModels | src/Models/Database/Structure/Table.php:177-195 | with no existing entries the models are the referenced tables' non-empty class names of the foreign key columns, in order |
| Structure.FillableLinesAt | src/Models/Database/Structure/Table.php:207-211 | one fillable line per fillable column, in order |
| Structure.LinedJoin | src/Models/Database/Structure/Table.php:207-212 | the fillable text is the lines joined with newlines plus a final newline, which `rtrim` removes |
| Structure.FirstOccurrencesFacts | src/Models/Database/Structure/Database.php:91-95 | the attribute names are the column names that are not bookkeeping columns, each once |
| Structure.AttributeEntry | src/Models/Database/Structure/Database.php:96-104 | an existing attribute that is not blank after the trim is kept; otherwise English gets the title-cased name and other languages an empty string |
| Structure.AttributeNames | src/Models/Database/Structure/Database.php:88-110 | each attribute key appears once and every non-bookkeeping column of every table gets one |
| Structure.FkAttachments | src/Models/Database/Structure/Database.php:57-77 | each foreign key attaches two relations, the `BelongsTo` to the table itself, each to the table it names as local |
| Structure.Attachments | src/Models/Database/Structure/Database.php:51-79 | every relation is attached to the table it names as local, and `BelongsTo` only to a non-pivot table of the database |
| Structure.AttachmentCounts | src/Models/Database/Structure/Database.php:51-79 | the constructor attaches one `BelongsTo` and one `HasMany` per foreign key of the non-pivot tables |
| Structure.AttachIsAppend | src/Models/Database/Structure/Table.php:79-82 | attaching only appends, in order |
| Structure.Table.constructor | src/Models/Database/Structure/Table.php:51-64 | `use_created_at` / `use_updated_at` say whether such a column exists; a table is a pivot exactly when its foreign keys are all its columns but the extra ones; no relations yet |
| Structure.Table.AddRelation | src/Models/Database/Structure/Table.php:79-82 | the relation is appended |
| Structure.Table.GetColumn | src/Models/Database/Structure/Table.php:248-256 | the loop returns the first column of that name, `null` if none |
| Structure.Table.MergeText | src/Models/Database/Structure/Table.php:94-104 | the loop builds the text of the merged entries (likewise at lines 117-127, 152-162, 224-235) |
| Structure.Table.GetStoreValidationRules | src/Models/Database/Structure/Table.php:92-106 | the store rules are the merged entries formatted |
| Structure.Table.GetBulkStoreValidationRules | src/Models/Database/Structure/Table.php:115-129 | the bulk store rules are the `list` entry and the merged `list.*.` entries, formatted |
| Structure.Table.GetUpdateValidationRules | src/Models/Database/Structure/Table.php:150-164 | the update rules are the merged entries formatted |
| Structure.Table.GetResourceArray | src/Models/Database/Structure/Table.php:222-238 | the resource array is the merged entries formatted |
| Structure.Table.GetFakerArray | src/Models/Database/Structure/Table.php:173-196 | the faker text is the merged faker entries formatted, and the models those of the fresh entries that are loosely non-null (an empty name is dropped) |
| Structure.Table.GetModelFillable | src/Models/Database/Structure/Table.php:203-213 | the fillable text is the fillable lines with the trailing newlines trimmed |
| Structure.Table.Equals | src/Models/Database/Structure/Table.php:265-290 | the loops decide the table comparison: counts, scalar fields, relations covered and an equivalent column for each |
| Structure.HasEquivalentColumn | src/Models/Database/Structure/Table.php:300-308 | true exactly when some column of the array is `equals` to it |
| Structure.TableSameReflexive | src/Models/Database/Structure/Table.php:265-290 | every table is `equals` to itself |
| Structure.Database.constructor | src/Models/Database/Structure/Database.php:29-33 | every table ends with the relations it had plus those the foreign keys attach to it, in order |
| Structure.Database.AddTableRelations | src/Models/Database/Structure/Database.php:49-80 | the loop over the tables attaches exactly the relations of all foreign keys of the non-pivot tables |
| Structure.Database.AttachForeignKeys | src/Models/Database/Structure/Database.php:57-77 | the inner loop attaches the relations of that table's foreign keys |
| Structure.Database.GetTable | src/Models/Database/Structure/Database.php:119-127 | the loop returns the first table of that name, `null` if none |
| Structure.Database.Equals | src/Models/Database/Structure/Database.php:136-151 | the loops decide the comparison: the same table count and an equivalent table for each |
| Structure.FindEquivalentTable | src/Models/Database/Structure/Database.php:161-169 | true exactly when some table of the array is `equals` to it |
| Structure.DatabaseSameReflexive | src/Models/Database/Structure/Database.php:136-151 | every database is `equals` to itself |
| Structure.Database.GetValidationAttributesArray | src/Models/Database/Structure/Database.php:88-110 | the attributes are the entries of the first occurrences of the column names, formatted with two tabs |
| MySQLReflector.ReflectedDataType | src/Database/Drivers/MySQLReflector.php:173-208 | a vendor type maps to `NONE` exactly when the table does not list it |
| MySQLReflector.StringTypes | src/Database/Drivers/MySQLReflector.php:176-187 | the string and binary vendor types, and only they, map to `STRING` |
| MySQLReflector.IntegerTypes | src/Database/Drivers/MySQLReflector.php:196-200 | exactly `int`, `bigint`, `tinyint`, `smallint` and `mediumint` map to an integer type |
| MySQLReflector.DateTypes | src/Database/Drivers/MySQLReflector.php:190-194 | exactly `datetime`, `timestamp`, `date`, `time` and `year` map to a date type |
| MySQLReflector.DecimalTypes | src/Database/Drivers/MySQLReflector.php:202-204 | exactly `float`, `decimal` and `double` map to `DECIMAL` |
| MySQLReflector.ListMatch | src/Database/Drivers/MySQLReflector.php:70 | the captured list is non-empty and holds no newline |
| MySQLReflector.ColumnNormalised | src/Database/Drivers/MySQLReflector.php:49-100 | a column keeps its table and name; precision and scale are loosely the catalog's and never 0; `set`/`enum` columns have no length and other columns no values; the foreign key is set exactly when both referenced fields are non-empty |
| MySQLReflector.NullableAnyCase | src/Database/Drivers/MySQLReflector.php:54-55 | `is_nullable` is read without regard to case; `is_unsigned` must be exactly `yes` |
| MySQLReflector.ReplaceCharRemoves | src/Database/Drivers/MySQLReflector.php:72 | `str_replace` of a quote removes every quote |
| MySQLReflector.ListValuesRoundTrip | src/Database/Drivers/MySQLReflector.php:66-75 | the declared values of a `set` or `enum` column type are read back exactly, when none holds a quote, comma or newline or surrounding whitespace |
| MySQLReflector.SplitValues | src/Database/Drivers/MySQLReflector.php:73-74 | splitting the joined values at `,` and trimming gives them back |
| MySQLReflector.GroupRows | src/Database/Drivers/MySQLReflector.php:160-170 | the loop computes the grouping of the rows, each row appended to its table's group |
| MySQLReflector.GroupedGet | src/Database/Drivers/MySQLReflector.php:163-169 | each table name of the rows holds exactly that table's rows, in row order, and no other name is a key |
| MySQLReflector.GroupedKeys | src/Database/Drivers/MySQLReflector.php:163-169 | the groups are keyed in the order the tables first appear |
| MySQLReflector.AppearanceMembers | src/Database/Drivers/MySQLReflector.php:165-167 | each name appears once among the keys, and exactly the names of the rows do |
| MySQLReflector.ExtraCountBound | src/Database/Drivers/MySQLReflector.php:79-81 | the bookkeeping count is at most the column count, and equal only when every column is a bookkeeping one |
| MySQLReflector.IndexKeys | src/Database/Drivers/MySQLReflector.php:104-106 | the foreign key index has distinct keys, exactly the foreign key column names |
| MySQLReflector.IndexEntries | src/Database/Drivers/MySQLReflector.php:104-106 | each index entry is a foreign key column of the table under its own name |
| MySQLReflector.ReflectTable | src/Database/Drivers/MySQLReflector.php:45-109 | the inner loop builds a fresh table of the group's columns, foreign key index and bookkeeping count, with no relations |
| MySQLReflector.TableStep | src/Database/Drivers/MySQLReflector.php:49-106 | one more row adds its column, counts it if it is a bookkeeping column, and indexes it if it has a foreign key |
| MySQLReflector.ReflectGroups | src/Database/Drivers/MySQLReflector.php:44-111 | the outer loop stores each group's table under its name, in group order |
| MySQLReflector.Reflect | src/Database/Drivers/MySQLReflector.php:38-113 | the tables are keyed in first-appearance order, each built from its rows, and the database attaches exactly the relations the foreign keys imply |
| ArrayHelper.NormalizeValue | src/Helpers/ArrayHelper.php:150 | a stored value ends with `,`, and when the value is not blank it starts with no whitespace |
| ArrayHelper.PairUp | src/Helpers/ArrayHelper.php:147-152 | pieces pair up two by two as key and value, half as many pairs as pieces: an odd last piece is dropped |
| ArrayHelper.ParseText | src/Helpers/ArrayHelper.php:112-154 | the parsed array has distinct keys (a later key overwrites an earlier one) and every value ends with `,` |
| ArrayHelper.ParseArrayStringSpec | src/Helpers/ArrayHelper.php:93-110 | a pattern that does not match gives the empty array; without a pattern the whole content is parsed |
| ArrayHelper.ScanPieces | src/Helpers/ArrayHelper.php:112-138 | the first loop computes the marked text `Scan(parts)`: the level moves by the presence of `[` and `]` in a piece, and at level 0 the marker goes before the last quoted token |
| ArrayHelper.ScanTurn | src/Helpers/ArrayHelper.php:120-137 | one turn of the first loop: the piece is appended and the level moves by whether it holds `[` and `]`; back at level 0 the trimmed output is marked before its last quoted token and at its end, otherwise `=>` is put back |
| ArrayHelper.PairPieces | src/Helpers/ArrayHelper.php:146-152 | the second loop builds the array of the paired pieces, later keys overwriting earlier ones |
| ArrayHelper.OddPieceDropped | src/Helpers/ArrayHelper.php:148 | an unpaired last piece adds nothing |
| ArrayHelper.ParseArrayString | src/Helpers/ArrayHelper.php:93-155 | the method computes exactly the specification of `parseArrayString` |
| ArrayHelper.PadRight | src/Helpers/ArrayHelper.php:41 | `%-Ns` left-justifies in a field of N and never cuts |
| ArrayHelper.MaxKeyLength | src/Helpers/ArrayHelper.php:28-33 | the longest key is at least as long as every key and is the length of one of them |
| ArrayHelper.FormatLines | src/Helpers/ArrayHelper.php:36-43 | at most one line per entry |
| ArrayHelper.LongestKey | src/Helpers/ArrayHelper.php:28-34 | the first loop computes the longest key length |
| ArrayHelper.FormatPairs | src/Helpers/ArrayHelper.php:36-43 | the second loop computes the lines of the non-empty entries |
| ArrayHelper.FormatEntries | src/Helpers/ArrayHelper.php:28-48 | the lines are joined with `\n`, keys padded to the longest key plus its two quotes |
| ArrayHelper.FormatKeyValuePairs | src/Helpers/ArrayHelper.php:24-49 | the method computes exactly the specification of `formatKeyValuePairs` |
| ArrayHelper.FormatAligned | src/Helpers/ArrayHelper.php:34-41 | every written line starts with the margin and has its arrow at the same column |
| ArrayHelper.FirstComment | src/Helpers/ArrayHelper.php:66-68 | the comment found starts with `/*`, ends with `*/`, is at least four characters long and occurs in the old array |
| ArrayHelper.StrReplace | src/Helpers/ArrayHelper.php:78-79 | `str_replace` leaves a subject without the search string unchanged |
| ArrayHelper.ReplaceArrayAsWritten | src/Helpers/ArrayHelper.php:59-83 | as written: a pattern that does not match leaves the file unchanged; the stray bracket it leaves is shown by `StrayBracket` |
| ArrayHelper.Inner | src/Helpers/ArrayHelper.php:73 | only the outer bracket pair is removed from a bracketed group |
| ArrayHelper.ReplaceArray | src/Helpers/ArrayHelper.php:59-83 | a pattern that does not match leaves the file unchanged |
| ArrayHelper.ReplaceArrayInPlace | src/Helpers/ArrayHelper.php:62-79 | when the old array holds something, the new contents (with the old array's first comment in front) replace exactly its inside and the rest of the file is kept |
| ArrayHelper.StrayBracket | src/Helpers/ArrayHelper.php:72-78 | on `[[1]]` the code as written gives `[[X]]`, leaving the old inner brackets around the new contents, where the corrected version gives `[X]` |
| ArrayHelper.StrayBracketWritten | src/Helpers/ArrayHelper.php:72-79 | as written, `[[1]]` with new contents `X` becomes `[[X]]` |
| ArrayHelper.StrayBracketFixed | src/Helpers/ArrayHelper.php:72-79 | corrected, `[[1]]` with new contents `X` becomes `[X]` |
| ArrayRoundTrip.ReadBack | src/Helpers/ArrayHelper.php:93-155 | text laid out as plain `'key' => value` entries, with any whitespace around the parts, is parsed into exactly those entries, in order |
| ArrayRoundTrip.ParseEmpty | src/Helpers/ArrayHelper.php:116-154 | the empty text parses to the empty array |
| ArrayRoundTrip.FormatText | src/Helpers/ArrayHelper.php:36-46 | the written text of writable entries is those entries laid out one per line |
| ArrayRoundTrip.FormatReadBack | src/Helpers/ArrayHelper.php:24-155 | parsing what `formatKeyValuePairs` writes for writable entries gives exactly those entries back |
| ArrayRoundTrip.FormatKeepsEntries | src/Helpers/ArrayHelper.php:24-49 | reformatting an array text whose entries are writable keeps its entries |
| ClassModifier.AppendFunction | src/Helpers/ClassModifier.php:24-33 | the text goes right before the last `}`: the result has the input's length plus the content's, and is `None` exactly when the class has no `}` (the strict-types `substr` error) |
| ClassModifier.AppendRestores | src/Helpers/ClassModifier.php:27-30 | cutting the inserted span out of the result gives the class text back |
| ClassModifier.AppendEmpty | src/Helpers/ClassModifier.php:30 | appending the empty text is the identity |
| ClassModifier.ClosingBraceKept | src/Helpers/ClassModifier.php:27-30 | when the content holds no `}`, the last `}` of the result is the original one, shifted by the content's length |
| ClassModifier.AppendedFunctionExists | src/Helpers/ClassModifier.php:30-54 | after appending a text that declares `name`, `functionIsExist` finds `name` in the result |
| ClassModifier.ExistingFunctionKept | src/Helpers/ClassModifier.php:30-54 | a declaration already in the class survives the insertion, for names without `}` |
| ClassModifier.AddFunctionIdempotent | src/CodeGeneration/RequestGenerator.php:127-130 | the guarded append (only when `functionIsExist` is false) is idempotent once the text declaring the name is in |
| UseStatementAdder.InsertionPointChoice | src/Helpers/UseStatementAdder.php:31-57 | the import goes at the first `use `; with none, behind the first `;` after the first `namespace` preceded by a blank line; with no `namespace`, behind the first `<?php` preceded by a blank line; `None` when that anchor is missing |
| UseStatementAdder.Add | src/Helpers/UseStatementAdder.php:24-65 | the file is unchanged when the trimmed name already occurs in it or no anchor is found; otherwise the statement `use X;\n` is inserted at the insertion point and the text on both sides is kept |
| UseStatementAdder.AddRestores | src/Helpers/UseStatementAdder.php:36-60 | cutting the inserted statement out of the result gives the file back |
| UseStatementAdder.AddedContainsName | src/Helpers/UseStatementAdder.php:28-29 | after an insertion the file contains the trimmed name |
| UseStatementAdder.AddIdempotent | src/Helpers/UseStatementAdder.php:28 | adding the same import twice gives the file that adding it once gives |
| FileManager.Append | src/Utils/FileManager.php:73-81 | with an empty pattern the content is appended; mode 1 appends only on a match, mode 0 only without one, any other mode never; the result always starts with the file contents and adds nothing but the content |
| FileManager.AppendIfAbsentOnce | src/Utils/FileManager.php:76-80 | with mode 0, when the contents with the text appended match the pattern, the first append adds the text exactly when the contents did not match, and a second append changes nothing |
| RouteGroupModifier.Section | src/Helpers/RouteGroupModifier.php:31-55 | the group section runs from the first occurrence of the header text to the end of the first `\n\s*});` behind it; `None` when no header matched or no closing follows |
| RouteGroupModifier.AppendToGroup | src/Helpers/RouteGroupModifier.php:25-72 | the file is unchanged when no section is found or the section already holds the route |
| RouteGroupModifier.RouteAfterHeader | src/Helpers/RouteGroupModifier.php:66-69 | when the route is inserted, the file up to the section is unchanged and the header is followed by `\n` and the route |
| RouteGroupModifier.SameHeaderText | src/Helpers/RouteGroupModifier.php:38-55 | the rewrite depends on the header match only through the matched text |
| RouteGroupModifier.AppendToGroupIdempotent | src/Helpers/RouteGroupModifier.php:58-66 | adding a route twice gives the file that adding it once gives, when neither header nor route holds `});` |
| RouteGroupModifier.InsertedRouteFound | src/Helpers/RouteGroupModifier.php:44-58 | after an insertion, the section found again holds the route |
| ModelGenerator.SkipSpace | src/CodeGeneration/ModelGenerator.php:137-138 | a run of `\s` is skipped to its end: everything skipped is whitespace and what follows is not |
| ModelGenerator.UpdateTimestampsStatusProperties | src/CodeGeneration/ModelGenerator.php:135-158 | the loop over the lines computes the rewritten model text |
| ModelGenerator.PropertiesContents | src/CodeGeneration/ModelGenerator.php:115-126 | the properties hold the `CREATED_AT` line exactly when the table has no `created_at` column, the `UPDATED_AT` line exactly when it has no `updated_at` column, and are empty exactly when it has both |
| ModelGenerator.BothConstants | src/CodeGeneration/ModelGenerator.php:118-125 | with neither column both lines are written, a blank line apart |
| ModelGenerator.GeneratedLinesMarked | src/CodeGeneration/ModelGenerator.php:119-138 | the lines the generator writes are the ones its removal patterns match |
| ModelGenerator.DropKeepsLast | src/CodeGeneration/ModelGenerator.php:140-141 | a removal never touches the last line, which no newline ends |
| ModelGenerator.DropKeepsPlain | src/CodeGeneration/ModelGenerator.php:140-141 | a removal keeps every line that is not a constant declaration, in order |
| ModelGenerator.RemovedLines | src/CodeGeneration/ModelGenerator.php:140-143 | after both removals no line before the last declares either constant, the last line is kept, and all other lines survive in order |
| ModelGenerator.InsertedBeforeFillable | src/CodeGeneration/ModelGenerator.php:148-155 | the properties and a blank line go right before the `protected $fillable` line |
| ModelGenerator.EmitPlain | src/CodeGeneration/ModelGenerator.php:148-155 | without properties or without a fillable line every line is written back followed by a newline |
| ModelGenerator.OnlyNewlineAdded | src/CodeGeneration/ModelGenerator.php:135-158 | a model with both timestamp columns and no constant lines comes back with one newline added |
| ModelGenerator.NotIdempotent | src/CodeGeneration/ModelGenerator.php:148-157 | each run adds a trailing newline, so running twice differs from running once |
| RelationsGenerator.Generator.constructor | src/CodeGeneration/RelationsGenerator.php:24-27 | the generator holds the model text |
| RelationsGenerator.Generator.Generate | src/CodeGeneration/RelationsGenerator.php:37-69 | the loop imports and renders each relation whose method the model text does not declare, then inserts the rendered methods before the last `}` |
| RelationsGenerator.TurnKeeps | src/CodeGeneration/RelationsGenerator.php:48-65 | a turn whose import is present only adds the rendering of an undeclared relation |
| RelationsGenerator.PassWithImports | src/CodeGeneration/RelationsGenerator.php:46-66 | with both imports present the model text is not touched and the methods inserted are those of the relations it does not declare, in order |
| RelationsGenerator.ImportKept | src/CodeGeneration/RelationsGenerator.php:50-63 | an import already present is not added again |
| RelationsGenerator.DuplicatesBothEmitted | src/CodeGeneration/RelationsGenerator.php:48-64 | two missing relations with one method name are both rendered, since only the model text is checked |
| RelationsGenerator.AllPresent | src/CodeGeneration/RelationsGenerator.php:46-68 | when every relation's method is declared nothing changes |
| RelationsGenerator.MissingDeclared | src/CodeGeneration/RelationsGenerator.php:64 | every missing relation's method is declared by the text inserted, when each rendering declares its name |
| RelationsGenerator.BraceKept | src/CodeGeneration/RelationsGenerator.php:68 | the class text after an insertion still has a `}` |
| RelationsGenerator.GenerateIdempotent | src/CodeGeneration/RelationsGenerator.php:37-69 | with the imports in place, generating twice gives what generating once gives |
| RequestBodyGenerator.KeptMembers | src/CodeGeneration/Postman/Request/RequestBodyGenerator.php:72 | the columns used are exactly those not named `id`, `created_at` or `updated_at` (likewise at lines 98, 125) |
| RequestBodyGenerator.Fields | src/CodeGeneration/Postman/Request/RequestBodyGenerator.php:70-81 | one field per column used (likewise at lines 123-134) |
| RequestBodyGenerator.FieldShape | src/CodeGeneration/Postman/Request/RequestBodyGenerator.php:71-78 | each field is a used column's: value the name and ` value`, key the name or `list[0][name]`, description how its rule string starts (likewise at lines 124-131) |
| RequestBodyGenerator.ListKeyName | src/CodeGeneration/Postman/Request/RequestBodyGenerator.php:76 | a list key reads back as the column name between `list[0][` and `]` (likewise at line 129) |
| RequestBodyGenerator.RawObjectEntries | src/CodeGeneration/Postman/Request/RequestBodyGenerator.php:95-102 | the raw object has one entry per used column name, holding the name and ` value`, and no other |
| RequestBodyGenerator.BodyShape | src/CodeGeneration/Postman/Request/RequestBodyGenerator.php:82-135 | a body carries its mode, the JSON option exactly when raw, the data of its mode only, and a raw body wraps the object in `list` exactly in list mode |
| RequestBodyGenerator.Generator.constructor | src/CodeGeneration/Postman/Request/RequestBodyGenerator.php:40-45 | the table, mode and list flag are stored |
| RequestBodyGenerator.Generator.Generate | src/CodeGeneration/Postman/Request/RequestBodyGenerator.php:54-57 | the body of the generator's mode |
| RequestBodyGenerator.Generator.FormdataBody | src/CodeGeneration/Postman/Request/RequestBodyGenerator.php:67-83 | the form-data body |
| RequestBodyGenerator.Generator.UrlencodedBody | src/CodeGeneration/Postman/Request/RequestBodyGenerator.php:120-136 | the urlencoded body |
| RequestBodyGenerator.Generator.RawBody | src/CodeGeneration/Postman/Request/RequestBodyGenerator.php:93-109 | the raw body |
| RequestBodyGenerator.CollectFields | src/CodeGeneration/Postman/Request/RequestBodyGenerator.php:69-81 | the loop collects the fields of the used columns, in order |
| UserProjects.AssocKeys | src/Services/UserProjectsService.php:234-235 | `array_combine` over the table names keys the tables by name, one entry per distinct name, and every name of the list is a key |
| UserProjects.CompareTables | src/Services/UserProjectsService.php:227-253 | the loop over the new tables computes the status list of the comparison |
| UserProjects.CompareOne | src/Services/UserProjectsService.php:239-249 | one turn of the loop: a name absent from the old tables becomes `NEW`, a name whose table is not `equals` to the old one becomes `MODIFIED`, an equal table adds nothing |
| UserProjects.DiffFacts | src/Services/UserProjectsService.php:238-250 | a name is `NEW` exactly when only the new database has it, `MODIFIED` exactly when both have it and the tables differ, and a name only the old database has is never reported |
| UserProjects.CompareSelf | src/Services/UserProjectsService.php:238-250 | comparing a database with itself reports nothing |
| UserProjects.UserProjectsService.constructor | src/Services/UserProjectsService.php:33-36 | the service starts over the given projects file with no projects loaded |
| UserProjects.UserProjectsService.SetUserProjects | src/Services/UserProjectsService.php:42-47 | the loaded projects become the file's contents and the file is unchanged |
| UserProjects.UserProjectsService.AddNewProjectOrUpdate | src/Services/UserProjectsService.php:77-122 | a missing project name, or one loosely equal to `false` (`""` or `"0"`), gives `false` and changes nothing; otherwise the project's record is replaced and the loaded projects become the new file |
| UserProjects.RegisterFacts | src/Services/UserProjectsService.php:99-114 | a new project is recorded as new with the RAW request types; an existing one as not new with no request types, losing its statuses; other projects are untouched |
| UserProjects.RegisterTwice | src/Services/UserProjectsService.php:99-114 | registering a project twice leaves it not new with no request types |
| UserProjects.UserProjectsService.UpdateTablesStatus | src/Services/UserProjectsService.php:202-218 | the file becomes the old file updated with the comparison of the two databases; the loaded projects are unchanged |
| UserProjects.MergeStatuses | src/Services/UserProjectsService.php:205-216 | the loop over a non-empty status list writes every status into the project's record and keeps the file well formed |
| UserProjects.UpdatedFacts | src/Services/UserProjectsService.php:205-212 | after an update each listed table has its listed status, every other status is kept, and other projects are untouched |
| UserProjects.AssignGet | src/Services/UserProjectsService.php:210-212 | the status assigned last for a table wins and tables not assigned keep their status |
| UserProjects.EmptyDiffNoWrite | src/Services/UserProjectsService.php:205 | an empty comparison writes nothing |
| UserProjects.UserProjectsService.GetTablesStatus | src/Services/UserProjectsService.php:261-272 | a project without a record gives the empty map; otherwise its statuses |
| UserProjects.StatusesAbsent | src/Services/UserProjectsService.php:267-271 | the statuses of a project not in the file are empty |
| UserProjects.UserProjectsService.DeleteTableStatus | src/Services/UserProjectsService.php:281-293 | the file becomes the old file with that table's status deleted; the loaded projects are unchanged |
| UserProjects.DeletedFacts | src/Services/UserProjectsService.php:287-288 | deleting removes that table's status only, leaves other projects alone, and deleting an absent status changes nothing |
| DatabaseCache.DatabaseCachManager.constructor | src/Helpers/DatabaseCachManager.php:18-19 | the two snapshot slots start as given |
| DatabaseCache.DatabaseCachManager.Update | src/Helpers/DatabaseCachManager.php:26-41 | a first run stores the database and reports it against an empty one; an `equals` database changes nothing, so the previous snapshot stays; a different one is reported against the latest, which becomes the previous; the previous slot only ever receives a former latest |
| DatabaseCache.DatabaseCachManager.GetPreviousVersion | src/Helpers/DatabaseCachManager.php:48-55 | `null` exactly when there is no previous snapshot, otherwise that snapshot |
| DatabaseCache.FirstRunAllNew | src/Helpers/DatabaseCachManager.php:36-39 | on a first run every table of the database is reported `NEW` and no other name is reported |
| NamingHelper.Ucfirst | src/Helpers/NamingHelper.php:103 | `ucfirst` upper-cases an initial ASCII letter and keeps the rest |
| NamingHelper.Spaced | src/Helpers/NamingHelper.php:85 | a space goes before every capital letter, so the result never starts with one inserted |
| NamingHelper.SpacedLength | src/Helpers/NamingHelper.php:85 | one character is added per capital letter |
| NamingHelper.CamelCaseRoundTrip | src/Helpers/NamingHelper.php:82-88 | removing the inserted spaces gives the input back, and one space is added per capital after the first character |
| NamingHelper.TitleCaseSpec | src/Helpers/NamingHelper.php:97-106 | the title-case text keeps the input's length |
| NamingHelper.TitleCaseNoUnderscore | src/Helpers/NamingHelper.php:100-103 | no underscore is left |
| NamingHelper.TitleWord | src/Helpers/NamingHelper.php:100-103 | the first word is `ucfirst`-ed and followed by a space, then the rest is title-cased |
| NamingHelper.SnakeCaseTitle | src/Helpers/NamingHelper.php:97-106 | the `explode`/`implode` over `_` equals the character-wise reference: each underscore becomes a space and each word's first letter is upper-cased; the length is kept |
| PostmanUrl.QuerySuffix | src/Models/Postman/Url.php:49 | a query parameter adds `?$`, its key, `=` and its value |
| PostmanUrl.AppendQuery | src/Models/Postman/Url.php:47-51 | the loop appends the query text of all parameters, in order |
| PostmanUrl.Url.constructor | src/Models/Postman/Url.php:37-54 | path, host and query are stored verbatim and `raw` is the host and path segments joined with `/`, then the query text |
| PostmanUrl.Url.WithDefaultHost | src/Models/Postman/Url.php:39 | the host defaults to `{{URL}}` |
| PostmanUrl.Url.JsonSerialize | src/Models/Postman/Url.php:57-70 | `raw`, `path` and `host` are serialized, and `query` exactly when it is non-null and non-empty |
| PostmanUrl.QueryTextAppend | src/Models/Postman/Url.php:48-50 | the query text of two lists is the concatenation of theirs |
| PostmanUrl.QueryTextLength | src/Models/Postman/Url.php:48-50 | the query text's length is the sum over the parameters of key, value and 3 |
| PostmanUrl.NoQueryRaw | src/Models/Postman/Url.php:44-47 | with no query `raw` is the segments joined with `/` |
| PostmanUrl.RawStartsWithBase | src/Models/Postman/Url.php:44-51 | `raw` always starts with the joined segments |
| PostmanUrl.RawSegments | src/Models/Postman/Url.php:44-45 | without a query and with no `/` inside a segment, splitting `raw` on `/` gives host and path back |

## Left out

- Disk, database connection and network: reading and writing files, the SQL query of `getDatabaseInfo` (its result rows are the input of `MySQLReflector.Reflect`), the Postman HTTP client and the console menus are not modelled; every operation works on the text or rows it is given.
- Persistence formats: `serialize`/`unserialize` of snapshots and `json_encode`/`json_decode` of the projects file are not modelled. The snapshot slots of `DatabaseCache.DatabaseCachManager` and the projects file of `UserProjects.UserProjectsService` are in-memory values, so a snapshot read back is the same object rather than an equal copy.
- PCRE: patterns the code hands to `preg_match` are inputs rather than a regex engine. The recursive array pattern of `replaceArray` is a located match (`ArrayMatch`), the route group header is a located span, and `FileManager::append` receives whether its pattern matched. Simple patterns whose meaning is a plain scan (`functionIsExist`, `\n\s*});`, the `protected $fillable` line, the `set`/`enum` column type, the `.env` assignment) are written out as scanning functions.
- The Doctrine inflector, class naming and stub files: relation method names, rendered relation methods, model class names and the text PHP writes for a float are function parameters.
- Templates and orchestration: the `generate()` methods of the controller, service, factory, request, resource and route generators, `ModelGenerator::generate` and the stub processing are not modelled; their merges are the `Structure`, `ArrayHelper`, `ClassModifier` and `UseStatementAdder` operations.
- Postman DTOs and path builders other than `Url`, the request-body JSON encoding, `NamingHelper::getClassName`/`getVarName`, `Uuid`, logging, configuration and the static `CodeGenerationContext` fields (their values are parameters) are not modelled.
- `UserProjectsService`: `markProjectAsOld`, `updatePostmanInformation`, `deleteProject`, `getPostmanInfo` and `updateRequestBodyType` are not modelled; `getProjectName` and the path normalisation it does (slash handling, `stripcslashes`) are replaced by the project name as an `Option` input of `AddNewProjectOrUpdate`.
- UserProjects.UserProjectsService.constructor: takes the decoded projects file directly; building a `PostmanService` is not modelled.
- MySQLReflector.Reflect: requires every foreign key to name a table that has rows; the code dereferences a missing table and fails there, which is not modelled.
- Structure.Database.constructor: requires every foreign key to name a key of the table map, for the same reason.
- MySQLReflector.Reflect: PHP turns a table name that is a decimal integer (such as `2024`) into an integer array key, and `new Column` then rejects it under strict types; the model keeps every table name a string and reflects such tables.
- ArrayHelper.FormatKeyValuePairs: widths are counted in characters where `strlen` and `sprintf("%-Ns")` count bytes, so keys with multi-byte UTF-8 characters are padded differently; and a key that is a decimal integer (such as `'1'`), which PHP stores as an integer key and `strlen` rejects under strict types, is formatted like any other key here.
- MySQLReflector.ReflectColumn: `mysqli` returns numbers as strings; the rows here hold integers, so `intval` of non-numeric text is not modelled.
- FakerGenerator.Bounds: `pow()` results are exact reals; float rounding and how PHP prints a float are not modelled.
- ModelGenerator.UpdateTimestampsStatusProperties: the removal patterns are matched within one line; a constant declaration whose whitespace spans a line break is not recognised.
- DatabaseCache.DatabaseCachManager.Update: the slots are written before the statuses are updated rather than after; the service never reads the slots, so the final state is the same.
- Integer widths: PHP integers are 64-bit and overflow into floats; the model's integers are unbounded, so `pow(2, 64)` for a `BIT(64)` column and the literal `-9223372036854775808` of `NumericSize`, floats in PHP, are exact integers here. `NumericSize`'s `precision` entries are not modelled: nothing reads them.

## Findings

| source | as written | input that shows it | evidently intended | confidence | as-written member | corrected member |
|---|---|---|---|---|---|---|
| src/Helpers/ArrayHelper.php:72-79 | the old array's contents are taken with `trim($arrayContents, "[]")`, which strips every leading `[` and trailing `]`, so a nested first or last element loses its own bracket and the replacement leaves it behind | a file `[[1]]` whose located array is the whole file, new contents `X`: the result is `[[X]]` | only the outer bracket pair is removed, giving `[X]` | not executed | ArrayHelper.ReplaceArrayAsWritten, ArrayHelper.StrayBracketWritten | ArrayHelper.ReplaceArray, ArrayHelper.ReplaceArrayInPlace, ArrayHelper.StrayBracketFixed |
