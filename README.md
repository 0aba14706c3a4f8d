# Quick-query text transformers, modelled in Dafny

QuickQuery is a set of browser tools for writing SQL. Their logic lives in four
stateless text transformers:

- **Query interpolator**: substitutes parameter values for the placeholders of
  a SQL text. There are three placeholder styles:
  - `?`, filled by a single left-to-right scan;
  - `@p0`, `@p1`, … (SQL Server);
  - `:1`, `:2`, … (Oracle).

  The two indexed styles replace every occurrence of each placeholder, from the
  last parameter down to the first.
- **IN-clause builder**: turns a list of values into `IN (...)`. The values can
  be quoted, and are separated by `", "` or `" | "`. On request, a list longer
  than Oracle's limit of 1000 expressions is cut into one line per 1000 values.
- **CRUD generator**: fixed SELECT / INSERT / UPDATE / DELETE templates built
  from a table name, a column list and a bind prefix (`@` or `:`).
- **Model mapper**: converts identifiers between snake_case and PascalCase,
  and fills a C# property template.

Each tool normalises its input in the same way: split on runs of separator
characters, trim each piece, drop the empty ones. That step is modelled once,
as `Text.Parse`.

## Modules

There is one module per source file, plus a shared `Text` module.

- `Text` (`text.dfy`):
  - ASCII whitespace;
  - `trim`;
  - splitting on runs of separators;
  - `join`;
  - quoting.
  - `Parse`, the split-trim-filter pipeline. The source repeats it in four
    functions, which the model keeps as one-line wrappers:
    `parseParameters`, `parseInputValues`, `parseColumns` and `parseNames`.
- `Interpolator` (`interpolator.dfy`):
  - The `?` scan and the descending replacement loop are methods with loop
    invariants.
  - Each is proved against a specification function:
    - `QuestionFrom` for the scan;
    - `ReplaceDescending` for the replacement loop.
  - The behaviour the source promises is proved about those functions.
  - Correctness of the descending order is stated over SQL texts seen as
    literal pieces and placeholder pieces (`Piece`, `Render`, `Fill`).
- `InClause` (`in_clause.dfy`): the chunking loop is a method proved against
  `ChunksOf`.
- `Crud` (`crud.dfy`): each template literal is a join of its lines. Two kinds
  of lemma describe the output:
  - lemmas that give the exact text;
  - lemmas that give the line structure.
- `ModelMapper` (`model_mapper.dfy`): the two case conversions, their round
  trips, and the property template.

### Data model

The enumerations and constants of the source are datatypes and constants of
the model. They are not functions, so they have no row under "## Model":

- `Interpolator.PlaceholderType` (`Question`, `SqlServer`, `Oracle`) is the
  type `PlaceholderType` at queryInterpolator.ts:8.
- `InClause.OracleInClauseLimit` is the constant 1000 at inClauseBuilder.ts:9.
  `InClause.SplitOnlyAboveLimit` and `InClause.ChunksOf` state what it
  governs.
- `InClause.InClauseOptions` and its `Separator` (`Comma`, `Pipe`) are the
  interface at inClauseBuilder.ts:11-15. `InClause.SeparatorText` gives each
  separator's text.
- `Crud.QueryType` (`Select`, `Insert`, `Update`, `Delete`) and
  `Crud.ParamStyle` (`SqlServer`, `Oracle`) are the types at
  crudGenerator.ts:8 and crudGenerator.ts:9.
- `ModelMapper.CSharpDataTypes` is the list at modelMapper.ts:56-66.
  `ModelMapper.DataTypesAreTokens` states its properties.

### Leading underscore in `pascalToSnake`

`replace(/^_/, '')` (modelMapper.ts:42) strips one leading `_` whatever its
origin: the `_` put in front of an initial capital, or one already in the
input. So `_id` becomes `id`. `ModelMapper.PascalToSnakeNoUpper` states this:
input without upper-case letters comes back with only its leading `_` (if any)
dropped.

## Model

| member | source | states |
|---|---|---|
| Text.Trim | src/lib/logic/queryInterpolator.ts:16 | the trimmed text has no whitespace at either end and is no longer than the input; `Text.TrimParts` states where it sits in the input |
| Text.TrimStart | src/lib/logic/queryInterpolator.ts:16 | the result is a suffix of the input, every character dropped before it is whitespace, and it does not start with whitespace |
| Text.TrimEnd | src/lib/logic/queryInterpolator.ts:16 | the result is a prefix of the input, every character dropped after it is whitespace, and it does not end with whitespace |
| Text.TrimParts | src/lib/logic/queryInterpolator.ts:16 | the trimmed text is the contiguous part of the input that starts after the `Leading(s)` characters `TrimStart` drops; everything before it and everything after it is whitespace |
| Text.TrimNoneIn | src/lib/logic/queryInterpolator.ts:16 | trimming never introduces a character the input does not contain |
| Text.TrimTrimmed | src/lib/logic/crudGenerator.ts:31 | trimming text that already has no whitespace at its ends returns it unchanged |
| Text.Split | src/lib/logic/queryInterpolator.ts:15 | splitting on a separator class gives at least one piece, and no piece contains a separator |
| Text.SplitKeepsOrder | src/lib/logic/queryInterpolator.ts:15 | the pieces concatenated are the input with its separators removed, in the original order |
| Text.SplitJoin | src/lib/logic/inClauseBuilder.ts:47-53 | splitting a list joined by a separator run gives the list back, if the items are non-empty and contain no separator |
| Text.SplitWord | src/lib/logic/queryInterpolator.ts:15 | a word without separators is glued onto the first piece of what follows it |
| Text.SplitRun | src/lib/logic/queryInterpolator.ts:15 | a non-empty run of separators, followed by a non-separator or by the end, starts a new piece |
| Text.JoinAppend | src/lib/logic/inClauseBuilder.ts:53 | joining two non-empty lists end to end puts one separator between their joins |
| Text.JoinNoneIn | src/lib/logic/inClauseBuilder.ts:50-51 | joining items and a separator that avoid a character class gives text that avoids it |
| Text.Join | src/lib/logic/inClauseBuilder.ts:53 | `Array.prototype.join` as a definition, with no contract of its own; `Text.JoinAppend`, `Text.JoinNoneIn`, `Text.SplitJoin` and `Crud.JoinFour` state its properties |
| Text.TrimAndDropEmpty | src/lib/logic/queryInterpolator.ts:16-17 | after trim and the empty filter, every kept piece is non-empty, trimmed and separator-free, and no piece is added |
| Text.TrimAndDropEmptyAppend | src/lib/logic/queryInterpolator.ts:16-17 | trim-and-filter works piece by piece: the result for `xs + ys` is the result for `xs` followed by the result for `ys` |
| Text.TrimAndDropEmptyOne | src/lib/logic/queryInterpolator.ts:16-17 | one piece gives its trimmed text, or nothing when the trimmed text is empty |
| Text.Parse | src/lib/logic/queryInterpolator.ts:13-18 | every parsed element is non-empty, has no whitespace at its ends and contains no separator |
| Text.ParseJoin | src/lib/logic/queryInterpolator.ts:13-18 | a list of clean items, joined by separators and parsed, comes back exactly: order and duplicates are kept |
| Text.KeepClean | src/lib/logic/queryInterpolator.ts:16-17 | trimming and dropping empties leaves a list of clean items unchanged |
| Text.ParseIdempotent | src/lib/logic/queryInterpolator.ts:13-18 | parsing the re-joined output of a parse gives the same list |
| Text.ParseLinesJoin | src/lib/logic/inClauseBuilder.ts:20-25 | values written one per line are read back as the same list |
| Text.ParseTwoPieces | src/lib/logic/queryInterpolator.ts:13-18 | two separator-free texts with a non-empty separator run between them parse as the trimmed, non-empty pieces of the first followed by those of the second |
| Text.TrimPadded | src/lib/logic/queryInterpolator.ts:16 | a non-whitespace character with a space on each side trims to that character |
| Text.PaddedLine | src/lib/logic/queryInterpolator.ts:16-17 | such a padded character on a line of its own is kept as the bare character |
| Text.ParsePaddedPair | src/lib/logic/queryInterpolator.ts:13-18 | ` x \n\n y ` is read as the two values `x` and `y`: the padding and the blank line are dropped |
| Text.ParseCommaListJoin | src/lib/logic/crudGenerator.ts:14-19 | names written as a `", "` list are read back as the same list |
| Text.QuoteParts | src/lib/logic/queryInterpolator.ts:29 | `wrap(v)`: without quoting the value itself; with quoting, two characters longer, with `'` first and last and `v` unchanged in between, so inner quotes are not escaped |
| Text.QuoteNoneIn | src/lib/logic/inClauseBuilder.ts:38 | quoting adds no character other than `'` |
| Text.Quote | src/lib/logic/queryInterpolator.ts:29 | `wrap` as a definition, with no contract of its own; `Text.QuoteParts` states what it returns |
| Interpolator.ParseParameters | src/lib/logic/queryInterpolator.ts:13-18 | each parameter is non-empty, trimmed and free of CR/LF |
| Interpolator.Next | src/lib/logic/queryInterpolator.ts:53-54 | the consumption index never exceeds the number of parameters |
| Interpolator.CountQAppend | src/lib/logic/queryInterpolator.ts:51-52 | the number of `?` in `a + b` is the count in `a` plus the count in `b` |
| Interpolator.Emit | src/lib/logic/queryInterpolator.ts:52-60 | one character's output as a definition, with no contract of its own; `Interpolator.QuestionKth` and `Interpolator.QuestionLeftover` state it |
| Interpolator.QuestionFrom | src/lib/logic/queryInterpolator.ts:48-63 | the scan as a definition, with no contract of its own; it specifies `ReplaceQuestionMarks`, and `QuestionAppend`, `QuestionKth`, `QuestionLeftover` and `QuestionExhausted` state its behaviour |
| Interpolator.ReplaceQuestionMarks | src/lib/logic/queryInterpolator.ts:43-64 | the loop's result is the left-to-right scan `QuestionFrom(sql, params, 0)`, and the final index is min(number of `?`, number of parameters) |
| Interpolator.QuestionStep | src/lib/logic/queryInterpolator.ts:51-61 | one iteration keeps the loop invariant: the output so far plus the scan of the rest is the whole scan, and the index is the capped count of `?` seen |
| Interpolator.QuestionCons | src/lib/logic/queryInterpolator.ts:51-61 | the scan of `c` followed by a rest emits `c`'s output, then scans the rest from the next index |
| Interpolator.QuestionAppend | src/lib/logic/queryInterpolator.ts:48-63 | the scan of `a + b` is the scan of `a`, then the scan of `b` from the index `a` left (min of its `?` count and the parameter count) |
| Interpolator.QuestionWithoutMarks | src/lib/logic/queryInterpolator.ts:58-60 | text without `?` is copied unchanged and consumes nothing |
| Interpolator.QuestionExhausted | src/lib/logic/queryInterpolator.ts:55-57 | once every parameter is consumed, the rest of the text is copied unchanged, `?` included |
| Interpolator.QuestionKth | src/lib/logic/queryInterpolator.ts:52-54 | the `?` that follows exactly k others, for k below the parameter count, becomes `wrap(params[k])`; everything before it is the scan of the prefix |
| Interpolator.QuestionLeftover | src/lib/logic/queryInterpolator.ts:55-57 | a `?` that follows at least as many `?` as there are parameters stays `?`, and the text after it is copied |
| Interpolator.QuestionTwoParams | src/lib/logic/queryInterpolator.ts:43-64 | two `?` and two parameters: each mark becomes its own quoted value and the text around is unchanged |
| Interpolator.QuestionExample | src/lib/logic/queryInterpolator.ts:43-64 | `SELECT * FROM t WHERE a=? AND b=?` with `1`, `x` gives `... a='1' AND b='x'` |
| Interpolator.Dec | src/lib/logic/queryInterpolator.ts:80-81 | the decimal numeral is non-empty and all digits, and has one digit exactly when the number is below 10 |
| Interpolator.DecLengthMonotone | src/lib/logic/queryInterpolator.ts:80-81 | a larger number never has a shorter numeral |
| Interpolator.DecInjective | src/lib/logic/queryInterpolator.ts:80-81 | equal numerals mean equal numbers |
| Interpolator.DecDistinct | src/lib/logic/queryInterpolator.ts:80-81 | different numbers have different numerals |
| Interpolator.TokenPrefix | src/lib/logic/queryInterpolator.ts:79-81 | `@p` / `:` starts with the style's marker, has no other marker and no digit |
| Interpolator.Token | src/lib/logic/queryInterpolator.ts:79-81 | each placeholder starts with the marker and contains it nowhere else |
| Interpolator.OracleTokens | src/lib/logic/queryInterpolator.ts:79-81 | the oracle placeholders of the first, tenth and eleventh values are `:1`, `:10` and `:11` |
| Interpolator.ReplaceAll | src/lib/logic/queryInterpolator.ts:84-86 | the global replace with a literal replacement, as a definition with no contract of its own; `ReplaceAllSkip`, `ReplaceAllVerbatim`, `ReplaceAllMismatch` and `ReplaceAllWhole` state it |
| Interpolator.ReplaceAllSkip | src/lib/logic/queryInterpolator.ts:84-86 | text without the placeholder's first character passes through the global replace unchanged |
| Interpolator.ReplaceAllVerbatim | src/lib/logic/queryInterpolator.ts:84-86 | an occurrence of the placeholder is replaced by the value exactly as given |
| Interpolator.ReplaceAllMismatch | src/lib/logic/queryInterpolator.ts:85-86 | where the text does not start with the placeholder, the global replace keeps the first character and the text up to the next possible match |
| Interpolator.ReplaceAllWhole | src/lib/logic/queryInterpolator.ts:85-86 | text that is exactly the placeholder becomes the value |
| Interpolator.ReplaceDescending | src/lib/logic/queryInterpolator.ts:75-89 | the loop from the last parameter down, as a definition with no contract of its own; `ReplaceIndexedPlaceholders` is proved against it, and `DescendingFills` states its result |
| Interpolator.Interpolation | src/lib/logic/queryInterpolator.ts:23-38 | the dispatch on the placeholder style, as a definition with no contract of its own; `InterpolateQuery` is proved against it |
| Interpolator.ReplaceIndexedPlaceholders | src/lib/logic/queryInterpolator.ts:69-90 | the loop from the last parameter down to the first computes `ReplaceDescending` over all parameters |
| Interpolator.InterpolateQuery | src/lib/logic/queryInterpolator.ts:23-38 | the question style runs the scan; the other styles run the descending replacement |
| Interpolator.InterpolateNoParams | src/lib/logic/queryInterpolator.ts:23-38 | with no parameters every style returns the SQL text unchanged |
| Interpolator.TokenMismatch | src/lib/logic/queryInterpolator.ts:77-81 | the placeholder of a smaller number, followed by a non-digit or by the end, does not begin with the placeholder of a larger number |
| Interpolator.ReplaceSkipsSmallerToken | src/lib/logic/queryInterpolator.ts:77-86 | replacing a larger number's placeholder leaves a smaller number's placeholder in place |
| Interpolator.ReplaceOne | src/lib/logic/queryInterpolator.ts:78-87 | one round of the loop, with all numbers at most i, turns exactly the placeholders of i into the value |
| Interpolator.FollowerNotDigit | src/lib/logic/queryInterpolator.ts:77-81 | in delimited pieces, the text that follows a placeholder does not start with a digit, so it cannot extend the placeholder's number |
| Interpolator.SubstituteOneKeeps | src/lib/logic/queryInterpolator.ts:78-87 | after that round, with a value free of the marker, the pieces are still delimited, every remaining number is below i, and each placeholder directly after another still has a value that does not start with a digit |
| Interpolator.RenderWithoutPlaceholders | src/lib/logic/queryInterpolator.ts:75 | text with no placeholders left is the intended result |
| Interpolator.FillSubstituteOne | src/lib/logic/queryInterpolator.ts:86 | substituting parameter i's own value does not change the intended result |
| Interpolator.DescendingUnfold | src/lib/logic/queryInterpolator.ts:78-87 | the first round of the descending loop, stated on pieces |
| Interpolator.DescendingStep | src/lib/logic/queryInterpolator.ts:78-87 | one round keeps the pieces delimited with smaller numbers and keeps their intended result, and the remaining rounds run on the rendered pieces |
| Interpolator.DescendingFills | src/lib/logic/queryInterpolator.ts:77-87 | the descending loop replaces every placeholder by its own parameter's value (so `:1` is never matched inside `:10`), when no value and no literal text contains the marker, no literal text after a placeholder starts with a digit, and each placeholder directly after another has a value that does not start with a digit |
| Interpolator.IndexedFillsPlaceholders | src/lib/logic/queryInterpolator.ts:69-90 | the same for `interpolateQuery` in the `@p` and `:` styles |
| Interpolator.FollowersOpenQuoted | src/lib/logic/queryInterpolator.ts:29 | with quoting on, every value starts with `'`, so placeholders may be written back to back |
| Interpolator.DescendingWithoutMarker | src/lib/logic/queryInterpolator.ts:78-87 | text without the marker comes out of the whole descending loop unchanged |
| Interpolator.OracleTenKeepsOne | src/lib/logic/queryInterpolator.ts:77-87 | with ten or more parameters, `:1` takes the first value and `:10` takes the tenth value whole |
| Interpolator.OracleTenPieces | src/lib/logic/queryInterpolator.ts:77-81 | `a:1b:10` is the pieces `a`, the first placeholder, `b`, the tenth placeholder; its intended result is `a`, the first value, `b`, the tenth value |
| Interpolator.OracleAdjacent | src/lib/logic/queryInterpolator.ts:77-87 | `:1:2` becomes the first value followed by the second, when the second value does not start with a digit |
| Interpolator.AdjacentDigitValue | src/lib/logic/queryInterpolator.ts:77-87 | `:1:11` with eleven values, the eleventh being `0`: the first round turns `:11` into `0`, which leaves `:10`, so the whole output is the tenth value |
| Interpolator.ElevenLeavesTen | src/lib/logic/queryInterpolator.ts:85-86 | replacing `:11` by `0` in `:1:11` leaves `:10` |
| Interpolator.ReplaceAscending | src/lib/logic/queryInterpolator.ts:77-78 | the same loop from the first parameter up, as a definition with no contract of its own; `AscendingWithoutMarker` and `AscendingSplitsTen` compare it with the source's order |
| Interpolator.AscendingWithoutMarker | src/lib/logic/queryInterpolator.ts:77-78 | text without the marker is untouched in either order |
| Interpolator.AscendingSplitsTen | src/lib/logic/queryInterpolator.ts:77-78 | the ascending order would turn `:10` into the first value followed by `0`; the source's descending order gives the tenth value |
| Interpolator.ExpandReplacement | src/lib/logic/queryInterpolator.ts:86 | the expansion of `$$`, `$&`, `` $` `` and `$'` in a replacement string, as a definition with no contract of its own; `ExpandWithoutDollar` states it |
| Interpolator.ReplaceAllAsWritten | src/lib/logic/queryInterpolator.ts:85-86 | the global replace with the replacement expanded at each match, as a definition with no contract of its own; `AsWrittenWithoutDollar` relates it to `ReplaceAll` |
| Interpolator.DescendingAsWritten | src/lib/logic/queryInterpolator.ts:75-89 | the descending loop as written, as a definition with no contract of its own; `DescendingAsWrittenWithoutDollar` relates it to `ReplaceDescending` |
| Interpolator.ExpandWithoutDollar | src/lib/logic/queryInterpolator.ts:86 | a replacement string without `$` is inserted as it is |
| Interpolator.AsWrittenWithoutDollar | src/lib/logic/queryInterpolator.ts:86 | the source's replace agrees with the literal replace for values without `$` |
| Interpolator.DollarValueReinsertsPlaceholder | src/lib/logic/queryInterpolator.ts:86 | the value `$&` for `:1` in `:1` gives `:1` as written, where the literal replace gives `$&` |
| Interpolator.DescendingAsWrittenWithoutDollar | src/lib/logic/queryInterpolator.ts:78-87 | the source's descending loop equals the literal model whenever no value contains `$` |
| InClause.ParseInputValues | src/lib/logic/inClauseBuilder.ts:20-25 | each value is non-empty, trimmed and free of CR/LF |
| InClause.SeparatorText | src/lib/logic/inClauseBuilder.ts:35 | `, ` for comma, and a vertical bar with a space on each side for pipe, as a definition with no contract of its own |
| InClause.Format | src/lib/logic/inClauseBuilder.ts:38 | quoting keeps the number of values (element i is `wrap(values[i])`, see `Text.QuoteParts`) |
| InClause.ChunksOf | src/lib/logic/inClauseBuilder.ts:42-45 | ceil(n/1000) chunks; each is non-empty with at most 1000 items, and all but the last have exactly 1000 |
| InClause.ChunksOfStep | src/lib/logic/inClauseBuilder.ts:43-44 | the first chunk is the first 1000 items, and the rest are the chunks of what follows |
| InClause.ChunksCover | src/lib/logic/inClauseBuilder.ts:42-45 | the chunks concatenate back to the list: nothing is dropped, repeated or reordered |
| InClause.SplitIntoChunks | src/lib/logic/inClauseBuilder.ts:42-45 | the stepping loop pushes exactly `ChunksOf(formatted)`, whose concatenation is `formatted` |
| InClause.ClauseLines | src/lib/logic/inClauseBuilder.ts:47-52 | one clause line per chunk |
| InClause.ClauseLine | src/lib/logic/inClauseBuilder.ts:48-52 | `IN (` chunk `)` for the first chunk and `OR column IN (` chunk `)` for the others, as a definition with no contract of its own; `InClause.TwoClauseLines` states it |
| InClause.InClauseText | src/lib/logic/inClauseBuilder.ts:30-58 | the clause text as a definition, with no contract of its own; `GenerateInClause` is proved against it, and `SingleClause`, `SplitClauseLines` and `TwoClauseLines` state it |
| InClause.GenerateInClause | src/lib/logic/inClauseBuilder.ts:30-58 | the method returns the clause text: split lines above the limit when asked, one `IN (...)` list otherwise |
| InClause.SingleClause | src/lib/logic/inClauseBuilder.ts:56-57 | without splitting, or with at most 1000 values, the output is `IN (` + the joined values + `)`, and `IN ()` for no values |
| InClause.SplitOnlyAboveLimit | src/lib/logic/inClauseBuilder.ts:41 | up to 1000 values, turning the split on changes nothing |
| InClause.SplitClauseLines | src/lib/logic/inClauseBuilder.ts:47-53 | with the split, the output's lines are the clause lines of ceil(n/1000) chunks that hold every formatted value once, in order |
| InClause.ClauseLinesClean | src/lib/logic/inClauseBuilder.ts:47-52 | clause lines of values without a newline are non-empty and hold no newline |
| InClause.TwoClauseLines | src/lib/logic/inClauseBuilder.ts:41-53 | 1001 to 2000 values give `IN (` first 1000 `)` and `OR column IN (` the rest `)`, on two lines |
| Crud.ParseColumns | src/lib/logic/crudGenerator.ts:14-19 | each column is non-empty and contains no whitespace or comma |
| Crud.BindPrefix | src/lib/logic/crudGenerator.ts:30 | the prefix is `@` for SQL Server and `:` for Oracle, and nothing else |
| Crud.DefaultTableNameTrimmed | src/lib/logic/crudGenerator.ts:31 | the default table name is non-empty and trimmed |
| Crud.TableName | src/lib/logic/crudGenerator.ts:31 | the trimmed name, or `[TABLE_NAME]` when that is empty; never blank |
| Crud.TableNameIdempotent | src/lib/logic/crudGenerator.ts:31 | normalising a table name twice is the same as once |
| Crud.Prefixed | src/lib/logic/crudGenerator.ts:56 | each column gets the prefix in front, in the same position |
| Crud.SetClauses | src/lib/logic/crudGenerator.ts:61 | one SET clause per column |
| Crud.GenerateSelect | src/lib/logic/crudGenerator.ts:45-50 | the SELECT template as a definition, with no contract of its own; `Crud.SelectText` and `Crud.SelectLines` state it |
| Crud.GenerateInsert | src/lib/logic/crudGenerator.ts:52-58 | the INSERT template as a definition, with no contract of its own; `Crud.InsertTemplate` and `Crud.InsertLines` state it |
| Crud.GenerateUpdate | src/lib/logic/crudGenerator.ts:60-66 | the UPDATE template as a definition, with no contract of its own; `Crud.UpdateText` and `Crud.UpdateLines` state it |
| Crud.GenerateDelete | src/lib/logic/crudGenerator.ts:68-71 | the DELETE template as a definition, with no contract of its own; `Crud.DeleteText` and `Crud.DeleteLines` state it |
| Crud.GenerateCrud | src/lib/logic/crudGenerator.ts:24-43 | `generateCrud` as a definition, with no contract of its own; `Crud.CrudLines` and `Crud.CrudSelect` to `Crud.CrudDelete` state it |
| Crud.JoinFour | src/lib/logic/crudGenerator.ts:45-50 | four lines joined by a separator are the lines with the separator between each pair |
| Crud.SelectText | src/lib/logic/crudGenerator.ts:45-50 | SELECT is exactly `SELECT\n    ` + columns joined by `,\n    ` + `\nFROM ` + table + `\nWHERE 1=1` |
| Crud.InsertTemplate | src/lib/logic/crudGenerator.ts:52-58 | INSERT is exactly the header, the joined columns, `\n) VALUES (\n    `, the joined prefixed columns and `\n)` |
| Crud.UpdateText | src/lib/logic/crudGenerator.ts:60-66 | UPDATE is exactly `UPDATE t\nSET\n` + the SET clauses joined by `,\n` + `\nWHERE [condition]` |
| Crud.DeleteText | src/lib/logic/crudGenerator.ts:68-71 | DELETE is exactly `DELETE FROM t\nWHERE [condition]` |
| Crud.PrefixJoin | src/lib/logic/crudGenerator.ts:47 | an indent in front of a list joined by `,\n` + indent is the list of indented items joined by `,\n` |
| Crud.SuffixJoin | src/lib/logic/crudGenerator.ts:47 | a list joined by `,\n` is its lines, each but the last ending in a comma |
| Crud.ColumnLines | src/lib/logic/crudGenerator.ts:46-47 | one line per column; line i is the column indented by four spaces, with a comma unless it is the last |
| Crud.SetLines | src/lib/logic/crudGenerator.ts:61-64 | one line per column; line i is `    c = <prefix>c` for column i, with a comma unless it is the last |
| Crud.LinesOf | src/lib/logic/crudGenerator.ts:45-71 | non-empty lines without a newline, joined by newlines, split back into those lines |
| Crud.JoinFlatten | src/lib/logic/crudGenerator.ts:45-66 | a joined block inside a joined list gives the same text as its items spliced into the list |
| Crud.ColumnBlock | src/lib/logic/crudGenerator.ts:46-47 | the column block is one indented line per column, each but the last ending in a comma |
| Crud.SelectLines | src/lib/logic/crudGenerator.ts:45-50 | SELECT's lines: `SELECT`, one indented line per column, `FROM t`, `WHERE 1=1` |
| Crud.InsertLines | src/lib/logic/crudGenerator.ts:52-58 | INSERT's lines: the header, one line per column, `) VALUES (`, one line per prefixed column in the same order, `)` |
| Crud.InsertText | src/lib/logic/crudGenerator.ts:52-58 | for a non-empty column list, INSERT is its lines joined by newlines |
| Crud.UpdateLines | src/lib/logic/crudGenerator.ts:60-66 | UPDATE's lines: `UPDATE t`, `SET`, one `    c = <prefix>c` line per column, `WHERE [condition]` |
| Crud.DeleteLines | src/lib/logic/crudGenerator.ts:68-71 | DELETE's two lines |
| Crud.DefaultTableNameClean | src/lib/logic/crudGenerator.ts:31 | the default table name holds no newline |
| Crud.TableNameClean | src/lib/logic/crudGenerator.ts:31 | normalising a table name without a newline cannot introduce one |
| Crud.CrudSelect | src/lib/logic/crudGenerator.ts:30-35 | a SELECT request has the SELECT lines over the normalised table name |
| Crud.CrudInsert | src/lib/logic/crudGenerator.ts:30-37 | an INSERT request has the INSERT lines over the normalised table name and the style's prefix |
| Crud.CrudUpdate | src/lib/logic/crudGenerator.ts:30-39 | an UPDATE request has the UPDATE lines over the normalised table name and the style's prefix |
| Crud.CrudDelete | src/lib/logic/crudGenerator.ts:30-41 | a DELETE request has the DELETE lines over the normalised table name |
| Crud.CrudLines | src/lib/logic/crudGenerator.ts:24-43 | each query type, over the normalised table name and the style's prefix, has the lines above; the switch covers all four types |
| Crud.DeleteIgnoresColumns | src/lib/logic/crudGenerator.ts:40-41 | DELETE does not depend on the columns or the parameter style |
| ModelMapper.ParseNames | src/lib/logic/modelMapper.ts:12-17 | each name is non-empty and contains no whitespace or comma |
| ModelMapper.UpperChar | src/lib/logic/modelMapper.ts:29 | upper-casing moves lower-case letters to upper case and keeps every other character |
| ModelMapper.LowerChar | src/lib/logic/modelMapper.ts:43 | lower-casing moves upper-case letters to lower case and keeps every other character; each case change undoes the other on letters |
| ModelMapper.Lower | src/lib/logic/modelMapper.ts:43 | `toLowerCase` keeps the length, maps every character through `LowerChar`, leaves no upper-case letter, and changes exactly the upper-case letters |
| ModelMapper.LowerAppend | src/lib/logic/modelMapper.ts:43 | lower-casing works character by character |
| ModelMapper.LowerNoUpper | src/lib/logic/modelMapper.ts:43 | text without upper-case letters is unchanged by lower-casing |
| ModelMapper.LowerRemove | src/lib/logic/modelMapper.ts:43 | lower-casing keeps underscores where they are |
| ModelMapper.SplitOn | src/lib/logic/modelMapper.ts:27 | `split('_')` gives at least one piece, and no piece contains `_` |
| ModelMapper.SplitOnAppend | src/lib/logic/modelMapper.ts:27 | an underscore between two texts separates their pieces |
| ModelMapper.SplitOnWord | src/lib/logic/modelMapper.ts:27 | a word without `_` is one piece |
| ModelMapper.SplitOnRemove | src/lib/logic/modelMapper.ts:27 | the pieces concatenated are the input without its underscores |
| ModelMapper.DropEmpty | src/lib/logic/modelMapper.ts:28 | the filter keeps only non-empty pieces, each of them taken from the input |
| ModelMapper.DropEmptyAppend | src/lib/logic/modelMapper.ts:28 | the filter works piece by piece |
| ModelMapper.DropEmptyConcat | src/lib/logic/modelMapper.ts:28 | dropping empty pieces loses no character |
| ModelMapper.Words | src/lib/logic/modelMapper.ts:27-28 | the words are non-empty and contain no `_` |
| ModelMapper.Capitalize | src/lib/logic/modelMapper.ts:29 | `charAt(0).toUpperCase() + slice(1).toLowerCase()` as a definition, with no contract of its own; `CapitalizeLower` and `SnakeToPascalWord` state it |
| ModelMapper.Capitalized | src/lib/logic/modelMapper.ts:29 | the `.map` over the words gives one capitalised word per input word; `CapitalizedAppend` states that it works word by word and `CapitalizedLower` that only case changes |
| ModelMapper.CapitalizedAppend | src/lib/logic/modelMapper.ts:29 | capitalising works word by word |
| ModelMapper.SnakeToPascal | src/lib/logic/modelMapper.ts:23-31 | `snakeToPascal` as a definition, with no contract of its own; `SnakeToPascalLetters`, `SnakeToPascalJoin`, `SnakePascalSnake` and `PascalSnakePascal` state it |
| ModelMapper.CapitalizeLower | src/lib/logic/modelMapper.ts:29 | capitalising a word changes only letter case |
| ModelMapper.CapitalizedLower | src/lib/logic/modelMapper.ts:29-30 | capitalising every word changes only letter case |
| ModelMapper.SnakeToPascalLetters | src/lib/logic/modelMapper.ts:23-31 | the output has no `_`, and up to letter case it is the input without its underscores |
| ModelMapper.SnakeToPascalAppend | src/lib/logic/modelMapper.ts:26-30 | each `_` ends a word: `a_b` converts as `a` then `b` |
| ModelMapper.SnakeToPascalWord | src/lib/logic/modelMapper.ts:29 | a single word is capitalised: first character upper case, the rest lower case |
| ModelMapper.SnakeToPascalJoin | src/lib/logic/modelMapper.ts:26-30 | words joined by `_` become the concatenation of the capitalised words, in order |
| ModelMapper.Mark | src/lib/logic/modelMapper.ts:41 | `_` in front of an upper-case letter, any other character kept, as a definition with no contract of its own; `PascalWordMarks` and `UnderscoredRemove` state it |
| ModelMapper.Underscored | src/lib/logic/modelMapper.ts:41 | inserting underscores never shortens the text |
| ModelMapper.UnderscoredAppend | src/lib/logic/modelMapper.ts:41 | the global replace works character by character |
| ModelMapper.UnderscoredNoUpper | src/lib/logic/modelMapper.ts:41 | text without upper-case letters gets no underscore |
| ModelMapper.UnderscoredRemove | src/lib/logic/modelMapper.ts:41 | apart from underscores, the replace changes nothing |
| ModelMapper.StripLeadingUnderscore | src/lib/logic/modelMapper.ts:42 | exactly one leading `_` is removed, and text that does not start with `_` is kept |
| ModelMapper.StripLower | src/lib/logic/modelMapper.ts:42-43 | stripping and lower-casing can be done in either order |
| ModelMapper.PascalToSnake | src/lib/logic/modelMapper.ts:37-44 | the output has no upper-case letter |
| ModelMapper.PascalToSnakeLetters | src/lib/logic/modelMapper.ts:40-43 | apart from underscores, the output is the input lower-cased |
| ModelMapper.StripAppend | src/lib/logic/modelMapper.ts:42 | only the start of the text is affected by the anchored replace |
| ModelMapper.PascalToSnakeAtUpper | src/lib/logic/modelMapper.ts:40-43 | every upper-case letter after position 0 is preceded by `_` and starts a lower-cased word |
| ModelMapper.PascalToSnakeNoUpper | src/lib/logic/modelMapper.ts:40-43 | input without upper-case letters comes back with only a leading `_` dropped, and unchanged when it does not start with `_` |
| ModelMapper.EmptyUnchanged | src/lib/logic/modelMapper.ts:24-38 | both conversions return the empty string unchanged |
| ModelMapper.PascalWordMarks | src/lib/logic/modelMapper.ts:41 | a PascalCase word gets exactly one underscore, in front |
| ModelMapper.PascalWordLower | src/lib/logic/modelMapper.ts:43 | a lower-cased PascalCase word is a snake_case word |
| ModelMapper.PascalWordsMarks | src/lib/logic/modelMapper.ts:41-43 | PascalCase words, marked and lower-cased, are `_` + the lower-cased words joined by `_` |
| ModelMapper.PascalToSnakeWords | src/lib/logic/modelMapper.ts:40-43 | a run of PascalCase words becomes the lower-cased words joined by `_` |
| ModelMapper.SnakeWordCapitalized | src/lib/logic/modelMapper.ts:29 | a capitalised snake_case word is a PascalCase word that lower-cases back |
| ModelMapper.PascalWordLowered | src/lib/logic/modelMapper.ts:29 | capitalising a lower-cased PascalCase word gives it back |
| ModelMapper.PascalSnakePascal | src/lib/logic/modelMapper.ts:23-44 | PascalCase to snake_case and back returns the identifier |
| ModelMapper.SnakePascalSnake | src/lib/logic/modelMapper.ts:23-44 | snake_case to PascalCase and back returns the identifier |
| ModelMapper.SnakeToPascalTwoWords | src/lib/logic/modelMapper.ts:26-30 | `a_b` becomes `Capitalize(a) + Capitalize(b)` |
| ModelMapper.SnakeToPascalUserId | src/lib/logic/modelMapper.ts:21 | `user_id` becomes `UserId` |
| ModelMapper.SnakeToPascalCreatedAt | src/lib/logic/modelMapper.ts:21 | `CREATED_AT` becomes `CreatedAt` |
| ModelMapper.PascalToSnakeTwoWords | src/lib/logic/modelMapper.ts:40-43 | two PascalCase words become the lower-cased words joined by `_` |
| ModelMapper.PascalWordOf | src/lib/logic/modelMapper.ts:40-43 | an upper-case letter followed by lower-case text is one PascalCase word, and lower-casing it changes only that letter |
| ModelMapper.PascalToSnakeUserId | src/lib/logic/modelMapper.ts:35 | `UserId` becomes `user_id` |
| ModelMapper.PascalToSnakeCreatedAt | src/lib/logic/modelMapper.ts:35 | `CreatedAt` becomes `created_at` |
| ModelMapper.PropertyTokensEmptyName | src/lib/logic/modelMapper.ts:49-51 | for an empty name, the declaration splits into the six tokens `public`, the type, `{`, `get;`, `set;`, `}`: the name is missing |
| ModelMapper.PropertyShape | src/lib/logic/modelMapper.ts:49-51 | the declaration is `public`, the type, the name and `{ get; set; }`, each separated by one space |
| ModelMapper.BracesTokens | src/lib/logic/modelMapper.ts:50 | the declaration's tail `{ get; set; }` splits into `{`, `get;`, `set;`, `}` |
| ModelMapper.PropertyJoin | src/lib/logic/modelMapper.ts:49-51 | the property declaration is `public`, the type, the name, `{`, `get;`, `set;`, `}` joined by single spaces |
| ModelMapper.GenerateProperty | src/lib/logic/modelMapper.ts:49-51 | the property template as a definition, with no contract of its own; `PropertyJoin` and `PropertyTokens` state it |
| ModelMapper.PropertyTokens | src/lib/logic/modelMapper.ts:49-51 | for a non-empty name and a non-empty type without whitespace, the declaration splits into exactly those seven tokens, with the type second and the name third |
| ModelMapper.DataTypesAreTokens | src/lib/logic/modelMapper.ts:56-66 | the nine listed C# types are distinct, non-empty and free of whitespace |

## Left out

- The React tool components, page layout, routing metadata, the advertising
  banner and the clipboard and toast calls. None of them is part of these
  transformers.
- Unicode:
  - `\s` and `trim` are modelled over the ASCII whitespace characters;
  - `toUpperCase` and `toLowerCase` are modelled as ASCII case mapping;
  - a string is a sequence of characters, with no UTF-16 surrogate pairs, so
    the code-point iteration of `for…of` is one step per character.
- The regular-expression engine:
  - The splits and the replaces are written directly over sequences.
  - Escaping the placeholder (queryInterpolator.ts:84) leaves it unchanged,
    because `@`, `p`, `:` and digits are not special characters.
  - The model therefore uses the placeholder text itself as the pattern.
- `wrap` is a closure in the source. The model passes the `addQuotes` flag down
  and applies `Text.Quote` where the closure is called.
- Text.Trim: its own contract states only that the ends are trimmed and the
  length does not grow. Where the result sits in the input, and that only
  whitespace is removed, is stated by `Text.TrimParts`. Keeping those facts
  out of the function's contract keeps every proof that uses `Trim` small.
- Interpolator.ReplaceQuestionMarks: the final consumption index is returned
  only as a ghost out-parameter, because the source does not return it.
- Interpolator.DescendingFills: placeholders are proved to be filled
  correctly only under four conditions:
  - no value contains the placeholder marker;
  - literal text does not contain the marker (`:` or `@`). A marker in the
    text followed by digits is itself a placeholder to the source: with
    thirty values, the `:30` of `'12:30'` is replaced. The model excludes
    every marker rather than only those followed by a token, to keep the
    piece view simple. A text with a marker that cannot start a token, such
    as T-SQL's `@var`, is still filled by the source; the theorem just does
    not cover it;
  - literal text that follows a placeholder is non-empty and does not start
    with a digit;
  - a placeholder written directly after another has a value that is
    non-empty and does not start with a digit. With quoting on this always
    holds (`Interpolator.FollowersOpenQuoted`).

  The comment on queryInterpolator.ts:77 gives the reason for the reverse
  order: `:1` must not match inside `:10`. When a condition fails, a value
  or the text next to it can still form a placeholder of a smaller number:
  `Interpolator.AdjacentDigitValue` shows `:1:11` with the eleventh value `0`
  coming out as the tenth value.
- Interpolator.IndexedFillsPlaceholders: holds under the same four conditions
  as `DescendingFills`.
- Interpolator.ReplaceIndexedPlaceholders: substitutes each value literally,
  which is the corrected behaviour of the row under "## Findings". The source
  passes the value to `String.prototype.replace`, which expands `$`
  patterns; that behaviour is `Interpolator.DescendingAsWritten`, and
  `Interpolator.DescendingAsWrittenWithoutDollar` proves the two equal when no
  value contains `$`.
- Interpolator.InterpolateQuery: uses the literal substitution of
  `ReplaceIndexedPlaceholders` for the two indexed styles, for the same reason.
- InClause.Format: states only the length. That element i is `wrap(values[i])`
  is the definition, and `Text.QuoteParts` describes it.
- Crud.SetClauses: states only the count. The text of each clause is stated
  line by line by `Crud.UpdateLines` and `Crud.UpdateText`.
- Crud.SelectLines: the line structure is stated only for a non-empty column
  list, with no newline in the names or the table name. The tool rejects an
  empty column list before calling the generator
  (src/components/tools/CrudGenerator.tsx:23-27). `Crud.SelectText` gives the
  exact text for every input, the empty list included.
- Crud.InsertText: stated for a non-empty column list only, like
  `Crud.SelectLines`. `Crud.InsertTemplate` gives the exact text for every
  input, the empty list included.
- Crud.InsertLines: the same restriction as `Crud.SelectLines`.
  `Crud.InsertTemplate` gives the exact text for every input.
- Crud.UpdateLines: the same restriction as `Crud.SelectLines`.
  `Crud.UpdateText` gives the exact text for every input.
- Crud.CrudLines: the same restriction as `Crud.SelectLines`, for all four
  query types.
- Crud.CrudSelect: the same restriction as `Crud.SelectLines`.
- Crud.CrudInsert: the same restriction as `Crud.SelectLines`.
- Crud.CrudUpdate: the same restriction as `Crud.SelectLines`.
- Crud.CrudDelete: the same restriction as `Crud.SelectLines`.
- Crud.DeleteLines: the line structure is stated only for a table name without
  a newline. `Crud.DeleteText` gives the exact text for every name.
- ModelMapper.PropertyTokens: stated for a non-empty name. An empty name,
  which is what `snakeToPascal("___")` returns, gives a declaration with two
  spaces in a row. The split on whitespace runs reads them as one, so the
  declaration has six tokens and the name is simply missing
  (`ModelMapper.PropertyTokensEmptyName`).
- `generateProperty` is the template itself (`ModelMapper.GenerateProperty`).
  Its type argument is not checked against `csharpDataTypes`, as in the source.
- Placeholder numbers are unbounded naturals. JavaScript's number formatting
  differs only above 2^53 parameters, which cannot occur.

## Findings

| source | as written | input that shows it | evidently intended | confidence | as-written member | corrected member |
|---|---|---|---|---|---|---|
| src/lib/logic/queryInterpolator.ts:86 | the quoted value is passed to `String.prototype.replace` as a replacement string, so `$&`, `$$`, `` $` `` and `$'` inside a parameter value are expanded against the match | SQL `:1`, oracle style, parameter `$&`, no quotes: the result is `:1` | every placeholder is replaced by the parameter value as typed, here `$&` | high; not executed | Interpolator.DollarValueReinsertsPlaceholder | Interpolator.IndexedFillsPlaceholders |
