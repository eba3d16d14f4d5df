# sails-rethinkdb query compiler and case conversion, in Dafny

This project models the two pure parts of the sails-rethinkdb adapter:

- **The criteria compiler** (`Query` in `lib/query.js`). It turns a Sails criteria
  descriptor such as `{where, sort, skip, limit}` into a chain of RethinkDB builder
  calls on a table handle. The chain is modelled as syntax, the `Term` datatype:
  `Table`, `Filter(q, And(conditions))`, `OrderBy(q, Asc|Desc, index)`, `Skip(q, v)`,
  `Limit(q, v)`. A condition is `row(field).eq/lt/le/gt/ge/ne(value)`. An
  `undefined` argument to `r.and` (a key that produced no condition) is `None`.
  The JavaScript values the compiler reads are the `Value` datatype. Objects are
  ordered key/value sequences, because `Object.keys` order decides the order of
  the steps. `Object.keys(null)` and `Object.keys(undefined)` throw a TypeError,
  which is the `Err(TypeError)` result.
- **Case conversion** (`pascalCase` and `camelCase` in `lib/utils.js`). The input is split on
  runs of JavaScript whitespace (`\s`). Each piece is stripped to its ASCII letters
  and re-cased by the `/(\w)(\w*)/g` replace. The pieces are then joined with nothing between them.

Modules:

- `JsValue` (js_value.dfy): values, `typeof … === "object"`, and `Object.keys` with property lookup (`OwnKeys`).
- `Reql` (reql.dfy): the emitted terms, plus `Root` and `Spine`, which read a chain back.
- `QueryCompiler` (query.dfy): `BuildExpression`, `Conditions`/`BuildWhere`, `BuildOrder`,
  the loop step `ApplyEntry`, and the fold `ApplyFrom`/`Compile` that specifies the loop.
  It also holds the class `Query`, whose `Build` method runs the source's loop over
  the descriptor's keys and is proved equal to `Compile`.
- `QueryLaws` (query_laws.dfy): step order, error cases, alias and first-key rules, sort direction.
- `CaseConversion` (case_conversion.dfy): the string functions and their properties.

The model follows the code, including where it does less than the Sails query language it accepts:

- for an unknown operator the compiler builds no condition and raises no error of its own: it passes `undefined` to `r.and`;
- `or` is not compiled;
- `contains`, `like`, `startsWith` and `endsWith` are not implemented;
- `limit` is applied where its key appears, so it is not moved after `sort` and `skip`;
- only the first sort field is used;
- `limit: 0` is passed through like any other value;
- there are no joins.

## Model

| member | source | states |
|---|---|---|
| `JsValue.OwnKeys` | lib/query.js:107-108 | `Object.keys` throws exactly on null and undefined; an object yields its own pairs in order; an array or string yields index keys "0", "1", … with their elements; numbers and booleans yield none |
| `JsValue.IndexKeyInjective` | lib/query.js:107 | distinct array indices have distinct property names |
| `JsValue.OwnKeysOfIndexedDistinct` | lib/query.js:107 | the keys `Object.keys` gives an array or a string are pairwise distinct, as in every JavaScript object |
| `QueryCompiler.OperatorOf` | lib/query.js:109-115 | a key selects a comparison exactly when it is one of the ten listed operator tokens, and none of them selects equality |
| `QueryCompiler.BuildExpression` | lib/query.js:105-119 | null throws; a non-object value gives `eq`; for an object, a condition is produced only when the first key is an operator, and it then carries that key's value |
| `QueryCompiler.Conditions` | lib/query.js:69-78 | one condition per key, in key order; `or` gives `undefined` and its value is never examined; it fails exactly when a non-`or` key's value is null |
| `QueryCompiler.BuildWhere` | lib/query.js:66-81 | `where: null` returns the query unchanged; otherwise a single `filter` over `r.and` with exactly as many conditions as the clause has keys; it fails on undefined or on a null field value |
| `QueryCompiler.BuildOrder` | lib/query.js:121-127 | orders the incoming query by the index of the first field only; ascending exactly when that field's value is the number 1; `undefined` index when there are no keys; throws on null or undefined |
| `QueryCompiler.ApplyEntry` | lib/query.js:26-32 | `where` is compiled by `BuildWhere` and `sort` by `BuildOrder` on the query built so far; `skip` and `limit` wrap it and pass their value through unchanged; an unrecognised key leaves the query as it is |
| `QueryCompiler.Compile` | lib/query.js:23-35 | a descriptor without keys returns the table unchanged; a null or undefined descriptor throws |
| `QueryCompiler.Query.constructor` | lib/query.js:19-21 | the compiler stores the table handle it is given |
| `QueryCompiler.Query.Build` | lib/query.js:23-35 | the loop over the descriptor's keys returns exactly what the fold `Compile` specifies, including its first error |
| `QueryCompiler.Query.BuildOn` | lib/query.js:15-17 | the static entry point makes a compiler on the table and returns its `Build` result |
| `QueryLaws.EntryFailsIff` | lib/query.js:26-32 | the compiler's own code throws on a single descriptor entry exactly under `EntryFails`, a condition written independently of the compiler |
| `QueryLaws.ApplyFromAppend` | lib/query.js:25-33 | the loop is a left fold: a split descriptor compiles as its first part followed by its second part, and an error in the first part is final |
| `QueryLaws.CompiledSteps` | lib/query.js:23-35 | a successful build sits on the same table and appends exactly one step per recognised key, in the descriptor's key order; other keys and `where: null` add nothing |
| `QueryLaws.ApplyFromFailsIff` | lib/query.js:25-33 | the fold throws exactly when the compiler's own code throws on some entry of the descriptor |
| `QueryLaws.CompileFailsIff` | lib/query.js:15-35 | the compiler's own code throws exactly when the descriptor is null or undefined, or when it throws on one of the entries |
| `QueryLaws.NeutralEntryIgnored` | lib/query.js:27-32 | removing an unrecognised key, or `where: null`, from any position leaves the result unchanged |
| `QueryLaws.PaginationPassesThrough` | lib/query.js:30-31 | `skip` and `limit` wrap everything built before them, with their value unchanged |
| `QueryLaws.LimitNotMovedAfterSort` | lib/query.js:25-33 | `{limit: n, sort: {f: 1}}` compiles to `orderBy` applied on top of `limit`, so the limit is not moved last |
| `QueryLaws.OperatorAliases` | lib/query.js:110-114 | each operator symbol and its word alias compile to the same condition, carrying the operator's value |
| `QueryLaws.FirstKeyOnly` | lib/query.js:106-108 | keys after the first key of an operator mapping have no effect |
| `QueryLaws.UnknownOperatorYieldsNothing` | lib/query.js:109-115 | a first key that is not an operator, or an empty mapping, gives no condition |
| `QueryLaws.UnsupportedModifiersYieldNothing` | lib/query.js:109-115 | a condition whose first key is `contains`, `like`, `startsWith` or `endsWith` gives no condition |
| `QueryLaws.WhereOnly` | lib/query.js:25-28 | a descriptor with only a `where` clause compiles to exactly what `BuildWhere` builds on the table |
| `QueryLaws.WhereEquality` | lib/query.js:66-79 | `{where: {f: v}}`, with `f` not `or` and `v` not an object, filters the table by the single condition `f == v` |
| `QueryLaws.ArrayExpressionYieldsNothing` | lib/query.js:106-115 | an array-valued field condition is dropped: its first key "0" is not an operator |
| `QueryLaws.SortFirstFieldOnly` | lib/query.js:121-127 | `{f: v, …}` orders by index `f` alone, ascending exactly when `v` is the number 1 |
| `CaseConversion.SplitPieces` | lib/utils.js:85 | a split has at least one piece and no piece contains whitespace |
| `CaseConversion.SplitOfWord` | lib/utils.js:85 | a string without whitespace splits into exactly one piece, itself |
| `CaseConversion.SplitAfterRun` | lib/utils.js:85 | a whole run of whitespace at the front, followed by the end or a non-whitespace character, gives one empty piece and then the pieces of the rest |
| `CaseConversion.SplitAtSpace` | lib/utils.js:85 | a word, a whole run of whitespace and a rest that does not start with whitespace split into the word followed by the pieces of the rest, so a run separates two pieces |
| `CaseConversion.LeadingSpaceGivesEmptyPiece` | lib/utils.js:85 | leading whitespace produces an empty first piece |
| `CaseConversion.SplitJoin` | lib/utils.js:84-85 | concatenating the pieces gives the input with its whitespace removed |
| `CaseConversion.StripNonLetters` | lib/utils.js:71 | the stripped piece holds only ASCII letters and is no longer than the piece; it is empty exactly when the piece has no letters, and a piece of letters only is kept whole |
| `CaseConversion.ReplaceWordRuns` | lib/utils.js:72-77 | the regular-expression replace only changes the case of characters: the lower-cased output equals the lower-cased input |
| `CaseConversion.ReplaceInsideRun` | lib/utils.js:72-75 | inside a run of word characters the replace lower-cases every character |
| `CaseConversion.ReplaceOnLetters` | lib/utils.js:72-77 | on a letters-only string the replace matches the whole string once and capitalises it |
| `CaseConversion.Pascalize` | lib/utils.js:73-75 | the replacement for a match keeps its characters and changes only their case; on letters it upper-cases the first and lower-cases the rest |
| `CaseConversion.MapToPascal` | lib/utils.js:76-78 | a piece becomes its letters, the first upper-cased and the rest lower-cased; a piece without letters becomes empty |
| `CaseConversion.PascalCaseWords` | lib/utils.js:83-88 | `pascalCase` is the concatenation, in order and without separators, of each whitespace-separated piece's capitalised letters |
| `CaseConversion.PascalCaseKeepsLetters` | lib/utils.js:70-88 | `pascalCase` keeps exactly the ASCII letters of its input, in order, changing only their case |
| `CaseConversion.PascalCaseLettersOnly` | lib/utils.js:71-77 | the output holds only ASCII letters, one per letter of the input, so it is never longer than the input |
| `CaseConversion.PascalCaseEmptyIff` | lib/utils.js:83-88 | the output is empty exactly when the input has no letters, and `pascalCase("") == ""` |
| `CaseConversion.CamelCase` | lib/utils.js:94-100 | `camelCase` equals `pascalCase` with only the first character lower-cased, and is empty exactly when `pascalCase` is |
| `CaseConversion.CamelCaseShape` | lib/utils.js:94-100 | `camelCase` holds the input's letters in order, only letters, starts lower-case, and is empty exactly when the input has no letters |

## Left out

- The adapter registry, connection setup, table creation and query execution (index.js, lib/connection.js, lib/table.js) are asynchronous I/O around the driver. lib/table.js reaches the compiler only through `Query.build` (lib/table.js:32, 42, 50, 58, 66), which is `Query.BuildOn` here.
- What RethinkDB does with the emitted terms is left out. This includes how `filter`, `orderBy` with an index, `skip` and `limit` evaluate. It also includes how the driver treats an `undefined` argument: to `r.and` or `r.desc`, as the operand of `eq` or a comparison (`{a: undefined}`, `{a: {">": undefined}}`), or as the value of `skip` or `limit` (`{skip: undefined}`). The model stops at the term the compiler builds. The `filter` callback, where the `where` clause calls `Object.keys`, runs while the driver builds the term. So a TypeError inside it is thrown by `Query.build`, and the model treats it that way. Its errors are only those the compiler's own code raises, the TypeError of `Object.keys`. If the driver rejects an `undefined` argument while the query is being built, `Query.build` also throws for a clause with `or` or an unknown operator, for `sort: {}`, and for `skip: undefined`; the model does not capture that.
- `or` clauses are not compiled by the source (a TODO), and neither are `contains`, `like`, `startsWith` and `endsWith`. The model gives them the source's `undefined` condition.
- Joins are not modelled: the join entry point in index.js is commented out.
- The type predicates (`isObject`, `isDate`, …) and `forOwn` in lib/utils.js are left out. They rely on runtime reflection or wrap a callback loop.
- JavaScript numbers are modelled as integers. Fractions, NaN and infinities are not modelled.
- `Obj` does not require its keys to be distinct, although no JavaScript object has a key twice. `DistinctKeys` states that condition, and the proved properties hold without it.
- Objects are given in `Object.keys` order. JavaScript's rule that integer-like keys come first is not modelled. Sparse arrays, inherited properties and getters are not modelled either.
- Strings are sequences of Unicode scalar values, not UTF-16 code units. This changes nothing for whitespace or ASCII letters. It does change the index keys `Object.keys` gives a string with characters outside the Basic Multilingual Plane.
- The compiled query is a value. Aliasing of the shared driver handle, where table.js attaches `conn` and `r` to it, is not modelled.
