# pystgres core in Dafny

pystgres is an in-memory emulator of a small part of PostgreSQL, written in Python.
This project models its core, `pystgres.py`:

- **Catalog.** The immutable catalog (`Database`, `Schema`, `Table`). It covers table lookup with `_get_table`, table creation and replacement with `_update_table`, function lookup with `_get_function`, `Table.insert`, and the `AbstractRow` check that a row has exactly its table's columns.
- **FROM-clause registry.** `QueryTables` holds the tables in scope by alias and by (relation name, schema). Its `add`, `merge` and column/table resolution are here.
- **Expressions.** The operator table `_get_aexpr_op`, the LIKE/ILIKE pattern translation, resolution of the parser's expression nodes to evaluable elements (`parse_select_expr`), and their evaluation on joined rows.
- **ORDER BY.** `SortByStrategy` and `SortByKey`, the order on key tuples, and the stable `sorted`.
- **The statement handlers of `MockDatabase`.** CREATE TABLE and INSERT replace the connection's database. SELECT builds the cross product of its FROM items, filters it by WHERE (and JOIN ... ON), sorts it stably by ORDER BY and projects the target list.

### Modules

The modules follow the source's layering:

- `Values` (values.dfy) holds Python values and the exceptions raised.
- `Like` (like.dfy) holds the LIKE translation and matching.
- `Ordering` (ordering.dfy) holds sort keys and the stable sort.
- `Catalog` (catalog.dfy) holds tables, schemas and the database.
- `Sources` (sources.dfy) holds `QueryTables`.
- `Expressions` (expressions.dfy) holds operators, expression nodes, resolution and evaluation.
- `Select` (select.dfy) holds row lists, FROM items, the SELECT pipeline and the `MockDatabase` class.

### Modelling choices

- **Values.** Python values are `Value = Int | Text | Bool | Null`. `==` follows Python, so `True == 1` and `None == None`. `<` compares numbers with numbers and strings with strings, and raises `TypeError` otherwise.
- **Errors.** Every exception is a variant of one `Error` datatype, and an operation that can raise returns `Result`.
- **Statements and nodes.** The parser's statements and expression nodes are closed datatypes (`Statement`, `FromClause`, `Node`). Anything the source does not handle is the variant `OtherStatement`, `OtherFrom` or `OtherNode`, and raises `NotImplemented`.
- **Mutable objects.** `QueryTables` and `MockDatabase` are classes whose methods update their fields in place. Each method is proved against a function on the fields' contents (`Entries`, `Database`).
- **LIKE.** The pattern is read into tokens (`Lit`, `AnyOne` for `_`, `AnyRun` for `%`). The emitted regular expression is modelled too, and so is the whole-text match that `re.fullmatch` performs on it. ILIKE folds ASCII letters.
- **ORDER BY.** `sorted` is modelled as an insertion sort on keys decorated with input positions. `Ordering.StableSortIsUnique` shows that any stable sort gives the same result.
- **Missing exception classes.** Several exceptions the code raises are missing from `exc.py` (`NotNullViolation`, `UndefinedTableError`, `AmbiguousTableError`, `PostgresSyntaxError`, `UndefinedFunctionError`). Others are unqualified names that are never defined (`InvalidSchemaNameError` and `UndefinedFunctionError` at pystgres.py:268-271, `InvalidEscapeSequence` at pystgres.py:572). Python would raise `AttributeError` or `NameError` at those points. The model raises the exception the code evidently means.
- **Two UndefinedTable errors.** `_get_table` raises `UndefinedTableError` for a table missing from the catalog; this is `UndefinedTable`. `QueryTables` raises it with "missing FROM-clause entry" for a name not in scope; this is `MissingFromEntry`.

## Model

| member | source | states |
|---|---|---|
| Values.PyEqIsEquivalence | pystgres.py:184-187 | Python `==` on values (with `True == 1`) is reflexive, symmetric and transitive, so sort keys compare as an equivalence |
| Values.PyLessTrichotomy | pystgres.py:173-182 | where `<` does not raise, exactly one of `a < b`, `b < a`, `a == b` holds, and `b < a` does not raise either |
| Values.PyLessTransitive | pystgres.py:173-182 | `<` on numbers and on strings is transitive |
| Like.LikePatternToRegex | pystgres.py:552-572 | the translation loop raises InvalidEscapeSequence exactly when the pattern ends in an unpaired backslash; otherwise it returns the regular expression of the pattern's tokens |
| Like.DecodeRegexOf | pystgres.py:552-572 | the emitted regular expression determines the token list: reading it back gives the tokens, so `.`, `.*` and escaped characters never run together |
| Like.RegexOfAppend | pystgres.py:552-572 | the regular expression is emitted token by token, in pattern order |
| Like.TokenizeErrorIsDanglingEscape | pystgres.py:555-572 | the only translation error is InvalidEscapeSequence, and only for a non-empty pattern whose last character is a backslash |
| Like.TokenizeEscapeAtEnd | pystgres.py:555-572 | a backslash followed by any character adds that character as a literal; a trailing backslash makes the pattern an error |
| Like.TokenizeCharAtEnd | pystgres.py:555-570 | after a well-formed pattern, any character but a backslash adds its own token: `%` a run of any length, `_` exactly one character, anything else itself |
| Like.TokenizeEscapeAll | pystgres.py:555-559 | escaping every character of a text gives exactly its literals |
| Like.PercentMatchesEverything | pystgres.py:575-582 | `LIKE '%'` and `ILIKE '%'` hold for every text, empty or containing newlines |
| Like.UnderscoreMatchesOneChar | pystgres.py:575-577 | `LIKE '_'` holds exactly for texts of one character; as written (`re.fullmatch` without DOTALL) it holds exactly for one-character texts other than a newline |
| Like.AnyRunAsWritten | pystgres.py:564-577 | as written, `%` alone matches exactly the texts that contain no newline |
| Like.LiteralsMatchExactly | pystgres.py:575-577 | a pattern of literals matches its own text and nothing else: the match covers the whole text |
| Like.EscapedPatternMatchesOnlyItself | pystgres.py:552-577 | a pattern escaping every character of `s` matches `s` alone |
| Like.MatchesConcat | pystgres.py:575-577 | a concatenation of token lists matches exactly the texts that split into a match of each part |
| Like.EscapedPercentThenPercent | pystgres.py:552-577 | `LIKE '\%%'` holds exactly for texts starting with `%`; as written, exactly for those with no newline after that `%` |
| Like.DanglingEscapeRejected | pystgres.py:571-582 | LIKE and ILIKE both reject a pattern ending in an unpaired backslash with InvalidEscapeSequence, whatever the text |
| Like.CaseSensitiveImpliesInsensitive | pystgres.py:575-582 | a case-sensitive match is also a case-insensitive one |
| Like.FoldingTextKeepsMatch | pystgres.py:580-582 | ILIKE gives the same answer on a text and on its ASCII-folded form |
| Like.ILikeExtendsLike | pystgres.py:575-582 | LIKE and ILIKE raise on the same patterns; whatever LIKE accepts ILIKE accepts; ILIKE ignores ASCII case in the text |
| Like.WildcardSkipsNewlineAsWritten | pystgres.py:561-563 | as written (`.` without DOTALL), `'a\nb' LIKE 'a%'` is false although SQL matching holds |
| Like.RegexAgreesWithoutNewline | pystgres.py:575-582 | on texts without a newline, `re.fullmatch` on the emitted regular expression agrees with SQL matching |
| Like.OperatorsAgreeWithoutNewline | pystgres.py:575-582 | `like_operator` and `ilike_operator` as written raise exactly where the SQL-meaning operators raise, and give the same answer on every text without a newline |
| Ordering.StrategyPlacesNulls | pystgres.py:143-159 | ascending unless `sortby_dir == 2`; with nulls code 0, NULLs go last ascending and first descending; code 2 forces NULLS LAST, any other non-zero code NULLS FIRST; `nulls_first == !nulls_last` |
| Ordering.KeyLessIrreflexive | pystgres.py:173-182 | a key is never less than an equal one, two NULLs included |
| Ordering.KeyLessNull | pystgres.py:178-181 | a NULL is placed by `nulls_first`/`nulls_last` alone, independent of direction |
| Ordering.KeyLessNonNull | pystgres.py:182 | two non-NULL values compare by `<` ascending and by reversed `<` descending |
| Ordering.KeyLessTrichotomy | pystgres.py:173-182 | where keys compare, equal keys are not less either way and unequal keys are less in exactly one direction |
| Ordering.KeyLessRespectsEq | pystgres.py:173-187 | keys whose values are `==` compare alike against any third key |
| Ordering.KeyLessTransitive | pystgres.py:173-182 | key `<` is transitive |
| Ordering.TupleEqSymmetricTransitive | pystgres.py:184-187 | tuple `==` over `SortByKey.__eq__` is symmetric and transitive |
| Ordering.TupleLessTrichotomy | pystgres.py:451-457 | the lexicographic `<` on key tuples is a strict total order where it does not raise |
| Ordering.TupleLessRespectsEq | pystgres.py:451-457 | `==` tuples compare alike against any third tuple |
| Ordering.TupleLessTransitive | pystgres.py:451-457 | tuple `<` is transitive |
| Ordering.SortByKeys | pystgres.py:451-457 | the sort raises TypeError exactly when two key tuples do not compare, and otherwise keeps the number of items |
| Ordering.SortByKeysIsStableSort | pystgres.py:451-457 | the result is the decorated input rearranged into sorted and stable order: smaller keys first, ties in input order |
| Ordering.SortKeyedSorted | pystgres.py:451-457 | the insertion sort produces a stably sorted sequence |
| Ordering.StableSortIsUnique | pystgres.py:451-457 | two stably sorted permutations of the same items are equal, so any stable sort (timsort included) gives the modelled result |
| Ordering.SortByKeysPermutes | pystgres.py:451-457 | the sorted rows are a permutation of the input rows |
| Ordering.SortedPlacesNulls | pystgres.py:173-182 | in a stably sorted sequence under one key, NULLS LAST puts every NULL after the non-NULLs and NULLS FIRST before them |
| Catalog.Insert | pystgres.py:88-95 | `Table.insert` keeps schema, name and columns and appends the new rows after the existing ones, in order, without a key check |
| Catalog.InsertTwice | pystgres.py:88-95 | inserting `a` then `b` is inserting `a + b` |
| Catalog.NewTable | pystgres.py:97-103 | a created table has the declared columns and no rows |
| Catalog.BuildRow | pystgres.py:404-411 | `rowtype(zip(cols, values))` has exactly the names paired with a value; surplus names or values are dropped |
| Catalog.BuildRowDistinct | pystgres.py:404-411 | with distinct names and enough values, each name maps to its positional value |
| Catalog.CheckRow | pystgres.py:53-75 | a row passes iff it has every table column and no other; otherwise NotNullViolation for the first missing column in table order, or UndefinedColumn for an extra key when none is missing |
| Catalog.FullRowFits | pystgres.py:53-75 | a row built from the table's own columns and one value each passes the check |
| Catalog.MissingColumnErrorAsWritten | pystgres.py:59-68 | the not-null message builds as intended only when every value in the row is a string; otherwise building it raises TypeError |
| Catalog.MissingColumnWithNumberRaisesTypeError | pystgres.py:59-68 | a row `{baz: 1}` missing column `bang` raises TypeError as written, not the NotNullViolation intended |
| Catalog.InitialDatabase | pystgres.py:190-202 | a new database has schemas `public` and `pg_catalog` only and is valid |
| Catalog.GetTableFinds | pystgres.py:204-216 | `_get_table` returns the table stored under the name in the given schema (`public` when none is given), else UndefinedTable naming `relname` or `schema.relname` |
| Catalog.UpdateThenGet | pystgres.py:218-233 | after `_update_table(t)`, looking up `t`'s schema and name gives `t`; every other table is unchanged; a missing schema is created; validity is kept |
| Catalog.UpdateKeepsFunctions | pystgres.py:224-233 | updating a table leaves function lookup unchanged |
| Catalog.GetFunctionFinds | pystgres.py:265-276 | `_get_function` looks in the named schema (`pg_catalog` by default): InvalidSchemaName for a missing schema, UndefinedFunction for a missing function |
| Catalog.InitialFunctions | pystgres.py:265-276 | `length` resolves unqualified and in `pg_catalog` but not in `public`; an unknown schema is InvalidSchemaName |
| Catalog.Apply | pystgres.py:190-191 | `length(x)` is the string's length, and raises TypeError unless given exactly one string |
| Sources.EffectiveAlias | pystgres.py:294-302 | `if alias:` treats an empty alias as no alias |
| Sources.AddEntryAddsOne | pystgres.py:294-309 | a successful `add` keeps the registry well formed and adds exactly one entry to `all_tables` |
| Sources.AddingTableTwice | pystgres.py:294-302 | the same unaliased table twice raises DuplicateAlias with its name; a second copy under a fresh alias is accepted |
| Sources.AddedIsFound | pystgres.py:294-336 | an aliased table is found by its alias; an unaliased one by its schema and name |
| Sources.SameNameTwoSchemasIsAmbiguous | pystgres.py:294-336 | the same relation name from two schemas is accepted, and the bare name is then AmbiguousTable |
| Sources.SourceByTableFinds | pystgres.py:328-336 | a table reference resolves by alias first, then by a relation name registered in exactly one schema; it fails iff neither holds |
| Sources.UnionOfCompatible | pystgres.py:311-319 | merging compatible registries is well formed, its entries are both sides' entries, and the order of the two does not matter |
| Sources.CompatibleByEntries | pystgres.py:311-319 | two registries merge iff no alias of the second is an alias or relation name of the first, and no unaliased table of the second clashes by name and schema or with an alias |
| Sources.AliasStep | pystgres.py:294-319 | adding the second registry's next alias to the growing clone fails exactly on a clash with the first registry, and otherwise extends it by that alias |
| Sources.TableStep | pystgres.py:294-319 | adding the second registry's next unaliased table fails exactly on a clash with the first registry, and otherwise extends it by that table |
| Sources.CheckAliases | pystgres.py:294-319 | the alias pass of `merge` succeeds iff no alias of the second side clashes with the first; a failure names a clashing alias |
| Sources.CheckTables | pystgres.py:294-319 | the table pass of `merge` succeeds iff no unaliased table of the second side clashes with the first; a failure names a clashing relation |
| Sources.QueryTables.constructor | pystgres.py:279-283 | a new `QueryTables` is empty |
| Sources.QueryTables.Clone | pystgres.py:285-292 | `_clone` returns a fresh object with the same entries |
| Sources.QueryTables.Add | pystgres.py:294-302 | `add` keeps the registry well formed, changes the entries exactly as the registry rules say, and on a clash raises DuplicateAlias and changes nothing |
| Sources.QueryTables.Merge | pystgres.py:311-319 | `merge` succeeds iff the registries are compatible, and then returns a fresh registry holding the union; on failure it raises DuplicateAlias for a name of the second registry |
| Sources.FindColumn | pystgres.py:338-347 | the scan over `all_tables` returns the single entry whose table has the column; AmbiguousColumn if several have it, UndefinedColumn if none |
| Sources.QueryTables.SourceByColumn | pystgres.py:338-347 | `_get_source_by_column` on the registry's entries, with the same three outcomes |
| Sources.QueryTables.GetColumnSource | pystgres.py:349-354 | an unqualified column resolves by column, `t.c` by table reference, `s.t.c` by schema and table |
| Sources.ColumnMatchesOfUnion | pystgres.py:338-347 | a column's candidates in a merged registry are the candidates of both sides, so merging can make a unique column ambiguous but never removes a candidate |
| Expressions.OpForAsWritten | pystgres.py:585-601 | the operator table has exactly its eleven symbols and raises NotImplemented(symbol) for any other |
| Expressions.OpFor | pystgres.py:585-601 | the corrected table also maps `!~~` and `!~~*`, and agrees with the table as written wherever that has an entry |
| Expressions.OpForRoundTrip | pystgres.py:585-601 | every operator is found under its symbol; `!=` and `<>` are the same operator |
| Expressions.NegatedLikeMissingAsWritten | pystgres.py:585-601 | as written every operator but NOT LIKE and NOT ILIKE is found; `!~~` raises NotImplemented |
| Expressions.LikeValues | pystgres.py:575-582 | LIKE on values succeeds iff both are strings and the pattern translates; its errors are TypeError or InvalidEscapeSequence |
| Expressions.ApplyOp | pystgres.py:585-601 | `=` and `<>` never raise; comparisons yield booleans; the only errors are TypeError, and InvalidEscapeSequence for the LIKE family |
| Expressions.ComparisonsAgree | pystgres.py:585-601 | where `<` does not raise, exactly one of `<`, `=`, `>` holds; `<=` is `<` or `=`; `>=` is `>` or `=`; `<>` is not `=`; `a > b` is `b < a` |
| Expressions.OrderingsRaiseTogether | pystgres.py:585-601 | comparing NULL or mixed types raises TypeError for all four orderings, while `=` answers, true only for NULL = NULL |
| Expressions.AddAndSub | pystgres.py:585-601 | `+` is `operator.add`: it concatenates strings and adds numbers (booleans counting as 0/1), with `(a + b) - b == a`; it succeeds only on two numbers or two strings, `-` only on two numbers, and every failure is TypeError |
| Expressions.LikeOperatorsAgree | pystgres.py:575-601 | `~~` and `~~*` are `like_operator`/`ilike_operator`; the NOT forms are their negation; all four reject a dangling backslash |
| Expressions.EvalNoKeyError | pystgres.py:235-263 | an element evaluated on a row that has every column it reads never raises KeyError |
| Expressions.EvalReadsOnlyColumns | pystgres.py:235-263 | an element's value depends only on the columns it reads |
| Expressions.ResolvedColumnsInScope | pystgres.py:235-263 | a resolved expression reads only entries in scope, and an unqualified column only a table that has it |
| Expressions.ColumnRefInScope | pystgres.py:239-246 | a resolved column reference reads an entry in scope, and an unqualified one reads an entry whose table has that column |
| Expressions.ParseSelectExpr | pystgres.py:235-263 | `parse_select_expr` computes the resolution: constants stay constants, casts are ignored, operators resolve both sides and then the symbol, calls resolve the function then the arguments, other nodes raise NotImplemented |
| Expressions.ParseColumnRef | pystgres.py:239-246 | a column reference resolves through `get_column_source` on its reversed parts; `*` is NotImplemented; four parts are a TypeError |
| Select.MergeRows | pystgres.py:490-497 | the product has `len(left) * len(right)` rows |
| Select.MergeRowsAt | pystgres.py:490-497 | row `i * len(right) + j` of the product is left row `i` merged with right row `j` (left-major order, right side winning) |
| Select.MergeRowsFrom | pystgres.py:490-497 | every product row is some left row merged with some right row |
| Select.MergeRowsUnit | pystgres.py:415-422 | the initial `[{}]` is a unit of the product |
| Select.RangeRows | pystgres.py:513 | a table's FROM rows are its stored rows, each keyed by `(table, alias)` |
| Select.FilterRows | pystgres.py:432-437 | the filter raises iff the condition raises on some row; otherwise every kept row is a row whose condition is truthy, and every such row is kept |
| Select.FilterRowsSingle | pystgres.py:432-437 | on one row the filter raises the condition's error, or keeps the row iff the condition is truthy on it |
| Select.FilterRowsAppend | pystgres.py:432-437 | filtering a concatenation concatenates what each part keeps, in order and with multiplicity (with FilterRowsSingle this fixes the filter's result row by row) |
| Select.FilterRowsAppendRaises | pystgres.py:432-437 | filtering a concatenation raises the first part's error if it raises, otherwise the second part's |
| Select.FilterRowsIdempotent | pystgres.py:432-437 | filtering twice by the same condition is filtering once |
| Select.FilterRowsTrueKeepsAll | pystgres.py:432-437 | a truthy constant condition keeps every row |
| Select.RowKey | pystgres.py:451-457 | a row's sort key has one component per ORDER BY item, with that item's strategy and the item's value on the row |
| Select.RowKeys | pystgres.py:451-457 | the keys are computed for every row, and computing them raises iff some row's key raises |
| Select.SortRows | pystgres.py:451-457 | the sort keeps the number of rows |
| Select.SortRowsIsStableSort | pystgres.py:439-457 | sorting raises iff a key raises or two keys do not compare; otherwise the rows are permuted into the unique stable order of their keys |
| Select.Project | pystgres.py:459-470 | projection raises iff some target raises on some row; otherwise row `i` of the result is the targets evaluated on row `i` |
| Select.RowName | pystgres.py:424-430 | a target's name is its `AS` name, else its expression's name, else `?column?` |
| Select.MergeRowsFromSources | pystgres.py:490-497 | merging rows of compatible FROM items gives rows keyed by exactly the merged entries |
| Select.RangeRowsFromSources | pystgres.py:513 | a table's FROM rows are keyed by its one entry and come from its stored rows |
| Select.FilterRowsFromSources | pystgres.py:432-437 | filtered rows keep their keys and values |
| Select.ColumnReadSucceeds | pystgres.py:239-246 | reading a column its entry's table has succeeds on every joined row, since stored rows have all their table's columns |
| Select.FromItemFromSources | pystgres.py:507-529 | a FROM item's entries are well formed and stored; with no empty alias its rows are keyed by exactly those entries |
| Select.ParseFromClause | pystgres.py:507-529 | `_parse_from_clauses` succeeds iff the FROM item evaluates, and returns its entries and rows. A missing table raises UndefinedTable; a JOIN filters the product by ON and merges the registries; unsupported items raise NotImplemented |
| Select.GetTableFits | pystgres.py:204-216 | a table looked up in a database whose stored rows fit has fitting rows |
| Select.SortbyElement | pystgres.py:472-488 | an ORDER BY column resolves as a column reference; an integer constant is NotImplemented; another constant is a syntax error; any other node is NotImplemented |
| Select.SortStrategies | pystgres.py:439-449 | the ORDER BY items become (strategy, element) pairs in order, and the list raises iff some item raises |
| Select.FromItemsFromSources | pystgres.py:415-422 | the merged FROM entries are well formed, and the product rows are keyed by exactly those entries |
| Select.SingleFromItem | pystgres.py:415-422 | a FROM clause of one item gives that item's entries and rows |
| Select.UnqualifiedColumnReadsEveryRow | pystgres.py:415-430 | an unqualified column that resolves reads successfully from every row of the FROM product |
| Select.SelectShape | pystgres.py:415-470 | a SELECT returns one name and one value per target; WHERE only drops product rows; without WHERE there is one result row per product row; `SELECT` without FROM gives one row |
| Select.BuildCheckedRows | pystgres.py:404-411 | the INSERT rows are built from the column list and checked in order; the statement fails iff some row does not fit |
| Select.ParseFromItems | pystgres.py:415-422 | the FROM loop succeeds iff the merged FROM items evaluate, and returns the merged registry and the product rows |
| Select.ParseTargets | pystgres.py:424-430 | the target loop resolves every target in order and names it |
| Select.ParseSortClause | pystgres.py:439-449 | the ORDER BY list is built item by item |
| Select.GetSortbyElement | pystgres.py:472-488 | `_get_sortby_element` on the registry computes the ORDER BY element |
| Select.MockDatabase.constructor | pystgres.py:357-359 | a new connection holds the initial database |
| Select.MockDatabase.HandleCreate | pystgres.py:383-392 | CREATE TABLE stores an empty table with the declared columns in the named schema (`public` by default), replacing any table of that name, and keeps the database valid |
| Select.MockDatabase.HandleInsert | pystgres.py:394-413 | INSERT fails iff the table is missing, there are no VALUES, or some row does not fit. On success the table is stored with the rows appended; on failure the database is unchanged |
| Select.MockDatabase.HandleSelect | pystgres.py:415-470 | SELECT succeeds iff the specified pipeline succeeds: FROM product, then WHERE filter, then stable ORDER BY, then projection. It returns that pipeline's names and rows |
| Select.MockDatabase.ExecuteStatement | pystgres.py:361-366 | dispatch by statement type. CREATE returns nothing and stores the new empty table. INSERT fails iff the table is missing, there are no VALUES or a row does not fit, stores the table with the rows appended on success and changes nothing on failure. SELECT leaves the database unchanged and succeeds iff the SELECT pipeline does, returning its result set. Other statements raise NotImplemented |
| Select.UpdateKeepsFit | pystgres.py:224-233 | storing a table whose rows fit keeps every stored row fitting |

## Left out

- **Parsing and I/O.** `psqlparse` parsing, `execute`, `execute_one`, `execute_lazy`, `repl`, `_print_result`, `_align` and `_debug` are left out. They are a foreign parser plus terminal I/O. Statements enter the model as closed datatypes.
- **`Element.eval`'s `TypeError` fallback.** The source returns the element's own closure or constant when evaluation raises `TypeError`. The model raises `TypeError` instead.
- **The regex engine.** Matching is modelled directly on tokens. ILIKE folds ASCII letters only; Python's IGNORECASE folds more characters.
- Like.LikePatternToRegex: treats only ASCII letters, digits and `_` as word characters. Python's `\W` test on a `str` is Unicode-aware, so the source leaves a non-ASCII letter or digit such as `é` bare where the model emits `\é`. Both texts match the same strings.
- **Corrected LIKE semantics in the SELECT pipeline.** The members below follow the corrected behaviour of the first two Findings rows, not the code as written. Wildcards match a newline, and NOT LIKE / NOT ILIKE resolve. As written, `E'a\nb' LIKE 'a%'` is false and `SELECT 'a' NOT LIKE 'b'` raises NotImplementedError('!~~'). Like.LikeOperatorAsWritten, Like.ILikeOperatorAsWritten and Expressions.OpForAsWritten model the code as written, and Like.OperatorsAgreeWithoutNewline and Expressions.OpFor state where the two agree.
- Like.LikeOperator: matches with wildcards that take a newline; `like_operator` as written does not (Like.LikeOperatorAsWritten).
- Like.ILikeOperator: matches with wildcards that take a newline; `ilike_operator` as written does not (Like.ILikeOperatorAsWritten).
- Expressions.LikeValues: uses Like.LikeOperator and Like.ILikeOperator, so a newline in the text is matched by `%` and `_`, unlike the source.
- Expressions.ApplyOp: `~~` and `~~*` use the corrected matcher, and `!~~` / `!~~*` are applied, where the source has no such operators.
- Expressions.ParseSelectExpr: resolves operator symbols through Expressions.OpFor, so `!~~` and `!~~*` resolve where pystgres.py:600 raises NotImplementedError.
- Select.ParseFromClause: a JOIN's ON condition is resolved and evaluated with the corrected operators.
- Select.MockDatabase.HandleSelect: targets, WHERE and JOIN ON conditions use the corrected operators.
- Select.MockDatabase.ExecuteStatement: a SELECT runs through Select.MockDatabase.HandleSelect and so uses the corrected operators.
- **Python machinery.** The `frozendict` subclass, the `attrs`/`functools` decorators and the `apply` helper are left out. Immutable records are datatypes.
- **Unsupported SQL.** The model's statement datatypes cannot express these, so they are left out. The source handles them as follows:
  - Outer joins: `_parse_from_clauses` (pystgres.py:515-527) never reads the join type, so LEFT, RIGHT and FULL JOIN run as inner joins. The model's `JoinExpr` has no join type and is always the filtered product.
  - Aggregation: a call such as `count(*)` reaches `_get_function` (pystgres.py:256), which finds no such function in `pg_catalog` and raises.
  - GROUP BY, LIMIT, OFFSET and DISTINCT: `_handle_select_statement` (pystgres.py:415-470) never reads them, so they are silently ignored.
  - Floats have no value variant.
  - Boolean operators (AND, OR, NOT) reach the final branch of `parse_select_expr` and raise NotImplementedError; the model's `OtherNode` does the same.
  - VALUES in FROM raises NotImplementedError in `_parse_from_clauses`, as the model's `OtherFrom` does.
  - A `TypeCast` is passed through, as in the source.
- **INSERT values.** `simple_select` evaluates each VALUES element with `parse_select_expr(elem).value`. The model takes the VALUES rows as constant values.
- **INSERT without a column list.** The model takes the column list as given.
- **ORDER BY `*`.** The source reaches an `assert` on `*` in `_get_sortby_element`; the model raises `NotImplemented("*")`.
- **Error precedence under laziness.** The source's generators can raise a different one of several errors first. Four members state which error is raised only partly:
  - Select.MockDatabase.HandleSelect: states whether a SELECT raises and what it returns, but not which error it raises when several apply.
  - Select.ParseFromItems: states only whether the FROM loop raises, not which error.
  - Select.ParseFromClause: states only whether a JOIN raises, not which error, except for a missing table and an unsupported item.
  - Sources.QueryTables.Merge: states which kind of error and that the name clashes, not which clashing name dictionary order reports first.
- Ordering.SortByKeys: raises `TypeError` whenever any two key tuples do not compare. Python's sort raises only if it happens to compare such a pair.
- **Qualified column references.** `t.c` and `s.t.c` are not checked against the table's columns when resolved. As in the source, a missing column surfaces as `KeyError` when a row is read.
- **Empty alias.** The row-invariant lemmas (Select.FromItemFromSources, Select.FromItemsFromSources, Select.UnqualifiedColumnReadsEveryRow) assume no FROM alias is the empty string. With an empty alias the source keys rows by `(table, '')` but registers the table as unaliased.
- **exc.py.** It only declares exception classes. It is not part of this model beyond the `Error` datatype.

## Findings

| source | as written | input that shows it | evidently intended | confidence | as-written member | corrected member |
|---|---|---|---|---|---|---|
| pystgres.py:561-563 | `_` and `%` become `.` and `.*`, matched without DOTALL, so the wildcards refuse a newline | `'a' \|\| E'\n' \|\| 'b' LIKE 'a%'` is false | SQL wildcards match any character, newline included | not executed | Like.WildcardSkipsNewlineAsWritten | Like.PercentMatchesEverything |
| pystgres.py:585-601 | the operator table has no entry for NOT LIKE (`!~~`) or NOT ILIKE (`!~~*`) | `SELECT 'a' NOT LIKE 'b'` raises NotImplementedError('!~~') | the negation of LIKE / ILIKE | not executed | Expressions.NegatedLikeMissingAsWritten | Expressions.LikeOperatorsAgree |
| pystgres.py:59-68 | the NotNullViolation message joins the row's values with `', '.join`, which raises TypeError on a non-string value. `exc.py` also lacks `NotNullViolation`, so the literal code raises AttributeError before the message is built; the TypeError shows once that class is added | `INSERT INTO t (baz) VALUES (1)` into a table with columns `baz`, `bang` | NotNullViolation for column `bang` | not executed | Catalog.MissingColumnWithNumberRaisesTypeError | Catalog.CheckRow |
