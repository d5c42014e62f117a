# Keyset paginator of gorm-graphql-paging, in Dafny

This project models the keyset ("cursor") paginator of the Go package
`paginator`. A `Paginator` holds:

- a cursor pair (`After`, `Before`);
- a list of rules, each with a key, an order, an SQL expression and a NULL replacement;
- the page sizes `first` and `last`;
- a default order;
- an inert `invertOrder` flag.

`Paginate` proceeds in this order:

1. It validates the rules.
2. It resolves each rule's SQL expression (`table.column` from the gorm tag, `COALESCE` for a NULL replacement, the default order).
3. It decodes the incoming cursor and substitutes the NULL replacements.
4. It builds the query:
   - `LIMIT n+1`;
   - `ORDER BY`, flipped when `last > 0`;
   - the lexicographic keyset predicate `r0 op ? OR r0 = ? AND r1 op ? OR ...`, whose arguments are `fields[:1] ++ fields[:2] ++ ...`.
5. It runs the query and trims the extra row.
6. It encodes the first and last rows into the outgoing cursor pair.

`Config` values (`defaultConfig`, the `With*` constructors) are applied to a paginator by `Config.Apply`. `New` applies the defaults and then each option in order.

Files:

- `wrappers.dfy`: `Option` and `Result`.
- `strings.dfy`: the parts of Go's `strings` package the paginator uses (`Split`, `Join`, `Trim` with a one-character cutset), and the counting of a character.
- `types.dfy`: `Order`, `Value`, `Rule`, `Cursor`, `Row`, `Error`.
- `keyset.dfy`: the ORDER BY text, the WHERE text and its argument list as pure functions.
  - It proves that placeholders and arguments agree.
  - It proves `WhereMeansBeyond`: the predicate, read as terms evaluated with positional arguments, selects exactly the rows whose key tuple lies strictly beyond the cursor tuple in the lexicographic order given by the operators.
  - Comparisons follow SQL: a comparison with NULL on either side is never true, so a WHERE clause never keeps a row on it. A NULL key, in the row or in the cursor, therefore only lets the row through on an earlier key (`NullKeyCutsOff`).
- `pagination.dfy`:
  - the class `Paginator`, with its fields and methods;
  - `State`, a value snapshot of those fields;
  - a specification function of the state for each method;
  - the lemmas about those functions.
- `options.dfy`: `Config` with its `Apply` method, `New`, the `With*` constructors, and lemmas about the merging of configurations.

What the paginator consults outside its own fields is collected in `Pagination.Env` as function values:

- the table name;
- a field's struct tag;
- `strcase.ToSnake`;
- `%v` rendering;
- `Rule.validate`;
- the cursor decoder and encoder;
- gorm's `Find`.

A query is modelled as the record `Query(limit, orderBy, where)` that the paginator would hand to gorm.

Where the code's comments and its behaviour differ, the model follows the behaviour:

- **Direction.** The comment at paginator/paginator.go:231 says forward takes precedence over backward, yet `isBackward` holds whenever `Before` is set.
  - So with both cursors set, `After` is the one decoded (`CursorSourceChoice`).
  - But every ASC and every DESC key gets `>` (`OperatorsByCursor`).
- **ORDER BY flip.** ORDER BY is flipped when `last > 0`, not when paging backward. With `last > 0` and only an `After` cursor, the sort order and the WHERE operator disagree (`LastWithAfterCursor`).
- **Backward trim.** The formula `elems[len-last-1 : len-1]` is modelled exactly as written.
  - When the engine honours `LIMIT last+1`, it keeps the first `last` rows, as the forward trim does (`TrimWithinLimit`).
  - Given more rows than that, it drops rows from the front (`BackwardTrimBeyondLimit`).

## Model

| member | source | states |
|---|---|---|
| Pagination.Paginator.constructor | paginator/paginator.go:17 | `&Paginator{}` has every field at its zero value |
| Pagination.Paginator.SetRules | paginator/paginator.go:34-38 | the rules become the given list; nothing else changes |
| Pagination.Paginator.SetKeys | paginator/paginator.go:40-49 | the rules become one `Rule{Key: k}` per key, in order; nothing else changes |
| Pagination.Paginator.SetFirst | paginator/paginator.go:51-54 | `first == n`, `last == 0`; nothing else changes |
| Pagination.Paginator.SetLast | paginator/paginator.go:55-58 | `last == n`, `first == 0`; nothing else changes |
| Pagination.Paginator.SetOrder | paginator/paginator.go:60-63 | only the order changes |
| Pagination.Paginator.SetAfterCursor | paginator/paginator.go:65-68 | only `After` changes, to the given string |
| Pagination.Paginator.SetBeforeCursor | paginator/paginator.go:70-73 | only `Before` changes, to the given string |
| Pagination.Paginator.SetInvert | paginator/paginator.go:75-77 | only `invertOrder` changes |
| Pagination.KeyRules | paginator/paginator.go:42-47 | one rule per key, carrying that key and zero values elsewhere |
| Pagination.SettersKeepPageSizeExclusive | paginator/paginator.go:51-77 | SetFirst and SetLast leave at most one page size non-zero; every other setter preserves that |
| Pagination.IsForward | paginator/paginator.go:226-228 | forward fails only for a cursor with `Before` and no `After` |
| Pagination.IsBackward | paginator/paginator.go:230-233 | every cursor is forward or backward; a backward cursor is also forward iff `After` is set, so forward does not take precedence |
| Pagination.Direction | paginator/paginator.go:226-233 | some direction always holds; both hold iff both cursors are set; only backward iff only `Before` is set |
| Pagination.OperatorsByCursor | paginator/paginator.go:266-274 | the operator of each key by cursor: no `Before`: `>` iff ASC; only `Before`: `>` iff DESC; both: `>` for ASC and DESC alike; never `=` |
| Pagination.LastWithAfterCursor | paginator/paginator.go:254-274 | with `last > 0` and only an `After` cursor, an ASC key is sorted DESC yet compared with `>` |
| Pagination.GetKeys | paginator/paginator.go:308-314 | one key per rule, the rule's own key, in rule order |
| Pagination.Paginator.Validate | paginator/paginator.go:124-140 | the result is `Validation` of the state: ErrNoRule, then the order's error, then the first rule error |
| Pagination.FirstRuleErrorNone | paginator/paginator.go:134-138 | no rule error is returned iff every rule is accepted |
| Pagination.FirstRuleErrorIsReported | paginator/paginator.go:134-138 | a reported rule error is that of some rule, and all earlier rules were accepted |
| Pagination.ValidationCharacterised | paginator/paginator.go:124-140 | validation passes iff there is a rule, the order is ASC or DESC and every rule is accepted; no rule gives ErrNoRule whatever else holds; a bad order gives ErrInvalidOrder |
| Pagination.ParseSQLKeyFirst | paginator/paginator.go:165-183 | the first space-separated `gorm:` tag with a `column:` option gives that column; with no such tag, `strcase.ToSnake` of the field name |
| Pagination.ColumnInTagsFirst | paginator/paginator.go:168-181 | no column is found iff no tag names one; otherwise it is the column of the first tag that does |
| Pagination.ColumnInOptionsFirst | paginator/paginator.go:175-179 | no column is found iff no option starts with `column:`; otherwise it is the rest of the first such option |
| Pagination.ParseSQLKeyColumnFirst | paginator/paginator.go:168-179 | a lone `gorm:"column:x"` or `gorm:"column:x;type:..."` tag yields the column `x` |
| Pagination.ParseSQLKeyGormWithoutColumn | paginator/paginator.go:168-182 | a lone `gorm:"..."` tag without a `column:` option falls back to `strcase.ToSnake` of the field name |
| Pagination.ParseSQLKeyColumn | paginator/paginator.go:165-180 | a tag list `other gorm:"opt;column:x"` yields the column `x` |
| Pagination.GormTagColumn | paginator/paginator.go:170-178 | the `;`-separated options of `gorm:"opt;column:x"`, after trimming quotes, name the column `x` |
| Pagination.ParseSQLKeyFallback | paginator/paginator.go:168-182 | a tag with no `:` gives `strcase.ToSnake` of the field name |
| Pagination.Paginator.Setup | paginator/paginator.go:142-163 | each rule is replaced in place by `SetupRule` of itself; no other field changes |
| Pagination.SetupRule | paginator/paginator.go:145-161 | a resolved rule keeps its key and NULL replacement and has a non-empty expression: the explicit one, or `table.column` with the column from the tag; a NULL replacement gives exactly `COALESCE(<that expression>, '<%v of the replacement>')`; an unset order takes the paginator's |
| Pagination.SetupRules | paginator/paginator.go:144-162 | one resolved rule per rule, in order |
| Pagination.SetupResolves | paginator/paginator.go:142-163 | after setup each rule keeps its key and NULL replacement and has a non-empty expression; an explicit expression without a NULL replacement is kept; a NULL replacement gives exactly `COALESCE(<explicit expression or table.column>, '<%v of the replacement>')`; an unset order takes the paginator's; with a valid paginator order no rule's order stays unset |
| Pagination.SetupKeepsKeys | paginator/paginator.go:142-163 | setup does not change the keys, so decoder and encoder see the same keys |
| Pagination.SetupTwice | paginator/paginator.go:156-158 | setting up a rule twice is the same as once iff it has no NULL replacement; otherwise COALESCE nests |
| Pagination.Paginator.DecodeCursor | paginator/paginator.go:197-214 | the result is `DecodeSpec` of the state, including the panic on a nil field beyond the rules |
| Pagination.CursorSourceChoice | paginator/paginator.go:198-206 | the decoded string is `After` whenever it is set, else `Before`, else none |
| Pagination.ReplaceNulls | paginator/paginator.go:207-212 | fails (index out of range) iff some nil field has no rule; otherwise same length, nil field i becomes `rules[i].NULLReplacement`, others unchanged |
| Pagination.DecodeOutcomes | paginator/paginator.go:197-214 | no cursor gives no fields; a decoder failure gives ErrInvalidCursor; otherwise the decoded fields with NULLs replaced |
| Pagination.Paginator.BuildOrderSQL | paginator/paginator.go:254-264 | the result is the entries `expr order`, one per rule, joined by `", "` |
| Keyset.OrderEntries | paginator/paginator.go:255-262 | one entry per rule in rule order, each the rule's expression and its order, flipped when `last > 0` |
| Keyset.OrderFlippedIffLast | paginator/paginator.go:254-264 | a rule's entry shows its own order iff `last <= 0` and the flipped order iff `last > 0` |
| Types.Flip | paginator/paginator.go:259 | an ASC or DESC order flips to the other valid order |
| Types.FlipTwice | paginator/paginator.go:259 | flipping twice gives the order back |
| Pagination.Paginator.BuildCursorSQLQuery | paginator/paginator.go:266-281 | the result is `len(rules)` disjuncts joined by `" OR "`; disjunct i is `r0 = ? AND ... AND ri op ?` with op `>` iff (forward and ASC) or (backward and DESC) |
| Keyset.DisjunctsUpTo | paginator/paginator.go:267-277 | n disjuncts, disjunct i being buildCursorSQLQuery's formatting of rule i after its equality prefix |
| Keyset.DisjunctRendersTerms | paginator/paginator.go:275-276 | disjunct i is the conjunction of i equality terms and one strict term, rendered as SQL |
| Keyset.MixedOrderExample | paginator/paginator.go:278-280 | keys `(ID ASC, CreatedAt DESC)` paged forward give `a > ? OR a = ? AND b < ?` with arguments `[x, x, y]` |
| Pagination.Paginator.BuildCursorSQLQueryArgs | paginator/paginator.go:283-288 | the arguments are `fields[:1] ++ ... ++ fields[:n]`, of length n(n+1)/2 |
| Keyset.CursorArgsShape | paginator/paginator.go:283-288 | the argument list has n(n+1)/2 entries, and block k of it is `fields[:k+1]` |
| Keyset.TriangleClosedForm | paginator/paginator.go:283-288 | 1 + ... + n is n(n+1)/2 |
| Keyset.DisjunctPlaceholders | paginator/paginator.go:275-276 | disjunct i has i+1 placeholders when no expression contains `?` |
| Keyset.PlaceholdersMatchArgs | paginator/paginator.go:266-288 | when no rule expression contains `?`, the predicate has n(n+1)/2 placeholders for n rules, and that equals the number of arguments iff one field is decoded per rule |
| Keyset.WhereMeansBeyond | paginator/paginator.go:266-288 | with one field per rule and an irreflexive order, the predicate holds on a row iff the row's key tuple is strictly beyond the fields lexicographically, each key compared by its operator, a NULL on either side never comparing true |
| Keyset.NullKeyCutsOff | paginator/paginator.go:266-288 | when key k is NULL in the row or in the cursor, the predicate holds iff some key before k decides it; with k the first key it never holds |
| Keyset.BeyondIffDecided | paginator/paginator.go:278-280 | lexicographic "beyond" holds iff some key i has every earlier key equal and key i satisfies its operator |
| Pagination.Paginator.AppendPagingQuery | paginator/paginator.go:235-252 | the result is `PagingQuery` of the state and the fields |
| Pagination.PagingQuery | paginator/paginator.go:235-252 | WHERE iff fields are non-empty; LIMIT `last+1` when `last > 0`, else `first+1` when `first > 0`, else none; placeholders equal arguments when one field per rule and no rule expression contains `?` |
| Pagination.PageWindow | paginator/paginator.go:95-107 | hasMore iff the page size is exceeded; the window is the whole result, `elems[:first]`, or `elems[len-last-1:len-1]` of length `last` |
| Pagination.TrimWithinLimit | paginator/paginator.go:95-107 | under LIMIT n+1 both trims keep the first min(len, n) rows, and a non-empty result stays non-empty |
| Pagination.BackwardTrimBeyondLimit | paginator/paginator.go:102-106 | with more than last+1 rows the backward trim keeps rows from `len-last-1` on, not a prefix: of distinct rows, neither the first nor the last fetched row is on the page |
| Pagination.Paginator.EncodeCursor | paginator/paginator.go:290-304 | the result is `EncodeSpec` of the rules' keys and the rows |
| Pagination.EncodeSpec | paginator/paginator.go:290-304 | succeeds iff both encodings succeed; `After` encodes the last row and `Before` the first; the error is the first encoder error |
| Pagination.Paginator.Paginate | paginator/paginator.go:79-120 | the new state and the outcome are `PaginateState` and `PaginateOutcome` of the old state |
| Pagination.PaginateEarlyExit | paginator/paginator.go:80-88 | no query runs iff validation or decoding fails, and then that error is returned with the destination and cursor untouched; no rules gives ErrNoRule |
| Pagination.PaginateCursorPair | paginator/paginator.go:95-110 | after a successful non-empty query, `After` encodes the last kept row and `Before` the first; the two are set together |
| Options.SetFields | paginator/option.go:15-24 | a config sets no field iff it is the zero `Config` |
| Options.DefaultConfig | paginator/option.go:3-7 | the default config sets exactly Keys `["ID"]`, First 10 and Order DESC |
| Options.WithRules | paginator/option.go:54-59 | the config carries the given rules and sets no other field |
| Options.WithKeys | paginator/option.go:61-66 | the config carries the given keys and sets no other field |
| Options.WithFirst | paginator/option.go:68-73 | the config carries the given First and sets no other field |
| Options.WithLast | paginator/option.go:75-80 | the config carries the given Last and sets no other field |
| Options.WithOrder | paginator/option.go:82-87 | the config carries the given order and sets no other field |
| Options.WithAfter | paginator/option.go:89-94 | the config carries the given After cursor and sets no other field |
| Options.WithBefore | paginator/option.go:96-101 | the config carries the given Before cursor and sets no other field |
| Options.Config.Apply | paginator/option.go:26-52 | the paginator's new state is `Applied` of the config and the old state |
| Options.ApplyRules | paginator/option.go:28-34 | non-nil Rules replace the rules; Keys count only when Rules is nil; with both nil the rules stay |
| Options.ApplyZeroFieldsKeep | paginator/option.go:35-51 | zero First/Last, Order, After, Before leave their fields alone; invertOrder is always overwritten |
| Options.ApplyBlank | paginator/option.go:26-52 | the all-zero config only resets invertOrder |
| Options.ApplyLastClearsBoth | paginator/option.go:38-41 | a non-zero Last ends with both `first` and `last` at 0 |
| Options.ApplyFirst | paginator/option.go:35-37 | a non-zero First with a zero Last sets `first` and clears `last` |
| Options.ApplyAllKeepsPageSizeExclusive | paginator/option.go:26-52 | any sequence of configs keeps at most one page size non-zero |
| Options.New | paginator/paginator.go:15-22 | a fresh paginator whose state is the defaults then each option applied in order |
| Options.ApplyAllSnoc | paginator/paginator.go:18-20 | applying one more option is applying it to the previous result |
| Options.NewDefaults | paginator/option.go:3-7 | `New()` has rules `[{Key: "ID"}]`, first 10, last 0, DESC, no cursor, no inversion |
| Options.NewAppliesInOrder | paginator/paginator.go:18-20 | `New(opts..., c)` is `c` applied to `New(opts...)`; New keeps page sizes exclusive |
| Options.LastOrderWins | paginator/paginator.go:18-20 | the last config that sets an order decides the order |
| Options.NewInvertIsLastOptions | paginator/option.go:51 | invertOrder after New is the last option's (false with none) |
| Options.WithOrderOnlyOrder | paginator/option.go:82-87 | applying `WithOrder(o)` changes only the order, when set, apart from the invertOrder reset |
| Options.WithFirstSetsFirst | paginator/option.go:68-73 | applying `WithFirst(n)`, n non-zero, sets first n and last 0 and nothing else but invertOrder |
| Options.WithLastClearsPageSizes | paginator/option.go:38-41 | applying `WithLast(n)` leaves both page sizes at 0, including in `New(WithLast(n))` |
| Options.WithOneField | paginator/option.go:54-101 | WithRules, WithKeys, WithAfter and WithBefore each change one field, apart from the invertOrder reset |
| Strings.Split | paginator/paginator.go:168-174 | at least one piece, no piece holds the separator, and joining the pieces gives the input back |
| Strings.SplitJoin | paginator/paginator.go:168-174 | splitting a join of separator-free parts gives the parts back |
| Strings.JoinEnds | paginator/paginator.go:280 | a join starts with the first part and ends with the last |
| Strings.TrimSlice | paginator/paginator.go:172 | the trimmed string is a slice of the input that neither starts nor ends with the cutset character, with only that character around it |
| Strings.TrimFramed | paginator/paginator.go:172 | trimming quotes from a quoted string with no inner quote gives the inside |

## Left out

- gorm is not modelled: `Limit`, `Order`, `Where`, `Find` and the table-name lookup through `gorm.Statement.Parse` (paginator/paginator.go:89, 149-151).
  - The query is the value `Query`.
  - `Find` is the function `Env.find`, which returns the engine's error and the rows it wrote.
  - The table name is `Env.table`.
  - A limit or order already on the `*gorm.DB` before the call is not modelled.
- Reflection is not modelled.
  - `dest` is a sequence of rows, so a non-slice destination cannot occur.
  - A field's struct tag is `Env.tagOf(key)`.
  - `isNil` is the `Value.Nil` case; a typed nil `*T` held in an interface is not distinguished.
- `strcase.ToSnake` and `%v` rendering of a NULL replacement are the uninterpreted functions `Env.toSnake` and `Env.render`.
- The `cursor` package is not part of this model. Its decoder and encoder are the functions `Env.decode` and `Env.encode`, and no round trip between them is claimed.
- `Order`, its `validate` and `flip`, and `Rule.validate` live in files that are not part of this model.
  - `Order.validate` accepts exactly ASC and DESC.
  - `flip` swaps ASC and DESC and leaves any other value unchanged.
  - `Rule.validate` is the function `Env.ruleError`.
- SQL NULL is modelled by its effect on a WHERE clause: a comparison with NULL is never true (`Keyset.Holds`). The three-valued result itself (UNKNOWN as distinct from FALSE) is not modelled, which is exact here because the predicate only combines comparisons with AND and OR.
- A `?` inside a rule's SQL expression adds placeholders that the argument list does not account for. It can come from an explicit `SQLRepr`, or from the `%v` rendering of a NULL replacement that setup splices into `COALESCE(..., '%v')` (paginator/paginator.go:157).
- Keyset.PlaceholdersMatchArgs: counts placeholders only when no rule expression contains `?`.
- Pagination.PagingQuery: matches placeholders to arguments only when no rule expression contains `?`.
- `ParseSQLKey` snake-cases the rule's key, where parseSQLKey snake-cases the name of the field `FieldByName(key)` finds (paginator/paginator.go:167, 182). The two agree when that field exists; the model assumes `Rule.validate` (`Env.ruleError`) has rejected a key that names no field, for which Go would give `strcase.ToSnake("")`.
- Go's fixed-width `int` is not modelled: `first + 1` and `last + 1` do not wrap around at the maximum.
- A Go panic in decodeCursor is modelled as an error: a nil field at an index with no rule (paginator/paginator.go:210) is the error `IndexOutOfRange` instead of a panic.
- Commented-out code is not modelled: `canLimit`, `ErrInvalidLimit`, and the `reverse` calls at paginator/paginator.go:111-116. `invertOrder` is stored and never read.
- `hasMore` is computed and passed to encodeCursor, which ignores it. The model computes it in `PageWindow` and does not return it from `Paginate`.
- The variadic `WithRules(rules...)` and `WithKeys(keys...)` take an `Option`.
  - `None` is the nil slice of a call with no arguments.
  - That nil slice leaves the rules alone.
- The result `*gorm.DB` of Paginate is represented only by the query it was given and the error it reported (`Outcome.query`, `Outcome.dbError`).
