# mysql-bricks, modelled in Dafny

mysql-bricks extends the sql-bricks statement builder with five MySQL clauses:

- `ORDER BY` for DELETE and UPDATE;
- `LIMIT` for SELECT, UPDATE and DELETE;
- `OFFSET` for SELECT;
- `ON DUPLICATE KEY UPDATE` for INSERT;
- `IGNORE` for INSERT.

For each clause the extension does three things:

- It attaches a fluent setter to the statement builders. The setter writes one field of the builder (its argument, or `true` for `ignore()`) and returns the same builder.
- It gives a renderer that turns the stored field into an SQL fragment. The renderer returns nothing when the clause is to be left out.
- It registers the renderer in the kind's ordered clause list, right after a named anchor clause of the base grammar (`defineClause(name, fn, {after})`).

The model has one module per concern:

- `Wrappers` holds `Option`.
- `Text` covers `Array.prototype.join`, a splitter that reads a ", "-joined list back, and the decimal text `${n}` gives for a non-negative integer no larger than 2^53.
- `Assembler` models how the base grammar assembles a statement: present, non-empty fragments in clause order, joined by one space.
- `Clauses` holds the five renderers as pure functions of the stored values, with backtick quoting of reserved words.
- `Registry` covers insertion after an anchor. It holds the registration outcome and the `ClauseRegistry` class whose `DefineClause` and `Install` update the per-kind clause lists in place.
- `Builder` holds the `StatementBuilder` class. Its setters update its fields in place, and its `Fragments`/`Render` read the fields through the renderers along a clause list.
- `Statements` works out where each extension clause lands in the rendered text once the extension is installed.
- `Scenarios` replays the extension's own test cases on fresh builders.

The base grammar is outside this model. Its clause lists and the fragments it renders for its own clauses are inputs: a `seq<string>` of clause names and a `map<string, string>` from clause name to fragment.

Two behaviours worth knowing:

- A lone array argument to `orderBy` is not flattened: `Array.from(arguments)` (index.js:14) stores it as one element, whose text the column handler forms with plain commas. The model's setter takes the variadic form.
- `defineClause` belongs to the base grammar, and the extension always names an existing anchor. For an unknown anchor the model answers `UnknownAnchor` and leaves the list unchanged; a name already in the list answers `AlreadyDefined`, also without a change; otherwise the clause goes right after the first occurrence of the anchor.

## Model

| member | source | states |
|---|---|---|
| Text.Join | index.js:22 | `join(', ')`, used at index.js:22 and index.js:86; no contract of its own, its properties are stated by Text.JoinConcat, Text.JoinAppend and Text.SplitJoin |
| Text.Decimal | index.js:37 | the text of a LIMIT/OFFSET value is a non-empty run of decimal digits, with a leading zero only for 0 |
| Text.DecimalRoundTrip | index.js:37 | reading the decimal text back as a number gives the stored value |
| Text.SplitJoin | index.js:22 | a list joined with ", " splits back into exactly its items, in order, when no item contains ", " |
| Assembler.Present | index.js:19-20 | the fragments kept are non-empty and no more than the clauses |
| Assembler.Assemble | index.js:19-20 | the statement text: the present fragments joined by one space; no contract of its own, its properties are stated by Assembler.AssembleSkipsAbsent, Assembler.AssembleAdjacent and Assembler.AssembleAbsentTail |
| Assembler.PresentConcat | index.js:19-20 | the fragments kept for two clause runs are those of each run, in order |
| Assembler.AssembleSkipsAbsent | index.js:19-20 | a clause whose renderer returns nothing adds neither text nor a separator |
| Assembler.AssembleAbsentTail | index.js:36-38 | trailing clauses that render nothing leave the statement unchanged |
| Assembler.AssembleAdjacent | index.js:42-63 | two neighbouring present clauses come out one space apart, between the text of the earlier and the later clauses |
| Clauses.ExtensionClauses | index.js:13-102 | which kinds get which clause: LIMIT and OFFSET on SELECT, ON DUPLICATE KEY UPDATE and IGNORE on INSERT, ORDER BY and LIMIT on UPDATE and DELETE; no contract of its own, used by Builder.StatementBuilder.Fragment and stated about by Builder.SilentFragment |
| Clauses.Q | index.js:9 | a reserved word is wrapped in backticks, and any other column passes through unchanged |
| Clauses.QuoteAll | index.js:22 | one quoted column per column, position by position |
| Clauses.RenderOrderBy | index.js:18-23 | absent exactly when no columns are stored, the array is empty, or the only column is the empty string; otherwise it starts with "ORDER BY " |
| Clauses.OrderByColumns | index.js:22 | a present ORDER BY lists the quoted columns, one per column, in the order given |
| Clauses.NumericClause | index.js:35-39 | absent exactly when the value is unset or 0 (falsy); otherwise the keyword, a space and digits that read back as the value |
| Clauses.RenderLimit | index.js:35-39 | absent exactly when the limit is unset or 0; otherwise "LIMIT " followed by digits that read back as the limit |
| Clauses.RenderOffset | index.js:52-56 | absent exactly when the offset is unset or 0; otherwise "OFFSET " followed by digits that read back as the offset |
| Clauses.Assignment | index.js:76-86 | a string column becomes `col = VALUES(col)` with the column quoted; an object with a key gives `key = value` for its first key; anything else gives an empty item |
| Clauses.Assignments | index.js:76 | one assignment per entry, position by position |
| Clauses.RenderOnDuplicate | index.js:72-87 | absent exactly when the stored argument is falsy, not an array, or an empty array; otherwise it starts with "ON DUPLICATE KEY UPDATE " |
| Clauses.OnDuplicateItems | index.js:76-86 | a present clause's list splits back into one assignment per entry, in order, when no item contains ", " |
| Clauses.RenderIgnore | index.js:97-99 | present exactly when `ignore()` was called, and then the bare keyword IGNORE |
| Registry.IndexOf | index.js:26 | the anchor's position holds the anchor, and no earlier position does |
| Registry.InsertAfter | index.js:26 | the list grows by one, and the new clause sits right after the anchor |
| Registry.InsertAfterMember | index.js:26 | after insertion the list holds exactly the old clauses and the new one |
| Registry.InsertAfterInverse | index.js:26 | removing the inserted clause again gives back the list: nothing else is lost or reordered |
| Registry.InsertAfterFollows | index.js:26 | the inserted clause immediately follows its anchor |
| Registry.InsertAfterKeepsFollows | index.js:42-44 | an existing neighbour pair stays adjacent when a clause is inserted after a different anchor |
| Registry.Register | index.js:26 | a registration succeeds exactly when the name is new and the anchor exists, and leaves the list unchanged otherwise |
| Registry.RegisterPlaces | index.js:26 | a successful registration places the clause right after its anchor and changes nothing else |
| Registry.RegisterTwice | index.js:26-27 | registering the same clause again does not succeed and changes nothing |
| Registry.RegisterChain | index.js:42-63 | registering b after a and then c after b yields a, b, c adjacent, and removing both gives back the list |
| Registry.RegisterPair | index.js:71-102 | two registrations after different anchors keep both pairs adjacent, and removing both gives back the list |
| Registry.InstalledOrder | index.js:26-102 | after installation DELETE and UPDATE read where, orderBy, limit; SELECT reads orderBy, limit, offset; INSERT has ignore after insert and onDuplicateKeyUpdate after values; every base clause is kept in order |
| Registry.InstalledList | index.js:26-102 | the eight `defineClause` calls, per kind, in source order; no contract of its own, its properties are stated by Registry.InstalledOrder, Statements.InstalledFollows and Builder.InstalledBaseClauses |
| Registry.ClauseRegistry.constructor | index.js:5 | every statement kind has a clause list, as given |
| Registry.ClauseRegistry.DefineClause | index.js:26 | only the named kind's list changes, to the registration's result, and the outcome is reported |
| Registry.ClauseRegistry.Install | index.js:26-102 | each kind's list becomes the installed list the eight registrations produce, in source order |
| Builder.BaseClauses | index.js:26-102 | the clauses kept come from the list and none of them is one of the kind's extension clauses |
| Builder.InstalledBaseClauses | index.js:26-102 | taking the extension's clauses back out of a kind's installed list gives the base grammar's list, in order |
| Builder.StatementBuilder.constructor | index.js:18-99 | a fresh builder has none of the extension's fields set, so every renderer's unset test (lines 19, 36, 53, 73 and 98) holds for it |
| Builder.StatementBuilder.OrderBy | index.js:13-16 | stores the columns, returns the same builder, and leaves every other field unchanged |
| Builder.StatementBuilder.Limit | index.js:30-33 | stores the value, returns the same builder, and leaves every other field unchanged |
| Builder.StatementBuilder.Offset | index.js:47-50 | stores the value, returns the same builder, and leaves every other field unchanged |
| Builder.StatementBuilder.OnDuplicateKeyUpdate | index.js:66-69 | stores the argument as given, returns the same builder, and leaves every other field unchanged |
| Builder.StatementBuilder.Ignore | index.js:92-95 | sets the flag, returns the same builder, and leaves every other field unchanged |
| Builder.StatementBuilder.Fragment | index.js:26-102 | the binding of clause names to renderers: the extension's renderer for its own clauses of the kind, the base grammar's fragment elsewhere; no contract of its own, stated about by Builder.SilentFragment and Statements.NumericFragments |
| Builder.StatementBuilder.Fragments | index.js:26-102 | one fragment per clause: the extension's renderer for its own clauses of the kind, the base grammar's fragment elsewhere |
| Builder.StatementBuilder.Render | index.js:18-99 | the text `toString()` gives; no contract of its own, its properties are stated by Builder.SilentRendersBase, Builder.AbsentClauseAddsNothing and Builder.AdjacentClausesRender |
| Builder.StatementBuilder.ToString | index.js:18-99 | rendering changes no field of the builder, and its text is the assembly of the clause fragments |
| Builder.FragmentsConcat | index.js:26-102 | splitting the clause list splits the fragments the same way |
| Builder.SilentRendersBase | index.js:18-99 | when no extension clause renders, the statement is exactly what the base grammar renders for its own clauses |
| Builder.UnsetIsSilent | index.js:13-99 | a builder on which no setter has been called renders no extension clause |
| Builder.SilentFragment | index.js:18-99 | a silent builder gives nothing for an extension clause and the base fragment elsewhere |
| Builder.BaseOnlyPresent | index.js:18-99 | fragments that are absent on extension clauses keep exactly the base grammar's present fragments |
| Builder.AbsentClauseAddsNothing | index.js:19-20 | a clause that renders nothing can be removed from the list without changing the statement |
| Builder.AdjacentClausesRender | index.js:26-102 | two adjacent clauses that both render sit one space apart, between the earlier and the later text |
| Statements.InstalledFollows | index.js:26-102 | in each kind's installed list every extension clause sits right after its anchor: SELECT orderBy, limit, offset; DELETE and UPDATE where, orderBy, limit; INSERT ignore after insert and onDuplicateKeyUpdate after values |
| Statements.NumericFragments | index.js:35-56 | a set LIMIT and OFFSET render as the keyword and the value's decimal text |
| Statements.SelectLimitOffset | index.js:42-63 | in SELECT with both set, "LIMIT n OFFSET m" appears, LIMIT first, one space apart |
| Statements.OrderByThenLimit | index.js:26-44 | in DELETE and UPDATE with both present, ORDER BY comes right before LIMIT, one space apart |
| Statements.IgnoreAfterInsert | index.js:97-102 | after `ignore()`, IGNORE follows the INSERT keyword directly |
| Statements.OnDuplicateAfterValues | index.js:71-89 | a non-empty ON DUPLICATE KEY UPDATE follows the VALUES part directly |
| Scenarios.SelectInstalled | index.js:42-63 | the SELECT list gains limit and then offset at its end, after orderBy |
| Scenarios.InsertInstalled | index.js:71-102 | the INSERT list becomes insert, ignore, into, values, onDuplicateKeyUpdate |
| Scenarios.NumericTexts | index.js:35-56 | `limit(100)` renders "LIMIT 100" and `offset(50)` renders "OFFSET 50" |
| Scenarios.InsertAssembled | index.js:71-102 | the INSERT text is INSERT, then IGNORE if set, then INTO, VALUES and ON DUPLICATE KEY UPDATE if set, one space apart |
| Scenarios.OneColumnText | index.js:76-79 | one plain column gives "ON DUPLICATE KEY UPDATE c = VALUES(c)" |
| Scenarios.TwoColumnText | index.js:76-86 | two plain columns give both assignments, in order, joined by ", " |
| Scenarios.ReservedColumnText | index.js:76-79 | a reserved column is backticked on both sides of its assignment |
| Scenarios.ObjectEntryText | index.js:80-84 | an object entry assigns its value verbatim to its key |
| Scenarios.SelectLimitCase | tests.js:125-132 | `select().from('main.some_table').limit(100)` gives "SELECT * FROM main.some_table LIMIT 100" |
| Scenarios.SelectLimitUnsetCase | tests.js:134-141 | `limit()` leaves LIMIT out: "SELECT * FROM main.some_table" |
| Scenarios.SelectLimitOffsetCase | tests.js:143-150 | `limit(100).offset(50)` gives "... LIMIT 100 OFFSET 50" |
| Scenarios.SelectOffsetUnsetCase | tests.js:152-159 | `limit(100).offset()` leaves OFFSET out: "... LIMIT 100" |
| Scenarios.InsertOnDuplicateCase | tests.js:16-30 | `onDuplicateKeyUpdate([c])` appends "ON DUPLICATE KEY UPDATE c = VALUES(c)" after the VALUES part |
| Scenarios.InsertTwoColumnsCase | tests.js:32-46 | `onDuplicateKeyUpdate([c, d])` appends both assignments, in order, after the VALUES part |
| Scenarios.InsertNoUpdateCase | tests.js:48-91 | `onDuplicateKeyUpdate()`, `onDuplicateKeyUpdate('grade')` and `onDuplicateKeyUpdate([])` give the plain INSERT |
| Scenarios.InsertIgnoreCase | tests.js:93-106 | `ignore()` gives "INSERT IGNORE" followed by the INTO and VALUES parts |

## Left out

- The base grammar (sql-bricks) is not part of this model: its clause lists and the fragments it renders for its own clauses are inputs (a list of clause names and a map of rendered fragments); of its `toString` only the contract the extension relies on is modelled, as `Assembler.Assemble` (present, non-empty fragments in clause order, one space apart). The SELECT and INSERT lists in `Scenarios` are examples that carry the anchors the extension names. `Builder.BaseFragment` and `Builder.BaseFragments` read the base grammar's fragments from that map; they stand for base-grammar rendering, not for any line of the extension.
- The column handler `sql._handleColumn` is modelled only as backtick quoting of reserved words (`Clauses.Q`), with the reserved words as a parameter. Table-qualified names, already-quoted names and the handler's other forms are not modelled. `Scenarios` uses the two reserved words that appear in the tests.
- The process-wide `sql._autoQuoteChar = '`'` assignment (index.js:9) is not modelled as a mutation. The backtick is fixed in `Clauses.Q`.
- Prototype patching (index.js:13, 30, 47, 66, 92): which kinds have which setter is expressed as each setter's precondition on the builder's kind.
- Builder.StatementBuilder.OrderBy: models only string columns passed variadically. A lone array argument is stored as one element whose text the column handler forms, and that is not modelled.
- Builder.StatementBuilder.Limit: takes an absent value or a non-negative integer, 0 counting as falsy, and renders it as plain decimal digits. Not modelled: negative, fractional and non-numeric values; values of 10^21 or more, which JavaScript prints in exponent form (`limit(1e21)` renders "LIMIT 1e+21"); and values above 2^53, which a JavaScript number cannot hold exactly. For those values the source does not keep the "digits that read back as the value" promise of Clauses.RenderLimit. The same holds for `Builder.StatementBuilder.Offset` and Clauses.RenderOffset.
- Clauses.RenderOnDuplicate: a null or undefined entry makes the source throw a TypeError while reading its constructor. The model states this as the `Renderable` precondition instead of modelling the exception.
- Clauses.Assignment: an object entry is given as its keys in `Object.keys` order, with each value already in its string form. JavaScript's string conversion of the value is not modelled.
- `defineClause` belongs to the base grammar. Its behaviour on a duplicate name or a missing anchor is the documented choice above. The extension always supplies a valid anchor.
- The renderers' `this` binding and the template-string forms in the comments (index.js:25, 41, 58, 101) are not modelled. They are commentary, not code.

