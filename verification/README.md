# qlx in Dafny

qlx is a small Go ORM for the embedded `ql` SQL engine. A `BaseModel` is built
from a Go struct whose fields carry `ql:"column"` tags and, optionally,
`index:"..."` tags. The constructor `NewBaseModelWithCreated` does three things:

- It validates the struct. Field 0 must be `id int64`. Every other field needs a
  snake-case `ql` tag and a type the engine can store.
- It maps each field type to a `ql` column type.
- It reconciles the table with the engine's catalog. A missing table is created
  together with its indexes. On an existing table, missing columns and indexes
  are added and stray ones are dropped. A column whose type drifted, or an index
  whose uniqueness drifted, is an error.

The model also builds the SQL texts (CREATE TABLE, INSERT, SELECT, the index and
column DDL, and the CRUD query templates) and reads the engine's result sets
back into values, errors or empty collections.

The model is functional:

- Field types, catalog rows, DDL statements and errors are datatypes.
- Every operation is a pure function. The exceptions are the three SQL builders
  and `InsertAll`, which are methods with the source's loops.
- The engine is an oracle: its answer to each statement is an input.
- Reconciliation is split in two steps. A phase first computes a *plan*: its
  statements in order, plus the error it ends with. `Execute` then runs the
  plan against the oracle and stops at the first rejected statement. The two
  steps agree because the Go code never re-reads the catalog while it issues
  statements.
- Go's map iteration order is a caller-chosen enumeration (`Enumerate`), so every
  order can be chosen. For any two orders, the declaration is accepted or rejected
  alike, the local index list holds the same indexes, and the catalog matches it
  for both or for neither. A second run is a no-op whatever order each run uses.
  Which bad tag is named, and in which order statements run, may differ.
- `strcase.ToSnake` is a function parameter `toSnake`.

Modules, following the Go files:

| module | file | Go source |
|---|---|---|
| `DataTypes` | datatypes.dfy | datatypes.go |
| `Naming` | naming.dfy | qlx.go |
| `Indexes` | indexes.dfy | index.go |
| `Columns` | columns.dfy | column.go |
| `Model` | model.dfy | basemodel.go, field validation and SQL builders |
| `Reconcile` | reconcile.dfy | basemodel.go, `NewBaseModelWithCreated` |
| `Queries` | queries.dfy | basemodel.go, `Insert` … `DeleteWhere` |
| `Convergence` | catalog.dfy | idempotence of reconciliation |
| `Results` | results.dfy | support: `Option` and `Result` |
| `Strings` | strings.dfy | support: the Go string primitives |
| `Collections` | collections.dfy | support: the Go slice and map idioms |
| `Engine` | engine.dfy | support: the engine oracle |
| `Errors` | errors.dfy | support: every error the library returns |

`Convergence` rests on an account of what the engine does with each DDL
statement. That account is an assumption of the model, not library code:

- CREATE TABLE lists the columns in order, each with the first word of its type.
- ADD COLUMN appends a column, and DROP COLUMN removes it by name.
- CREATE INDEX appends an index under its canonical name, and DROP INDEX removes
  it by name.
- Column statements leave the index catalog alone.

Under that account, `ReconcilingTwiceChangesNothing` proves the following. Take
a constructor run that went through with an engine that accepted every
statement. A second run against the resulting catalog issues no statement, and
this holds for any engine answers and any map order in the second run.

Quirks of the code are modelled as written:

- `toWhere` gives `where …` with no leading blank, and it is not idempotent.
- `select id(), from T` is built for a record without columns.
- `Delete` never commits.
- `DeleteWhere` drops its arguments.
- `QueryWhere` returns `ErrNoRows` only when there is no result set at all.
- Duplicate `ql` tags are not rejected.
- A column named `id_pkey` gets the primary key's index name.
- A type drift can follow ADD COLUMNs that were already executed.

## Model

| member | source | states |
|---|---|---|
| DataTypes.ToQlType | datatypes.go:8-59 | A field tagged `id` maps to the empty type exactly when its kind is int64, and to the id error otherwise; every other failure is "unsupported type" |
| DataTypes.ToQlTypeAgreesWithEngineType | datatypes.go:16-58 | Checked against a per-type reference (`EngineType`, `DefaultClause`): a non-id field is supported exactly when it has an engine type. Its column type is then exactly that type followed by ` not null default 0` for numbers, ` not null default ''` for strings, ` not null default false` for bools, and nothing for pointers, blobs and `sql.Null*` |
| DataTypes.FirstTokenIsEngineType | datatypes.go:23-56 | The first blank-separated word of every supported column type is the bare engine type, the value the reconciler compares with the catalog |
| DataTypes.EngineTypeIsOneWord | datatypes.go:23-56 | Every engine type the mapper produces is one non-empty word, with no blank in it |
| DataTypes.PointerToPointerUnsupported | datatypes.go:16-20 | Only one level of pointer is removed, so a pointer to a pointer is rejected |
| Naming.TableNameOf | qlx.go:12-16 | The name changes exactly for the two keywords `user` and `order`, and the only change is an added `s` |
| Naming.TableNameCollisions | qlx.go:12-16 | Two distinct snake names share a table name exactly when they are `user` and `users`, or `order` and `orders` |
| Naming.ToWhere | qlx.go:19-25 | The result is empty exactly when the fragment is all blanks; otherwise it starts with ` where ` or `where` and ends with the fragment minus its leading blanks |
| Naming.ToWhereNeverDoublesKeyword | qlx.go:20-24 | A fragment that already starts with `where` is returned trimmed, and ` where ` is added only when the keyword is missing |
| Naming.ToWhereOfBlank | qlx.go:20-24 | Any run of blanks, the empty fragment included, means "no condition" |
| Naming.ToWhereOfBarePredicate | qlx.go:21-23 | Any bare predicate (non-empty, not starting with a blank or with `where`) after any number of blanks becomes ` where ` followed by the predicate |
| Naming.ToWhereOfKeywordPredicate | qlx.go:21 | A fragment starting with `where`, after any number of blanks, becomes itself without the blanks |
| Naming.ToWhereNotIdempotent | qlx.go:19-25 | For every bare predicate `p`, normalising twice gives `where ` followed by `p`, which differs from normalising once |
| Naming.ToWherePrefixQuirk | qlx.go:21 | The keyword test is a plain prefix test, so `whereabouts = 1` gets no keyword |
| Indexes.PkeyIndexName | index.go:20-25 | The index on `id()` is named `T_id_pkey_idx`, which contains `_pkey` |
| Indexes.ColumnIndexName | index.go:25 | The index on any other column `c` is named `T_c_idx` |
| Indexes.ToIndexNameInjective | index.go:20-26 | Within one table, two different columns share an index name only when they are `id()` and `id_pkey` |
| Indexes.IdPkeyColumnCollides | index.go:22-25 | A column called `id_pkey` gets the primary key's index name |
| Indexes.QueryUnescape | index.go:31 | The unescaping inside `url.ParseQuery`: it never lengthens the text, cannot fail without a `%`, and is the identity without `%` and `+` |
| Indexes.CutAtEquals | index.go:31 | A query segment splits at its first `=` into a key without `=` and the rest |
| Indexes.CommasToAmpersands | index.go:31 | Commas become `&`, and every other character is kept in place |
| Indexes.SingleOptionTag | index.go:31 | A single option with no separator, `=` or escape parses to itself |
| Indexes.ScanOptions | index.go:37-44 | The scan succeeds exactly when every key is `unique` or `uniq`, and then the flag is set exactly when one of them is present; otherwise the error names a rejected key |
| Indexes.ToIndex | index.go:31-49 | A tag is accepted exactly when it parses and has only unique options. The index is then on the given column and table, and it is unique exactly when the options include `unique` or `uniq` |
| Indexes.ToIndexList | index.go:28-53 | One index per key, in iteration order, each built by `ToIndex`; otherwise the error of the first rejected tag |
| Indexes.ToIndexListSameKeys | index.go:30-50 | Two iteration orders over the same keys both fail, or both give the same set of indexes |
| Indexes.EmptyTagIsPlainIndex | index.go:31-49 | `index:""` declares a plain, non-unique index |
| Indexes.UniqueTagIsUnique | index.go:37-40 | `unique` and `uniq` declare a unique index |
| Indexes.SingleOptionIndex | index.go:31-49 | A tag made of one plain option declares a unique index when the option is `unique` or `uniq`, and is rejected naming that option otherwise |
| Indexes.BadEscapeRejected | index.go:31-34 | A one-segment tag with a `%` not followed by two hex digits is rejected with the invalid-tag error |
| Indexes.SemicolonRejected | index.go:31-34 | A tag with a `;` anywhere in it is rejected with the invalid-tag error |
| Indexes.CreateIndexSQL | index.go:70-86 | The statement is one committed transaction, and it says `create unique` exactly when the index is unique |
| Indexes.CreateIndexUsesModelTable | index.go:71 | The statement ignores the index's own table name and uses the model's |
| Indexes.DropIndexSQL | index.go:124 | DROP INDEX is one committed transaction |
| Indexes.CreateIndexSQLReadsBack | index.go:70-84 | For a blank-free table and column, the wrapped statement's words are `create`, `unique` exactly for a unique index, `index`, the index name built on the model's table, `on`, the table and `(column)` |
| Indexes.DropIndexSQLReadsBack | index.go:124 | The wrapped statement's words are `drop`, `index`, then the words of the index name |
| Indexes.GetIndexes | index.go:94-121 | An engine failure is the engine's own error; no result set is an empty list; otherwise the rows of the first result set |
| Columns.DescTable | column.go:17-45 | An engine failure is an error; no result set (table absent) is an empty list; otherwise the rows of the first result set |
| Columns.AddColumnSQL | column.go:47-48 | ALTER TABLE … ADD is one committed transaction |
| Columns.DropColumnSQL | column.go:56-57 | ALTER TABLE … DROP COLUMN is one committed transaction |
| Columns.AddColumnSQLReadsBack | column.go:48 | For a blank-free table and column name, the wrapped statement's words are `alter table`, the table, `add`, the column, then every word of the full column type |
| Columns.AddColumnSQLInjective | column.go:48 | Two ADD COLUMN scripts with blank-free names are equal only for the same table, column and type |
| Columns.DropColumnSQLReadsBack | column.go:57 | For a blank-free table, the wrapped statement's words are `alter table`, the table, `drop column`, then the column's words |
| Collections.KeyByIsLast | basemodel.go:129-132 | Building a map from a slice keeps, for each name, the last element that carries it |
| Collections.KeyByDomain | basemodel.go:179-182 | A name is in the map exactly when some element carries it, and it maps to an element that carries it |
| Collections.Enumerate | index.go:30 | A map iteration order lists every key exactly once |
| Collections.EnumerateReachesEveryOrder | index.go:30 | Every permutation of the keys is a possible iteration order |
| Model.Prepend | basemodel.go:80-92 | An accepted field puts its column in front of the later fields' columns; a column is indexed exactly when this field or a later one indexes it |
| Model.ValidateFrom | basemodel.go:63-93 | From field `i` on: success exactly when every field is accepted; then one column per field in order, and the index map holds exactly the indexed tags; otherwise the error of the first rejected field |
| Model.Validate | basemodel.go:62-93 | The declaration is accepted exactly when field 0 is `id int64` and every other field passes; columns come from fields 1.. in order; field 0 without a tag, or not `id int64`, gives its specific error; otherwise the first failing field's error |
| Model.IndexTagIsLast | basemodel.go:81-83 | When several fields index the same column, the last field's tag wins |
| Model.CamelCaseTagRejected | basemodel.go:76-78 | A tag that is not its own snake form is rejected, naming that field |
| Model.GetCreateTableSQL | basemodel.go:226-240 | The builder loop computes the CREATE TABLE text: `name type` per column, comma-separated, in one committed transaction |
| Model.GetInsertSQL | basemodel.go:251-277 | The loop computes argsIndex `1..n` and the INSERT text with the column list and the `$1..$n` list side by side |
| Model.GetSelectSQL | basemodel.go:279-290 | The loop computes the SELECT text: `select id(),` and then the comma-separated columns |
| Model.CreateTableDeclaresEachColumn | basemodel.go:229-236 | Cutting the CREATE TABLE body at commas gives back one definition per column, in order; its first word is the column name |
| Model.PlaceholdersNumberTheArguments | basemodel.go:258-263 | Placeholder `k` is `$` followed by the decimal of argsIndex[k], and no two placeholders coincide |
| Model.InsertBindsEachColumnToItsField | basemodel.go:251-277 | In the INSERT, the k-th column and the k-th placeholder line up: argsIndex[k] is the field that declared column k |
| Model.SelectProjectsRecordLayout | basemodel.go:279-290 | SELECT projects `id()` and then the columns in field order, one per record field |
| Model.SelectProjection | basemodel.go:279-290 | The SELECT text is `select`, the comma-joined projection and the table, and cutting the projection at its commas gives back `id()` and the column names |
| Model.SelectWithoutColumns | basemodel.go:281-288 | With no column, the text is `select id(), from T` |
| Reconcile.Execute | index.go:55-67 | Statements run in order and stop at the first the engine rejects. What ran is a prefix of the plan, every statement in it was accepted, and the rejected one is the next statement |
| Reconcile.ExecuteAll | index.go:55-67 | With an engine that accepts everything, the whole plan runs |
| Reconcile.ColumnPlan | basemodel.go:134-156 | No stop exactly when no declared column drifts; a stop names the first drifting column, after ADDs of earlier columns only; each ADD is for a declared column the catalog lacks, with the full type; without a stop, every missing column is added |
| Reconcile.DropColumnPlan | basemodel.go:158-171 | A catalog column is dropped exactly when no field declares it |
| Reconcile.IndexCreatePlan | basemodel.go:184-204 | No stop exactly when no declared index's uniqueness drifts; a stop names the first drift; each CREATE INDEX is for a declared index whose name the catalog lacks; without a stop, every missing index is created |
| Reconcile.IndexDropPlan | basemodel.go:206-221 | A catalog index is dropped exactly when its name contains no `_pkey` and no field declares it |
| Reconcile.CreationPlan | basemodel.go:107-126 | A new table gets one CREATE TABLE, then the unique index on `id()`, then each declared index in list order |
| Reconcile.ReconcileIndexes | basemodel.go:173-223 | A failed index-catalog read aborts with that read's error after the column phase's statements (basemodel.go:174-178). Otherwise the index phase ends as `EndsAs` says: an engine rejection aborts with that error, wrapped with the rejected statement, a uniqueness drift aborts with its error, and Reconciled means the whole index plan ran |
| Reconcile.ReconcileTable | basemodel.go:128-223 | On an existing table the run ends as `TableEndsAs` says. A column phase that is rejected or drifts aborts with that failure, and nothing after it runs. Reconciled, with the same model, means both whole phases ran |
| Reconcile.CreateTableAndIndexes | basemodel.go:107-126 | On a new table the first rejected statement of the creation plan aborts with the engine's error, and nothing after it runs (basemodel.go:109-113, 119-123). Created, with the same model, exactly when the whole plan ran |
| Reconcile.ReconcileModel | basemodel.go:100-223 | With the declaration validated: a column-catalog read error aborts before any statement; an empty catalog ends as the creation plan does, and a non-empty one as `TableEndsAs` says; the model is kept unless the run aborts, Created only for an empty catalog, Reconciled only for a non-empty one, and every executed statement was accepted |
| Reconcile.NewBaseModelWithCreated | basemodel.go:35-224 | A validation error aborts before any statement, and so does a column-catalog read error once the index tags are accepted (basemodel.go:101-105). Success needs an accepted declaration and index list, and returns the model of the declaration. Created only when the column catalog is empty, and Reconciled only when it is not |
| Reconcile.FirstFailureIsReturned | basemodel.go:107-223 | The constructor returns the first failure: on a new table it ends as the creation plan does, on an existing one as `TableEndsAs` says, and success means the whole creation plan, or both whole phases, ran |
| Reconcile.RunEndsAs | basemodel.go:141-145 | A phase run is an accepted prefix of its plan. A short run ends with the next statement rejected and that error, a whole run with the plan's own error, and the run is whole exactly when the engine accepts every statement |
| Reconcile.IndexTagErrorAborts | basemodel.go:94-98 | With the fields accepted, a rejected index tag aborts with that tag's error before the catalog is read or any statement runs |
| Reconcile.ExecutedArePlanned | basemodel.go:107-223 | Every executed statement comes from the creation plan (empty catalog) or from the column and index phases (existing table) |
| Reconcile.ColumnPhaseDropsStrays | basemodel.go:158-171 | The column phase drops only undeclared catalog columns, and never an index |
| Reconcile.IndexPhaseDropsStrays | basemodel.go:206-221 | The index phase drops only unprotected, undeclared catalog indexes, and never a column |
| Reconcile.DropsOnlyStrayColumns | basemodel.go:158-171 | No run of the constructor drops a declared column or a column the catalog did not list |
| Reconcile.DropsOnlyStrayIndexes | basemodel.go:206-221 | No run of the constructor drops a `_pkey` index, a declared index, or an index the catalog did not list |
| Reconcile.DriftIsPlanned | basemodel.go:151-155 | A phase that ends with a drift error ran its whole plan |
| Reconcile.ColumnPhaseStop | basemodel.go:136-156 | A column phase that stops does so on a type drift of a declared column, after ADDs only |
| Reconcile.TypeDriftRunsOnlyAdditions | basemodel.go:136-171 | A type drift aborts the constructor before any DROP COLUMN or index statement; it ran only ADDs of declared columns the catalog lacked |
| Reconcile.UniqueDriftDropsNoIndex | basemodel.go:184-221 | A uniqueness drift aborts before any DROP INDEX; besides the column phase, it only created declared indexes |
| Reconcile.NewTableIsCreated | basemodel.go:107-126 | With an empty catalog and an accepting engine, the result is Created with exactly the creation plan, whatever the index catalog says |
| Reconcile.ColumnPhaseEmpty | basemodel.go:128-171 | The column phase issues nothing and does not stop exactly when every declared column is present with its base type and no other column exists |
| Reconcile.IndexPhaseEmpty | basemodel.go:173-221 | The index phase issues nothing and does not stop exactly when every declared index is present with its uniqueness and every other index is protected |
| Reconcile.NoOpIffCatalogMatches | basemodel.go:128-223 | On an existing table, the constructor issues no statement and returns the model exactly when the catalog already matches the declaration |
| Convergence.ReconcilingTwiceChangesNothing | basemodel.go:107-223 | After a successful run with an accepting engine, a second run against the resulting catalog issues nothing and returns the same model, for any engine and any map order |
| Convergence.CreatedCatalogMatches | basemodel.go:107-126 | After the creation plan, the catalog matches the declaration |
| Convergence.ReconciledColumnsMatch | basemodel.go:128-171 | After a full column phase (and the index phase), every declared column is present with its base type, and no other column is left |
| Convergence.ReconciledIndexesMatch | basemodel.go:173-221 | After a full index phase, every declared index is present with its uniqueness, and only protected or declared indexes are left |
| Convergence.PhasesKeepDeclarations | basemodel.go:134-221 | No statement of either phase can undo a declared column or index |
| Convergence.IndexKeysAreColumns | basemodel.go:80-92 | Every indexed name is a declared column |
| Convergence.SameNameSameColumn | index.go:20-26 | On one table, indexes on ordinary columns share a name only when they share the column |
| Convergence.IndexListWellIndexed | index.go:28-53 | An index list over ordinary columns sits on the model's table, with no two names alike |
| Convergence.LocalsWellIndexed | index.go:28-53 | The same holds for the declared indexes of an accepted declaration that has no column called `id()` |
| Convergence.IndexesMatchSameMembers | basemodel.go:184-221 | Whether the index catalog matches depends on the declared indexes only as a set |
| Queries.ReadOne | basemodel.go:368-379 | The first row of the first result set. No result set, no row, or an empty row is `ErrNoRows` |
| Queries.Find | basemodel.go:357-385 | Sends the select with ` where id()=$1`. An engine error is wrapped with the query; it is `ErrNoRows` exactly when there is no set, no row or an empty row; otherwise it succeeds with the first row |
| Queries.FindWhere | basemodel.go:387-416 | Same reading as Find on select + normalised condition, with the engine error returned as it is; a non-empty first row is returned |
| Queries.QueryWhere | basemodel.go:418-449 | Only a missing result set is `ErrNoRows`; otherwise every row of the first set, which may be none |
| Queries.FindWhereIsFirstOfQueryWhere | basemodel.go:387-449 | FindWhere returns QueryWhere's first record; when QueryWhere finds nothing, FindWhere gives `ErrNoRows`; both give the same errors |
| Queries.IdCondition | qlx.go:19-25 | `id()=$1` normalises to ` where id()=$1` |
| Queries.FindIsFindWhereOnId | basemodel.go:357-416 | Find sends the same call as FindWhere(`id()=$1`, id) and gives the same result, except that it wraps engine errors with the query |
| Queries.ReadExists | basemodel.go:458-468 | No result set is `ErrNoRows`; otherwise the answer is whether the first row is non-empty, and an empty row is false without an error |
| Queries.Exists | basemodel.go:451-469 | `select 1 … where id()=$1 limit 1`; true exactly when a non-empty row comes back |
| Queries.ExistsWhere | basemodel.go:471-493 | The same, with the normalised condition |
| Queries.ExistsIsExistsWhereOnId | basemodel.go:451-493 | Exists is ExistsWhere(`id()=$1`, id) |
| Queries.CountWhere | basemodel.go:495-515 | No set, no row or an empty row is `ErrNoRows`; otherwise it succeeds with the first value of the first row |
| Queries.Status | basemodel.go:521-522 | A statement that changes rows fails exactly when the engine rejects it |
| Queries.UpdateSet | basemodel.go:517-523 | Fails exactly when the engine rejects the update, with the engine's own error |
| Queries.Clear | basemodel.go:525-528 | Fails exactly when the engine rejects the truncate, with the engine's own error |
| Queries.Truncate | basemodel.go:530-532 | Fails exactly when the engine rejects Clear's truncate statement, and then returns the engine's error |
| Queries.Delete | basemodel.go:534-538 | Fails exactly when the engine rejects the delete, with the engine's own error |
| Queries.DeleteWhere | basemodel.go:540-546 | Fails exactly when the engine rejects the delete, with the engine's own error |
| Queries.DeleteNeverCommits | basemodel.go:535 | Delete's statement opens a transaction and does not end with `;COMMIT;` |
| Queries.DeleteWhereIgnoresArgs | basemodel.go:544 | DeleteWhere sends no arguments, whatever it is given |
| Queries.InsertCall | basemodel.go:305-310 | The INSERT text, with one argument per column |
| Queries.InsertArgumentsSkipTheId | basemodel.go:305-310 | The arguments are the record's values without the id, so `$k+1` gets field `k+1` |
| Queries.Insert | basemodel.go:292-325 | A record of another type is rejected before anything is sent; otherwise it fails exactly when the engine rejects the insert, and the error is wrapped with the query |
| Queries.InsertAll | basemodel.go:327-355 | A non-slice or a wrong element type is rejected before any insert. Otherwise records are inserted in order up to the first rejection; it succeeds exactly when all were inserted, and otherwise reports the first rejection |

## Left out

- Opening the database (basemodel.go:43-55) and the check that the struct is not a pointer (basemodel.go:58-60). Both need the runtime.
- `NewBaseModel` (basemodel.go:30-33). It only drops the `created` flag of `NewBaseModelWithCreated`.
- The catalog queries in `DescTable` and `GetIndexes`. The engine's answer is an input. Row-decoding errors inside `Do`/`Unmarshal` are not modelled.
- Reflection and `ql.Unmarshal`. A record is its list of field values, and a row is read as the record.
- Message text. Each error constructor keeps the values its message is built from. The backquotes that `dropIndex` and `Insert` put around the query are not modelled.
- Logging and the row printing in `Insert` (basemodel.go:317-322).
- `ql.MustCompile` in `addColumn`/`dropColumn`, which panics on a statement that does not compile. The model treats such a statement like any other engine answer.
- `strcase.ToSnake`, which is a parameter. `strToolkit.TrimStart`, which is modelled as dropping leading blanks.
- `url.ParseQuery` beyond what index tags need. Its key order is kept as written, where Go ranges over a map. So which bad key is named when a tag has several is one possible choice of Go's.
- Queries.CountWhere: returns the first value of the first row. The `int64` type assertion, which panics on any other value, is not modelled, nor is the `FirstRow` read error (basemodel.go:507-510).
- Queries.Find: the engine's answer is a list of result sets already read, so the error `FirstRow` can return while reading them (basemodel.go:372-375) has no counterpart.
- Queries.FindWhere: likewise for its `FirstRow` error (basemodel.go:403-406).
- Queries.QueryWhere: likewise for the error of reading the first set with `Do` and `Unmarshal` (basemodel.go:434-446).
- Queries.Exists: likewise for its `FirstRow` error (basemodel.go:461-464).
- Queries.ExistsWhere: likewise for its `FirstRow` error (basemodel.go:484-487).
- Convergence.ReconcilingTwiceChangesNothing: requires at least one column and distinct `ql` tags. With duplicate tags the code accepts the declaration, but the catalog cannot hold both columns. It also requires no column called `id()`.
- Reconcile: a type drift or a uniqueness drift can come after DDL already ran. This is modelled as written; `TypeDriftRunsOnlyAdditions` and `UniqueDriftDropsNoIndex` state exactly what ran.
