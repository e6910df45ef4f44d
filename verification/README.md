# Schema consistency of a user-defined table store

This project models the core of a small table store. Callers define tables
with an ordered list of typed columns, then append rows whose data maps
column names to values. The model covers:

- the table document (`models/table.js`): column descriptors with a type
  from a six-value enum, rows, the validator on a row's data, the validator
  on a table's columns, and the pre-save hook that adds a `"name"` column of
  type `text` to a new table that lacks one;
- the four request handlers (`routes/api.js`): create a table, add a row,
  remove a column, list tables.

Everything is a pure function over immutable datatypes. A handler takes a
`Store` (the table collection) and returns a `Reply`: the result plus the
store afterwards. The HTTP status becomes a variant of `ApiResult`:

- 201/200 with a table becomes `Ok`;
- 400 becomes `BadRequest`, carrying the handler's message;
- 404 becomes `NotFound`;
- a 500 raised by a save that fails validation becomes `SaveRejected`.

A save runs the pre-save hook (new tables only) and then the validators:

- the column invariant: some column is named `"name"` and has type `text`;
- the row validator on every row.

A failing save changes nothing. Module `StoreInvariant` proves that every
handler keeps every stored table valid, given that it was valid before.

Modules: `TableModel` (table.dfy), `Catalog` (catalog.dfy, the ordering and
paging of the listing), `Api` (api.dfy), `StoreInvariant` (store.dfy),
`Findings` (findings.dfy).

Behaviour of the code worth noting:

- The code checks no value against its column's type. Number, date,
  checkbox, select options and relation ids are all unchecked. Values are
  the opaque `Value`.
- Nothing blocks removing the `"name"` column. That removal filters out
  every `"name"` column. The save is then refused by the column invariant,
  so the reply is `SaveRejected(MissingNameColumn)`, not a dedicated
  "invalid operation" error (`Api.RemoveColumnOutcome`).
- Column names need not be unique. A supplied `"name"` column of another
  type gets a second `"name"` column, of type `text`, appended
  (`Api.CreateTableDuplicatesMistypedName`).
- The injected column is appended at the end, never prepended.
- A row key that names no column is rejected.
- A row's data is a Mongoose Map, and a Map refuses a key that starts with
  `"$"`, contains `"."`, or is `"__proto__"`, `"constructor"` or
  `"prototype"`. Such a row is refused even when the key names a column
  (`Api.DottedKeyRefused`), so the reply is `SaveRejected(BadMapKey)`.

## Model

| member | source | states |
|---|---|---|
| TableModel.ParseColumnType | models/table.js:6-10 | a type string is accepted exactly when it is one of text, number, date, select, checkbox, relation, and then names that type |
| TableModel.TypeNameRoundTrip | models/table.js:9 | each of the six types is accepted under its own name |
| TableModel.CastColumn | models/table.js:4-13 | a column casts exactly when its name is present and non-empty and its type is in the enum; options are kept and `required` is false unless given as true |
| TableModel.CastColumns | models/table.js:46-47 | a column list casts exactly when every column casts; the result has the same length and order |
| TableModel.ColumnNames | models/table.js:24 | the name list has one entry per column, in column order |
| TableModel.RequiredColumnNames | models/table.js:25-27 | a name is in the list exactly when some required column has it |
| TableModel.RowValidator | models/table.js:22-37 | row data is accepted exactly when every key names some column and every required column's name is a key; nothing else is checked |
| TableModel.AllRowsValid | models/table.js:56 | a row list passes exactly when every row's data passes the row validator |
| TableModel.ColumnsValidator | models/table.js:48-52 | the columns pass exactly when some column is named "name" and has type text |
| TableModel.InjectNameColumn | models/table.js:61-69 | a new table without a name/text column gets exactly one column {name, text, required} appended, earlier columns unchanged and in order; otherwise the columns are unchanged; a new table always ends up with a name column |
| TableModel.InjectIdempotent | models/table.js:62-67 | running the hook a second time changes nothing |
| TableModel.Save | models/table.js:44-69 | a save succeeds exactly when the columns after the hook satisfy the column invariant and every row passes the row validator; a saved table is valid; an existing table is saved exactly when it is already valid |
| Catalog.Insert | routes/api.js:86 | inserting into a newest-first list keeps it newest first and adds exactly that table |
| Catalog.SortByCreatedDesc | routes/api.js:85-86 | the result is a permutation of the tables, ordered by creation time, newest first |
| Catalog.Window | routes/api.js:87-88 | the page holds the tables at positions skip, skip+1, ... of the ordering, at most `limit` of them (all remaining ones when the limit is 0), none when skip is past the end |
| Catalog.WindowsTile | routes/api.js:87-88 | the page at `skip` followed by the page right after it equals the page of both sizes together |
| Catalog.WindowKeepsOrder | routes/api.js:86-88 | a page of a newest-first ordering is newest first |
| Catalog.WindowWithin | routes/api.js:85-88 | every table on a page of a reordering is one of the original tables |
| Api.FindTable | routes/api.js:35 | finds the first table with the identifier, or reports that no table has it |
| Api.CreateTable | routes/api.js:7-23 | BadRequest with nothing stored when the name is missing or the columns are missing or not a list, or when a column lacks a name or a type; otherwise the table is created exactly when every column casts, with no rows, the injected columns and a valid schema, and is added to the store |
| Api.CreateTableDuplicatesMistypedName | models/table.js:63-65 | a supplied "name" column of type number is kept and a second "name" column of type text is appended |
| Api.AddRow | routes/api.js:26-44 | BadRequest when data is absent or not an object, NotFound when the table is missing, store unchanged in both cases; a key the Map refuses is a save rejection with the store unchanged; on success the rows are the old rows plus the new one, all else unchanged, and the row is accepted exactly when every key is a Map key and the extended table is valid |
| Api.AddRowAcceptance | routes/api.js:38-39 | on a valid table a row is accepted exactly when its keys are all Map keys, all name columns, and every required column is a key; a rejected row is a save rejection with the store unchanged |
| Api.DottedKeyRefused | models/table.js:17-20 | a row {name, "a.b"} on a table with columns name and "a.b" passes the row validator, yet adding it is refused because "a.b" is not a Map key |
| Api.FilterColumns | routes/api.js:66 | a column remains exactly when it was there and its name differs from the removed one |
| Api.FilterColumnsConcat | routes/api.js:66 | filtering distributes over concatenation, so remaining columns keep their relative order |
| Api.FilterColumnsSingle | routes/api.js:66 | a single column remains exactly when its name differs |
| Api.StripKey | routes/api.js:67-71 | the number of rows is unchanged; each row loses the removed key and keeps every other key with its value |
| Api.RemoveColumn | routes/api.js:47-78 | BadRequest without a column name, NotFound when the table or the column is missing, store unchanged on every failure; on success the column is gone from the columns and from every row, the table is valid and replaces the old one |
| Api.RemoveKeepsKeysWithinColumns | routes/api.js:66-71 | if every key of a row named a column before, every key names a remaining column after |
| Api.RemoveKeepsRequiredKeys | routes/api.js:66-71 | every remaining required column is still a key of the row |
| Api.RemoveKeepsRowValid | routes/api.js:66-71 | a row valid before the removal, with the removed key deleted, is valid against the remaining columns |
| Api.RemoveKeepsRowsValid | routes/api.js:66-73 | rows valid before the removal are valid against the remaining columns |
| Api.RemoveKeepsNameColumn | routes/api.js:66 | removing a column other than "name" keeps the name column |
| Api.RemoveNameDropsNameColumn | routes/api.js:66 | removing "name" leaves no name column |
| Api.RemoveColumnOutcome | routes/api.js:60-73 | on a valid table holding the column, the removal succeeds exactly when the column is not "name"; removing "name" is a save rejection with the store unchanged |
| Api.ListTables | routes/api.js:81-95 | `total` is the number of all tables whatever the page; the items are newest first, all from the store, and are the page at `skip` (default 0) of at most `limit` (default 10) tables of the newest-first ordering |
| Api.ListTablesPagesTile | routes/api.js:85-89 | two consecutive pages together equal the single page covering both |
| StoreInvariant.CreateTablePreserves | routes/api.js:16-19 | creating a table keeps every stored table valid, every row key a Map key, and identifiers distinct |
| StoreInvariant.AddRowPreserves | routes/api.js:38-40 | adding a row keeps every stored table valid, every row key a Map key, and identifiers distinct |
| StoreInvariant.RemoveColumnPreserves | routes/api.js:66-74 | removing a column keeps every stored table valid, every row key a Map key, and identifiers distinct |
| StoreInvariant.StripKeyKeepsMapKeys | routes/api.js:67-71 | deleting a key from every row keeps every remaining key a Map key |
| StoreInvariant.FindTableUnique | routes/api.js:35 | in a valid store a table is found at its own position by its identifier |
| Findings.SaveAsWritten | models/table.js:61-69 | with the validators running before the hook, a save succeeds exactly when the table is valid before the hook, and the hook then adds nothing |
| Findings.CreateTableAsWritten | routes/api.js:16-18 | in that order, a table is created only if the supplied columns already hold a name column, and then exactly those columns are kept |
| Findings.HookTooLate | models/table.js:61-65 | creating "Tasks" with only a checkbox column is refused as written, and succeeds with the name column appended when the hook runs first |
| Findings.StripKeyAsWritten | routes/api.js:67-71 | copying a row's data by spreading it leaves every row with no entries |
| Findings.RemoveColumnAsWritten | routes/api.js:47-78 | with that copy, a successful removal leaves every row empty; a failing one changes nothing |
| Findings.SpreadLosesRowData | routes/api.js:68-69 | as written, removing "done" from a table with a required name column and one row {name, done} is refused, because the row loses its name too |
| Findings.StripKeepsRowName | routes/api.js:66-73 | the same removal, deleting only the removed key, succeeds and leaves the row as {name} |

## Left out

- index.js: CORS settings, the database connection and the port listener are process setup.
- Express routing, status codes and JSON encoding: replaced by `ApiResult` variants.
- Storage: `findById` is `FindTable` over a sequence, `countDocuments` is the length of that sequence, and identifier generation is the `nextId` counter. Indexes and the fresh row identifiers written at routes/api.js:70 are storage details.
- A 500 from a storage failure other than a validation error is not modelled.
- `Date.now`: the creation time is the `now` argument of `CreateTable`.
- `parseInt` on query strings, including NaN: `limit` and `skip` are optional naturals. A limit of 0 means "no limit", as in MongoDB.
- Ties in the listing: MongoDB leaves the order of tables with equal `createdAt` open. The contracts promise only newest-first order and a permutation, so the order among ties is left open too.
- The lost-update race between concurrent `addRow` and `removeColumn` calls is concurrency and is not modelled.
- Value contents (`Mixed`): no per-type checks exist, so values are opaque.
- Request bodies are typed: a table or column name is a string or absent. `data` is absent, a non-object, or an object. An array passed as `data` passes the object check; casting it to a map is not modelled.
- Findings.StripKeyAsWritten: the spread copy is modelled as empty data. Any internal properties of the Map object that the spread may copy, and how the library then treats them, are not modelled.
- Map keys are checked when a new row is cast, before the save, and a refused key becomes `SaveRejected(BadMapKey)`. The library reports this as a cast error, which the handler also answers with a 500.
- A failed save reports one `ValidationError`: the column invariant is checked before the rows. The library collects every failing validator into one message.

## Findings

| source | as written | input that shows it | evidently intended | confidence | as-written member | corrected member |
|---|---|---|---|---|---|---|
| models/table.js:61-69 | The name column is pushed in a schema pre-save hook. Mongoose runs validation in its own pre-save hook, ahead of the schema's hooks, so the columns validator (models/table.js:49-52) sees the columns before the push. | createTable with name "Tasks" and columns [{name: "done", type: "checkbox"}] | the column is injected before validation, so the table is created with columns done, name | not executed; medium: rests on Mongoose's documented hook order | Findings.HookTooLate | Api.CreateTable |
| routes/api.js:68 | `{ ...row.data }` copies a Map by object spread. Spread copies own properties, and a Map's entries are not properties, so the copy holds none of the row's entries; the library then probably refuses the copied internal fields. | removeColumn "done" on a table with columns done (checkbox) and name (text, required) and one row {name: "Buy milk", done: true} | only the removed key is deleted; the row keeps {name: "Buy milk"} and the save succeeds | not executed; medium: internal properties the copy may carry are not modelled | Findings.SpreadLosesRowData | Api.RemoveColumn |
