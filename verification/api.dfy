/** The four handlers of routes/api.js as pure functions from a store of tables
    to a reply. An HTTP status becomes a variant of `ApiResult`; a storage
    error raised by a failing save becomes `SaveRejected`. Every failing
    request leaves the store as it was. */
module Api {
  import opened TableModel
  import Catalog

  datatype ApiResult =
    | Ok(table: Table)
    | BadRequest(message: string)
    | NotFound(message: string)
    | SaveRejected(error: ValidationError)

  /** The table collection. `nextId` stands for the identifier the storage
      layer hands out to the next table it creates. */
  datatype Store = Store(tables: seq<Table>, nextId: nat)

  datatype Reply = Reply(result: ApiResult, store: Store)

  /** `Table.findById`: the position of the first table with that identifier. */
  function FindTable(tables: seq<Table>, id: nat): (r: Option<nat>)
    ensures r.Some? ==> r.value < |tables| && tables[r.value].id == id
    ensures r.Some? ==> forall j :: 0 <= j < r.value ==> tables[j].id != id
    ensures r.None? <==> forall j :: 0 <= j < |tables| ==> tables[j].id != id
  {
    if tables == [] then None
    else if tables[0].id == id then Some(0)
    else match FindTable(tables[1..], id)
      case None => None
      case Some(j) => Some(j + 1)
  }

  // ---------------------------------------------------------------------------
  // POST /tables

  datatype ColumnsPayload = ColumnsAbsent | ColumnsNotArray | ColumnsArray(items: seq<ColumnSpec>)

  datatype CreateRequest = CreateRequest(name: Option<string>, columns: ColumnsPayload)

  /** Every column of the request has a truthy name and a truthy type. */
  predicate WellShaped(items: seq<ColumnSpec>)
  {
    forall i :: 0 <= i < |items| ==> Present(items[i].name) && Present(items[i].ctype)
  }

  /** Creates a table from a name and a column list: the request's shape is
      checked first, then the columns are cast, the name column is injected
      and the new table is saved. `now` is its creation time. */
  function CreateTable(store: Store, request: CreateRequest, now: int): (reply: Reply)
    ensures !Present(request.name) || !request.columns.ColumnsArray? ==>
              reply == Reply(BadRequest("Name and columns array are required"), store)
    ensures Present(request.name) && request.columns.ColumnsArray? && !WellShaped(request.columns.items) ==>
              reply == Reply(BadRequest("Columns must have name and type"), store)
    ensures !reply.result.Ok? ==> reply.store == store
    ensures reply.result.Ok? <==>
              && Present(request.name) && request.columns.ColumnsArray?
              && forall i :: 0 <= i < |request.columns.items| ==> CastColumn(request.columns.items[i]).Some?
    ensures reply.result.Ok? ==>
              var t := reply.result.table;
              && TableValid(t)
              && t.id == store.nextId && t.name == request.name.value && t.rows == [] && t.createdAt == now
              && t.columns == InjectNameColumn(CastColumns(request.columns.items).value, true)
              && reply.store == Store(store.tables + [t], store.nextId + 1)
  {
    if !Present(request.name) || !request.columns.ColumnsArray? then
      Reply(BadRequest("Name and columns array are required"), store)
    else if !WellShaped(request.columns.items) then
      Reply(BadRequest("Columns must have name and type"), store)
    else match CastColumns(request.columns.items)
      case None => Reply(SaveRejected(BadColumn), store)
      case Some(columns) =>
        match Save(Table(store.nextId, request.name.value, columns, [], now), true)
        case Rejected(e) => Reply(SaveRejected(e), store)
        case Saved(t) => Reply(Ok(t), Store(store.tables + [t], store.nextId + 1))
  }

  /** A supplied "name" column of another type does not count: the request
      keeps it and gets a second "name" column, of type text, appended. */
  lemma CreateTableDuplicatesMistypedName(store: Store, now: int)
    ensures var request := CreateRequest(Some("People"),
              ColumnsArray([ColumnSpec(Some("name"), Some("number"), [], None)]));
            var reply := CreateTable(store, request, now);
            && reply.result.Ok?
            && reply.result.table.columns == [Column("name", Number, [], false), NameColumn]
  {
    var spec := ColumnSpec(Some("name"), Some("number"), [], None);
    var column := Column("name", Number, [], false);
    assert ParseColumnType("number") == Some(Number);
    assert CastColumn(spec) == Some(column);
    assert [spec][1..] == [];
    assert CastColumns([spec][1..]) == Some([]);
    assert [column] + [] == [column];
    assert CastColumns([spec]) == Some([column]);
    assert !HasNameColumn([column]);
  }

  // ---------------------------------------------------------------------------
  // POST /tables/:tableId/rows

  /** The request body's `data`: absent (or null), some non-object, or an object. */
  datatype DataPayload = DataAbsent | DataNotObject | DataObject(fields: map<string, Value>)

  /** Appends a row and saves the table. Casting the data to a row's Map fails
      on a key the Map refuses; otherwise the save validates every row. */
  function AddRow(store: Store, tableId: nat, data: DataPayload): (reply: Reply)
    ensures !data.DataObject? ==> reply == Reply(BadRequest("Data object is required"), store)
    ensures data.DataObject? && FindTable(store.tables, tableId).None? ==>
              reply == Reply(NotFound("Table not found"), store)
    ensures !reply.result.Ok? ==> reply.store == store
    ensures reply.result.Ok? ==>
              && data.DataObject? && FindTable(store.tables, tableId).Some?
              && var i := FindTable(store.tables, tableId).value;
                 var before := store.tables[i];
                 && reply.result.table == before.(rows := before.rows + [Row(data.fields)])
                 && reply.store == store.(tables := store.tables[i := reply.result.table])
    ensures data.DataObject? && FindTable(store.tables, tableId).Some? ==>
              var before := store.tables[FindTable(store.tables, tableId).value];
              (reply.result.Ok? <==>
                 MapKeysValid(data.fields) && TableValid(before.(rows := before.rows + [Row(data.fields)])))
    ensures data.DataObject? && FindTable(store.tables, tableId).Some? && !MapKeysValid(data.fields) ==>
              reply == Reply(SaveRejected(BadMapKey), store)
  {
    if !data.DataObject? then Reply(BadRequest("Data object is required"), store)
    else match FindTable(store.tables, tableId)
      case None => Reply(NotFound("Table not found"), store)
      case Some(i) =>
        var before := store.tables[i];
        if !MapKeysValid(data.fields) then Reply(SaveRejected(BadMapKey), store)
        else match Save(before.(rows := before.rows + [Row(data.fields)]), false)
        case Rejected(e) => Reply(SaveRejected(e), store)
        case Saved(t) => Reply(Ok(t), store.(tables := store.tables[i := t]))
  }

  /** On a table that satisfies its validators, a row is accepted exactly when
      its keys are all Map keys, all name columns, and every required column is
      among its keys; a rejected row leaves the store unchanged. */
  lemma AddRowAcceptance(store: Store, tableId: nat, fields: map<string, Value>)
    requires FindTable(store.tables, tableId).Some?
    requires TableValid(store.tables[FindTable(store.tables, tableId).value])
    ensures var before := store.tables[FindTable(store.tables, tableId).value];
            var reply := AddRow(store, tableId, DataObject(fields));
            && (reply.result.Ok? <==>
                  MapKeysValid(fields) && KeysNameColumns(before.columns, fields) && RequiredKeysPresent(before.columns, fields))
            && (!reply.result.Ok? ==> reply.result.SaveRejected? && reply.store == store)
  {
    var before := store.tables[FindTable(store.tables, tableId).value];
    var after := before.(rows := before.rows + [Row(fields)]);
    assert Row(fields) in after.rows;
    if RowDataValid(before.columns, fields) {
      forall r | r in after.rows ensures RowDataValid(after.columns, r.data) {
        if r != Row(fields) {
          assert r in before.rows;
        }
      }
    }
  }

  /** A column may be called "a.b", but a row holding that key is refused
      when its data is cast to a Map, although the row validator accepts it. */
  lemma DottedKeyRefused()
    ensures var t := Table(0, "T", [Column("name", Text, [], false), Column("a.b", Text, [], false)], [], 0);
            var fields := map["name" := Mixed("x"), "a.b" := Mixed("y")];
            && RowDataValid(t.columns, fields)
            && AddRow(Store([t], 1), 0, DataObject(fields)) == Reply(SaveRejected(BadMapKey), Store([t], 1))
  {
    var t := Table(0, "T", [Column("name", Text, [], false), Column("a.b", Text, [], false)], [], 0);
    var fields := map["name" := Mixed("x"), "a.b" := Mixed("y")];
    assert t.columns[0] in t.columns && t.columns[1] in t.columns;
    assert "a.b"[1] == '.';
    assert !IsMapKey("a.b");
  }

  // ---------------------------------------------------------------------------
  // PATCH /tables/:tableId/columns

  /** `columns.filter(col => col.name !== name)` */
  function FilterColumns(columns: seq<Column>, name: string): (r: seq<Column>)
    ensures forall c :: c in r <==> c in columns && c.name != name
    ensures |r| <= |columns|
  {
    if columns == [] then []
    else
      assert columns == [columns[0]] + columns[1..];
      (if columns[0].name != name then [columns[0]] else []) + FilterColumns(columns[1..], name)
  }

  /** Filtering distributes over concatenation, so the columns that stay keep
      their relative order. */
  lemma {:induction false} FilterColumnsConcat(a: seq<Column>, b: seq<Column>, name: string)
    ensures FilterColumns(a + b, name) == FilterColumns(a, name) + FilterColumns(b, name)
    decreases |a|
  {
    if a == [] {
      assert a + b == b;
    } else {
      var ab := a + b;
      assert ab[0] == a[0] && ab[1..] == a[1..] + b;
      FilterColumnsConcat(a[1..], b, name);
    }
  }

  /** A single column stays exactly when its name differs. */
  lemma FilterColumnsSingle(c: Column, name: string)
    ensures FilterColumns([c], name) == if c.name != name then [c] else []
  {
    assert [c][1..] == [];
  }

  /** Deletes the key `name` from every row's data, keeping everything else. */
  function StripKey(rows: seq<Row>, name: string): (r: seq<Row>)
    ensures |r| == |rows|
    ensures forall i :: 0 <= i < |rows| ==> r[i].data.Keys == rows[i].data.Keys - {name}
    ensures forall i, k :: 0 <= i < |rows| && k in r[i].data ==> r[i].data[k] == rows[i].data[k]
  {
    if rows == [] then []
    else [Row(rows[0].data - {name})] + StripKey(rows[1..], name)
  }

  /** Removes a column by name and deletes its key from every row, then saves. */
  function RemoveColumn(store: Store, tableId: nat, columnName: Option<string>): (reply: Reply)
    ensures !Present(columnName) ==> reply == Reply(BadRequest("Column name is required"), store)
    ensures Present(columnName) && FindTable(store.tables, tableId).None? ==>
              reply == Reply(NotFound("Table not found"), store)
    ensures Present(columnName) && FindTable(store.tables, tableId).Some? &&
            !HasColumn(store.tables[FindTable(store.tables, tableId).value].columns, columnName.value) ==>
              reply == Reply(NotFound("Column not found"), store)
    ensures !reply.result.Ok? ==> reply.store == store
    ensures reply.result.Ok? ==>
              && Present(columnName) && FindTable(store.tables, tableId).Some?
              && var i := FindTable(store.tables, tableId).value;
                 var before := store.tables[i];
                 var t := reply.result.table;
                 && HasColumn(before.columns, columnName.value)
                 && t == before.(columns := FilterColumns(before.columns, columnName.value),
                                 rows := StripKey(before.rows, columnName.value))
                 && !HasColumn(t.columns, columnName.value)
                 && (forall r :: r in t.rows ==> columnName.value !in r.data)
                 && TableValid(t)
                 && reply.store == store.(tables := store.tables[i := t])
  {
    if !Present(columnName) then Reply(BadRequest("Column name is required"), store)
    else match FindTable(store.tables, tableId)
      case None => Reply(NotFound("Table not found"), store)
      case Some(i) =>
        var before := store.tables[i];
        var name := columnName.value;
        if !(exists c | c in before.columns :: c.name == name) then Reply(NotFound("Column not found"), store)
        else
          var after := before.(columns := FilterColumns(before.columns, name), rows := StripKey(before.rows, name));
          assert forall r :: r in after.rows ==> name !in r.data by {
            forall r | r in after.rows ensures name !in r.data {
              var j :| 0 <= j < |after.rows| && after.rows[j] == r;
            }
          }
          match Save(after, false)
          case Rejected(e) => Reply(SaveRejected(e), store)
          case Saved(t) => Reply(Ok(t), store.(tables := store.tables[i := t]))
  }

  /** Removing a column keeps every row's keys within the remaining columns,
      provided they were within the columns before. */
  lemma RemoveKeepsKeysWithinColumns(columns: seq<Column>, data: map<string, Value>, name: string)
    requires KeysNameColumns(columns, data)
    ensures KeysNameColumns(FilterColumns(columns, name), data - {name})
  {
    forall k | k in data - {name} ensures HasColumn(FilterColumns(columns, name), k) {
      var c :| c in columns && c.name == k;
      assert c in FilterColumns(columns, name);
    }
  }

  /** Removing a column keeps every remaining required column among the keys. */
  lemma RemoveKeepsRequiredKeys(columns: seq<Column>, data: map<string, Value>, name: string)
    requires RequiredKeysPresent(columns, data)
    ensures RequiredKeysPresent(FilterColumns(columns, name), data - {name})
  {
  }

  /** Removing a column keeps one row valid against the remaining columns. */
  lemma RemoveKeepsRowValid(columns: seq<Column>, data: map<string, Value>, name: string)
    requires RowDataValid(columns, data)
    ensures RowDataValid(FilterColumns(columns, name), data - {name})
  {
    RemoveKeepsKeysWithinColumns(columns, data, name);
    RemoveKeepsRequiredKeys(columns, data, name);
  }

  /** Removing a column keeps every row valid against the remaining columns. */
  lemma RemoveKeepsRowsValid(columns: seq<Column>, rows: seq<Row>, name: string)
    requires forall r :: r in rows ==> RowDataValid(columns, r.data)
    ensures forall r :: r in StripKey(rows, name) ==> RowDataValid(FilterColumns(columns, name), r.data)
  {
    var stripped := StripKey(rows, name);
    var remaining := FilterColumns(columns, name);
    forall k | 0 <= k < |stripped| ensures RowDataValid(remaining, stripped[k].data) {
      assert rows[k] in rows;
      RemoveKeepsRowValid(columns, rows[k].data, name);
    }
  }

  /** Removing any column other than "name" keeps the name column. */
  lemma RemoveKeepsNameColumn(columns: seq<Column>, name: string)
    requires HasNameColumn(columns)
    requires name != "name"
    ensures HasNameColumn(FilterColumns(columns, name))
  {
    var filtered := FilterColumns(columns, name);
    var i :| 0 <= i < |columns| && IsNameColumn(columns[i]);
    assert columns[i] in filtered;
    var j :| 0 <= j < |filtered| && filtered[j] == columns[i];
  }

  /** Removing "name" leaves no name column behind. */
  lemma RemoveNameDropsNameColumn(columns: seq<Column>)
    ensures !HasNameColumn(FilterColumns(columns, "name"))
  {
  }

  /** On a valid table holding a column called `name`, removal succeeds exactly
      when `name` is not "name": removing "name" filters out every name column
      and the save is refused; nothing else can make that save fail. */
  lemma RemoveColumnOutcome(store: Store, tableId: nat, name: string)
    requires name != ""
    requires FindTable(store.tables, tableId).Some?
    requires TableValid(store.tables[FindTable(store.tables, tableId).value])
    requires HasColumn(store.tables[FindTable(store.tables, tableId).value].columns, name)
    ensures var reply := RemoveColumn(store, tableId, Some(name));
            && (reply.result.Ok? <==> name != "name")
            && (name == "name" ==> reply == Reply(SaveRejected(MissingNameColumn), store))
  {
    var before := store.tables[FindTable(store.tables, tableId).value];
    if name == "name" {
      RemoveNameDropsNameColumn(before.columns);
    } else {
      RemoveKeepsNameColumn(before.columns, name);
      RemoveKeepsRowsValid(before.columns, before.rows, name);
    }
  }

  // ---------------------------------------------------------------------------
  // GET /tables

  const DefaultLimit: nat := 10

  datatype Page = Page(items: seq<Table>, total: nat)

  /** The page offset: `skip` defaults to 0. */
  function SkipOf(skip: Option<nat>): nat
  {
    if skip.Some? then skip.value else 0
  }

  /** The page size: `limit` defaults to 10; 0 means no limit. */
  function LimitOf(limit: Option<nat>): nat
  {
    if limit.Some? then limit.value else DefaultLimit
  }

  /** Lists tables newest first, skipping `skip` of them and returning at most
      `limit`, together with the count of all tables whatever the page. */
  function ListTables(store: Store, limit: Option<nat>, skip: Option<nat>): (page: Page)
    ensures page.total == |store.tables|
    ensures Catalog.SortedByCreatedDesc(page.items)
    ensures forall t :: t in page.items ==> t in store.tables
    ensures page.items == Catalog.Window(Catalog.SortByCreatedDesc(store.tables), SkipOf(skip), LimitOf(limit))
  {
    var sorted := Catalog.SortByCreatedDesc(store.tables);
    Catalog.WindowKeepsOrder(sorted, SkipOf(skip), LimitOf(limit));
    Catalog.WindowWithin(sorted, store.tables, SkipOf(skip), LimitOf(limit));
    Page(Catalog.Window(sorted, SkipOf(skip), LimitOf(limit)), |store.tables|)
  }

  /** Asking for the page at `skip` and then the page right after it yields
      the same tables, in the same order, as asking for both at once. */
  lemma ListTablesPagesTile(store: Store, skip: nat, n: nat, m: nat)
    requires n > 0
    ensures ListTables(store, Some(n), Some(skip)).items + ListTables(store, Some(m), Some(skip + n)).items
            == ListTables(store, Some(if m == 0 then 0 else n + m), Some(skip)).items
  {
    var sorted := Catalog.SortByCreatedDesc(store.tables);
    assert ListTables(store, Some(n), Some(skip)).items == Catalog.Window(sorted, skip, n);
    assert ListTables(store, Some(m), Some(skip + n)).items == Catalog.Window(sorted, skip + n, m);
    assert ListTables(store, Some(if m == 0 then 0 else n + m), Some(skip)).items
           == Catalog.Window(sorted, skip, if m == 0 then 0 else n + m);
    Catalog.WindowsTile(sorted, skip, n, m);
  }
}
