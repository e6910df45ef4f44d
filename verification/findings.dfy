/** Two places where the code as written does not do what it evidently means
    to do. Each is modelled as written, with a concrete input that shows the
    difference; the rest of the model uses the corrected behaviour in
    TableModel.Save and Api.RemoveColumn. */
module Findings {
  import opened TableModel
  import opened Api

  // ---------------------------------------------------------------------------
  // 1. The name-column hook runs after validation.
  //
  // Mongoose validates a document in a built-in pre-save hook that runs before
  // every hook the schema registers, so the columns validator sees the columns
  // before the "name" column has been pushed.

  /** A save in the order the library runs it: validators first, then the hook. */
  function SaveAsWritten(t: Table, isNew: bool): (r: SaveResult)
    ensures r.Saved? <==> TableValid(t)
    ensures r.Saved? ==> r.table == t
  {
    if !ColumnsValidator(t.columns) then Rejected(MissingNameColumn)
    else if !AllRowsValid(t.columns, t.rows) then Rejected(RowDataMismatch)
    else Saved(t.(columns := InjectNameColumn(t.columns, isNew)))
  }

  /** `createTable` over the as-written save. */
  function CreateTableAsWritten(store: Store, request: CreateRequest, now: int): (reply: Reply)
    ensures reply.result.Ok? ==>
              && request.columns.ColumnsArray? && CastColumns(request.columns.items).Some?
              && HasNameColumn(CastColumns(request.columns.items).value)
              && reply.result.table.columns == CastColumns(request.columns.items).value
    ensures !reply.result.Ok? ==> reply.store == store
  {
    if !Present(request.name) || !request.columns.ColumnsArray? then
      Reply(BadRequest("Name and columns array are required"), store)
    else if !WellShaped(request.columns.items) then
      Reply(BadRequest("Columns must have name and type"), store)
    else match CastColumns(request.columns.items)
      case None => Reply(SaveRejected(BadColumn), store)
      case Some(columns) =>
        match SaveAsWritten(Table(store.nextId, request.name.value, columns, [], now), true)
        case Rejected(e) => Reply(SaveRejected(e), store)
        case Saved(t) => Reply(Ok(t), Store(store.tables + [t], store.nextId + 1))
  }

  const TasksRequest := CreateRequest(Some("Tasks"),
    ColumnsArray([ColumnSpec(Some("done"), Some("checkbox"), [], None)]))

  /** A table created without a "name" column is refused as written, while the
      corrected order injects the column and creates the table. */
  lemma HookTooLate()
    ensures CreateTableAsWritten(Store([], 0), TasksRequest, 0) ==
            Reply(SaveRejected(MissingNameColumn), Store([], 0))
    ensures var reply := CreateTable(Store([], 0), TasksRequest, 0);
            && reply.result.Ok?
            && reply.result.table.columns == [Column("done", Checkbox, [], false), NameColumn]
  {
    var done := Column("done", Checkbox, [], false);
    var spec := TasksRequest.columns.items[0];
    assert ParseColumnType("checkbox") == Some(Checkbox);
    assert CastColumn(spec) == Some(done);
    assert TasksRequest.columns.items[1..] == [];
    assert CastColumns(TasksRequest.columns.items[1..]) == Some([]);
    assert [done] + [] == [done];
    assert CastColumns(TasksRequest.columns.items) == Some([done]);
    assert !IsNameColumn(done);
    assert !HasNameColumn([done]);
  }

  // ---------------------------------------------------------------------------
  // 2. Spreading a Map copies none of its entries.
  //
  // A row's `data` is a Map. Object spread copies own enumerable properties,
  // and a Map's entries are not properties, so the copy that is meant to lose
  // one key holds none of the row's entries. The internal fields the copy
  // does carry are not modelled.

  /** Every row's data, copied by spreading, holds none of its entries. */
  function StripKeyAsWritten(rows: seq<Row>, name: string): (r: seq<Row>)
    ensures |r| == |rows|
    ensures forall i :: 0 <= i < |r| ==> r[i].data == map[]
  {
    seq(|rows|, _ => Row(map[]))
  }

  /** `removeColumn` over the as-written copy of each row. */
  function RemoveColumnAsWritten(store: Store, tableId: nat, columnName: Option<string>): (reply: Reply)
    ensures !reply.result.Ok? ==> reply.store == store
    ensures reply.result.Ok? ==> forall r :: r in reply.result.table.rows ==> r.data == map[]
  {
    if !Present(columnName) then Reply(BadRequest("Column name is required"), store)
    else match FindTable(store.tables, tableId)
      case None => Reply(NotFound("Table not found"), store)
      case Some(i) =>
        var before := store.tables[i];
        var name := columnName.value;
        if !(exists c | c in before.columns :: c.name == name) then Reply(NotFound("Column not found"), store)
        else
          var after := before.(columns := FilterColumns(before.columns, name),
                               rows := StripKeyAsWritten(before.rows, name));
          match Save(after, false)
          case Rejected(e) => Reply(SaveRejected(e), store)
          case Saved(t) => Reply(Ok(t), store.(tables := store.tables[i := t]))
  }

  const BuyMilk := Row(map["name" := Mixed("Buy milk"), "done" := Mixed("true")])

  const Tasks := Table(0, "Tasks", [Column("done", Checkbox, [], false), NameColumn], [BuyMilk], 0)

  lemma TasksColumnsAfterRemovingDone()
    ensures FilterColumns(Tasks.columns, "done") == [NameColumn]
  {
    var done := Column("done", Checkbox, [], false);
    assert Tasks.columns == [done] + [NameColumn];
    FilterColumnsConcat([done], [NameColumn], "done");
    FilterColumnsSingle(done, "done");
    FilterColumnsSingle(NameColumn, "done");
  }

  /** Removing "done" from a table whose name column is required, as written:
      the row loses its name too and the save is refused. */
  lemma SpreadLosesRowData()
    ensures RemoveColumnAsWritten(Store([Tasks], 1), 0, Some("done")) ==
            Reply(SaveRejected(RowDataMismatch), Store([Tasks], 1))
  {
    assert Tasks.columns[0] in Tasks.columns;
    TasksColumnsAfterRemovingDone();
    var after := Tasks.(columns := [NameColumn], rows := StripKeyAsWritten(Tasks.rows, "done"));
    assert after.rows == [Row(map[])];
    assert IsNameColumn(after.columns[0]);
    assert !RowDataValid(after.columns, after.rows[0].data);
    assert Save(after, false) == Rejected(RowDataMismatch);
  }

  /** The same removal, deleting only the removed key: the row keeps its name
      and the removal succeeds. */
  lemma StripKeepsRowName()
    ensures var reply := RemoveColumn(Store([Tasks], 1), 0, Some("done"));
            && reply.result.Ok?
            && reply.result.table.rows == [Row(map["name" := Mixed("Buy milk")])]
  {
    assert Tasks.columns[0] in Tasks.columns;
    TasksColumnsAfterRemovingDone();
    var kept := Row(map["name" := Mixed("Buy milk")]);
    var stripped := StripKey(Tasks.rows, "done");
    assert stripped[0].data == kept.data;
    assert stripped == [kept];
    var after := Tasks.(columns := [NameColumn], rows := [kept]);
    assert IsNameColumn(after.columns[0]);
    assert HasColumn(after.columns, "name") by { assert after.columns[0] in after.columns; }
    assert RowDataValid(after.columns, kept.data);
    assert Save(after, false) == Saved(after);
  }
}
