/** The invariant every stored table keeps: the columns include a "name" column
    of type text, every row's keys name columns, every required column is a
    key of every row, every row key is one a Mongoose Map accepts, and
    identifiers are distinct and below the next one to be handed out. Each handler maps a store with the invariant to one with it. */
module StoreInvariant {
  import opened TableModel
  import opened Api

  /** Every key of every row is one a Mongoose Map accepts. */
  predicate RowKeysValid(rows: seq<Row>)
  {
    forall r :: r in rows ==> MapKeysValid(r.data)
  }

  /** What each stored table keeps: an identifier already handed out, the
      validators' invariant, and Map keys only. */
  predicate TableStored(t: Table, nextId: nat)
  {
    t.id < nextId && TableValid(t) && RowKeysValid(t.rows)
  }

  predicate StoreValid(store: Store)
  {
    && (forall i :: 0 <= i < |store.tables| ==> TableStored(store.tables[i], store.nextId))
    && (forall i, j :: 0 <= i < j < |store.tables| ==> store.tables[i].id != store.tables[j].id)
  }

  lemma CreateTablePreserves(store: Store, request: CreateRequest, now: int)
    requires StoreValid(store)
    ensures StoreValid(CreateTable(store, request, now).store)
  {
    var reply := CreateTable(store, request, now);
    if reply.result.Ok? {
      var t := reply.result.table;
      var after := reply.store;
      assert after == Store(store.tables + [t], store.nextId + 1);
      forall i | 0 <= i < |after.tables| ensures TableStored(after.tables[i], after.nextId) {
        if i < |store.tables| {
          assert after.tables[i] == store.tables[i];
          assert TableStored(store.tables[i], store.nextId);
        } else {
          assert after.tables[i] == t && t.rows == [];
        }
      }
    }
  }

  lemma AddRowPreserves(store: Store, tableId: nat, data: DataPayload)
    requires StoreValid(store)
    ensures StoreValid(AddRow(store, tableId, data).store)
  {
    var reply := AddRow(store, tableId, data);
    if reply.result.Ok? {
      var i := FindTable(store.tables, tableId).value;
      var before := store.tables[i];
      var t := reply.result.table;
      assert t == before.(rows := before.rows + [Row(data.fields)]);
      assert TableStored(before, store.nextId);
      assert RowKeysValid(t.rows) by {
        forall r | r in t.rows ensures MapKeysValid(r.data) {
          if r !in before.rows {
            assert r == Row(data.fields);
          }
        }
      }
      assert TableStored(t, store.nextId);
    }
  }

  /** Deleting a key from every row keeps the remaining keys Map keys. */
  lemma StripKeyKeepsMapKeys(rows: seq<Row>, name: string)
    requires RowKeysValid(rows)
    ensures RowKeysValid(StripKey(rows, name))
  {
    var stripped := StripKey(rows, name);
    forall r | r in stripped ensures MapKeysValid(r.data) {
      var k :| 0 <= k < |stripped| && stripped[k] == r;
      assert rows[k] in rows;
    }
  }

  lemma RemoveColumnPreserves(store: Store, tableId: nat, columnName: Option<string>)
    requires StoreValid(store)
    ensures StoreValid(RemoveColumn(store, tableId, columnName).store)
  {
    var reply := RemoveColumn(store, tableId, columnName);
    if reply.result.Ok? {
      var i := FindTable(store.tables, tableId).value;
      var before := store.tables[i];
      var t := reply.result.table;
      assert TableStored(before, store.nextId);
      assert t.rows == StripKey(before.rows, columnName.value);
      StripKeyKeepsMapKeys(before.rows, columnName.value);
      assert TableStored(t, store.nextId);
      assert reply.store.tables == store.tables[i := t];
    }
  }

  /** In a valid store, the table a request names is found by its identifier
      alone, so a reply's table always replaces the one that was read. */
  lemma FindTableUnique(store: Store, i: nat)
    requires StoreValid(store)
    requires i < |store.tables|
    ensures FindTable(store.tables, store.tables[i].id) == Some(i)
  {
  }
}
