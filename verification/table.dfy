/** The table document of models/table.js: column descriptors, rows whose data
    is a map from column name to an unchecked value, the validator on a row's
    data, the validator on a table's columns, and the pre-save hook that
    injects the mandatory "name" column into a new table. */
module TableModel {

  datatype Option<+T> = None | Some(value: T)

  /** The six values the column schema's `type` enum admits. */
  datatype ColumnType = Text | Number | Date | Select | Checkbox | Relation

  function TypeName(t: ColumnType): string
  {
    match t
    case Text => "text"
    case Number => "number"
    case Date => "date"
    case Select => "select"
    case Checkbox => "checkbox"
    case Relation => "relation"
  }

  /** Casting a raw type string against the enum; None for any other string. */
  function ParseColumnType(s: string): (r: Option<ColumnType>)
    ensures r.Some? ==> TypeName(r.value) == s
    ensures r.None? ==> forall t: ColumnType :: TypeName(t) != s
  {
    if s == "text" then Some(Text)
    else if s == "number" then Some(Number)
    else if s == "date" then Some(Date)
    else if s == "select" then Some(Select)
    else if s == "checkbox" then Some(Checkbox)
    else if s == "relation" then Some(Relation)
    else None
  }

  lemma TypeNameRoundTrip(t: ColumnType)
    ensures ParseColumnType(TypeName(t)) == Some(t)
  {
  }

  /** A column descriptor as stored. */
  datatype Column = Column(name: string, ctype: ColumnType, options: seq<string>, required: bool)

  /** A column descriptor as a caller supplies it: any field may be absent and
      the type is a raw string that has not yet been checked against the enum. */
  datatype ColumnSpec = ColumnSpec(name: Option<string>, ctype: Option<string>,
                                   options: seq<string>, required: Option<bool>)

  /** Row values are stored as `Mixed`: nothing in the model inspects them. */
  datatype Value = Mixed(repr: string)

  datatype Row = Row(data: map<string, Value>)

  /** A key a Mongoose Map accepts: it does not start with "$", contains no
      ".", and is none of the reserved names "__proto__", "constructor" and
      "prototype". Casting data with any other key to a row's Map fails. */
  predicate IsMapKey(k: string)
  {
    && !(|k| > 0 && k[0] == '$')
    && '.' !in k
    && k != "__proto__" && k != "constructor" && k != "prototype"
  }

  predicate MapKeysValid(data: map<string, Value>)
  {
    forall k :: k in data ==> IsMapKey(k)
  }

  datatype Table = Table(id: nat, name: string, columns: seq<Column>, rows: seq<Row>, createdAt: int)

  /** Why a save is refused. */
  datatype ValidationError = BadColumn | BadMapKey | MissingNameColumn | RowDataMismatch

  /** A string field that is present and truthy, i.e. present and non-empty. */
  predicate Present(s: Option<string>)
  {
    s.Some? && s.value != ""
  }

  /** Casting one column: the name is required (an empty string does not
      satisfy a required string), the type must be one of the enum, options
      default to none and `required` defaults to false. */
  function CastColumn(spec: ColumnSpec): (r: Option<Column>)
    ensures r.Some? <==> Present(spec.name) && spec.ctype.Some? && ParseColumnType(spec.ctype.value).Some?
    ensures r.Some? ==> && r.value.name == spec.name.value
                        && TypeName(r.value.ctype) == spec.ctype.value
                        && r.value.options == spec.options
                        && r.value.required == (spec.required.Some? && spec.required.value)
  {
    if !Present(spec.name) || spec.ctype.None? then None
    else match ParseColumnType(spec.ctype.value)
      case None => None
      case Some(t) => Some(Column(spec.name.value, t, spec.options,
                                  if spec.required.Some? then spec.required.value else false))
  }

  /** Casting a whole column list: all or nothing, order kept. */
  function CastColumns(specs: seq<ColumnSpec>): (r: Option<seq<Column>>)
    ensures r.Some? <==> forall i :: 0 <= i < |specs| ==> CastColumn(specs[i]).Some?
    ensures r.Some? ==> |r.value| == |specs| &&
                        forall i :: 0 <= i < |specs| ==> CastColumn(specs[i]) == Some(r.value[i])
  {
    if specs == [] then Some([])
    else match CastColumn(specs[0])
      case None => None
      case Some(c) =>
        match CastColumns(specs[1..])
        case None => None
        case Some(rest) => Some([c] + rest)
  }

  // ---------------------------------------------------------------------------
  // The row validator

  /** Reference reading of row validity: every key names a column and every
      required column's name is a key. */
  predicate HasColumn(columns: seq<Column>, name: string)
  {
    exists c :: c in columns && c.name == name
  }

  predicate KeysNameColumns(columns: seq<Column>, data: map<string, Value>)
  {
    forall k :: k in data ==> HasColumn(columns, k)
  }

  predicate RequiredKeysPresent(columns: seq<Column>, data: map<string, Value>)
  {
    forall c :: c in columns && c.required ==> c.name in data
  }

  predicate RowDataValid(columns: seq<Column>, data: map<string, Value>)
  {
    KeysNameColumns(columns, data) && RequiredKeysPresent(columns, data)
  }

  /** `columns.map(column => column.name)` */
  function ColumnNames(columns: seq<Column>): (names: seq<string>)
    ensures |names| == |columns|
    ensures forall i :: 0 <= i < |columns| ==> names[i] == columns[i].name
  {
    if columns == [] then [] else [columns[0].name] + ColumnNames(columns[1..])
  }

  /** `columns.filter(column => column.required).map(column => column.name)` */
  function RequiredColumnNames(columns: seq<Column>): (names: seq<string>)
    ensures forall n :: n in names <==> exists c :: c in columns && c.required && c.name == n
  {
    if columns == [] then []
    else if columns[0].required then [columns[0].name] + RequiredColumnNames(columns[1..])
    else RequiredColumnNames(columns[1..])
  }

  /** The validator on a row's `data`, computed the way the schema computes it:
      the list of column names, the list of required names, then two `every`
      checks. It accepts exactly the rows the reference reading calls valid. */
  function RowValidator(columns: seq<Column>, data: map<string, Value>): (valid: bool)
    ensures valid <==> RowDataValid(columns, data)
  {
    var columnNames := ColumnNames(columns);
    var requiredColumns := RequiredColumnNames(columns);
    var hasValidKeys := forall key | key in data :: key in columnNames;
    var hasRequiredKeys := forall key | key in requiredColumns :: key in data;
    assert hasValidKeys <==> KeysNameColumns(columns, data) by {
      forall key | key in data
        ensures key in columnNames <==> HasColumn(columns, key)
      {
        if key in columnNames {
          var i :| 0 <= i < |columnNames| && columnNames[i] == key;
          assert columns[i] in columns;
        }
        if HasColumn(columns, key) {
          var c :| c in columns && c.name == key;
          var i :| 0 <= i < |columns| && columns[i] == c;
          assert columnNames[i] == key;
        }
      }
    }
    hasValidKeys && hasRequiredKeys
  }

  /** Every row of a list passes the row validator. */
  function AllRowsValid(columns: seq<Column>, rows: seq<Row>): (valid: bool)
    ensures valid <==> forall i :: 0 <= i < |rows| ==> RowDataValid(columns, rows[i].data)
  {
    if rows == [] then true
    else RowValidator(columns, rows[0].data) && AllRowsValid(columns, rows[1..])
  }

  // ---------------------------------------------------------------------------
  // The columns validator and the name-column injection

  predicate IsNameColumn(c: Column)
  {
    c.name == "name" && c.ctype == Text
  }

  /** Reference reading of the table's column invariant. */
  predicate HasNameColumn(columns: seq<Column>)
  {
    exists i :: 0 <= i < |columns| && IsNameColumn(columns[i])
  }

  /** The validator on `columns`: `columns.some(col => col.name === 'name' && col.type === 'text')`. */
  function ColumnsValidator(columns: seq<Column>): (valid: bool)
    ensures valid <==> HasNameColumn(columns)
  {
    if columns == [] then false
    else if IsNameColumn(columns[0]) then true
    else
      var rest := ColumnsValidator(columns[1..]);
      assert rest <==> HasNameColumn(columns) by {
        if HasNameColumn(columns) {
          var i :| 0 <= i < |columns| && IsNameColumn(columns[i]);
          assert i > 0 && IsNameColumn(columns[1..][i - 1]);
        }
        if HasNameColumn(columns[1..]) {
          var i :| 0 <= i < |columns[1..]| && IsNameColumn(columns[1..][i]);
          assert IsNameColumn(columns[i + 1]);
        }
      }
      rest
  }

  /** The column the pre-save hook pushes; options take their default, none. */
  const NameColumn := Column("name", Text, [], true)

  /** The pre-save hook: a new table without a "name" column of type text gets
      one appended at the end; every other table keeps its columns. */
  function InjectNameColumn(columns: seq<Column>, isNew: bool): (result: seq<Column>)
    ensures !isNew || HasNameColumn(columns) ==> result == columns
    ensures isNew && !HasNameColumn(columns) ==>
              |result| == |columns| + 1 && result[..|columns|] == columns && result[|columns|] == NameColumn
    ensures isNew ==> HasNameColumn(result)
  {
    if isNew && !ColumnsValidator(columns) then
      var result := columns + [NameColumn];
      assert IsNameColumn(result[|columns|]);
      result
    else columns
  }

  /** Running the hook twice changes nothing after the first run. */
  lemma InjectIdempotent(columns: seq<Column>, isNew: bool)
    ensures InjectNameColumn(InjectNameColumn(columns, isNew), isNew) == InjectNameColumn(columns, isNew)
  {
  }

  // ---------------------------------------------------------------------------
  // Saving

  /** What a save checks: the column invariant and every row's data. */
  predicate TableValid(t: Table)
  {
    HasNameColumn(t.columns) && forall r :: r in t.rows ==> RowDataValid(t.columns, r.data)
  }

  datatype SaveResult = Saved(table: Table) | Rejected(error: ValidationError)

  /** A save: the pre-save hook runs first (only for a new document), then the
      columns validator and the row validator on every row. A rejected save
      produces no table. */
  function Save(t: Table, isNew: bool): (r: SaveResult)
    ensures r.Saved? ==> r.table == t.(columns := InjectNameColumn(t.columns, isNew))
    ensures r.Saved? <==> TableValid(t.(columns := InjectNameColumn(t.columns, isNew)))
    ensures r.Saved? ==> TableValid(r.table)
    ensures !isNew ==> (r.Saved? <==> TableValid(t))
  {
    var columns := InjectNameColumn(t.columns, isNew);
    if !ColumnsValidator(columns) then Rejected(MissingNameColumn)
    else if !AllRowsValid(columns, t.rows) then Rejected(RowDataMismatch)
    else
      var saved := t.(columns := columns);
      assert forall r :: r in saved.rows ==> RowDataValid(columns, r.data) by {
        forall r | r in saved.rows ensures RowDataValid(columns, r.data) {
          var i :| 0 <= i < |t.rows| && t.rows[i] == r;
        }
      }
      Saved(saved)
  }
}
