/** The stored data: tables and their rows, schemas, and the immutable database value
    that every statement replaces with an updated copy. */
module Catalog {
  import opened Values

  /** A stored row (`AbstractRow`): column name to value. */
  type Record = map<string, Value>

  /** A table: where it lives, its column names in declaration order, and its rows. */
  datatype Table = Table(schema: string, relname: string, columns: seq<string>, rows: seq<Record>)

  /** The built-in functions; `pg_catalog` holds `length`, which is Python's `len`. */
  datatype Function = Length

  datatype Schema = Schema(tables: map<string, Table>, functions: map<string, Function>)

  datatype Database = Database(schemas: map<string, Schema>)

  // ---------------------------------------------------------------------------
  // Tables and rows

  /** `Table.insert`: the same table with `rows` appended after the existing rows. */
  function Insert(t: Table, rows: seq<Record>): (r: Table)
    ensures r.schema == t.schema && r.relname == t.relname && r.columns == t.columns
    ensures |r.rows| == |t.rows| + |rows|
    ensures r.rows[..|t.rows|] == t.rows && r.rows[|t.rows|..] == rows
  {
    t.(rows := t.rows + rows)
  }

  /** Inserting in two statements stores the same rows, in the same order, as inserting once. */
  lemma InsertTwice(t: Table, a: seq<Record>, b: seq<Record>)
    ensures Insert(Insert(t, a), b) == Insert(t, a + b)
  {
    assert t.rows + a + b == t.rows + (a + b);
  }

  /** A freshly created table (`Table(schema, relname, rowtype)` with no rows). */
  function NewTable(schema: string, relname: string, columns: seq<string>): (t: Table)
    ensures t.rows == [] && t.columns == columns
  {
    Table(schema, relname, columns, [])
  }

  /** `dict(zip(names, values))`: pairs up to the shorter list; a name given twice keeps
      its later value. */
  function BuildRow(names: seq<string>, values: seq<Value>): (r: Record)
    ensures forall k :: k in r <==> exists i :: 0 <= i < |names| && i < |values| && names[i] == k
  {
    if names == [] || values == [] then map[]
    else map[names[0] := values[0]] + BuildRow(names[1..], values[1..])
  }

  /** With distinct names every name gets the value at its own position. */
  lemma {:induction false} BuildRowDistinct(names: seq<string>, values: seq<Value>, i: nat)
    requires |names| <= |values| && i < |names|
    requires forall j, k :: 0 <= j < k < |names| ==> names[j] != names[k]
    ensures names[i] in BuildRow(names, values) && BuildRow(names, values)[names[i]] == values[i]
  {
    if i > 0 {
      BuildRowDistinct(names[1..], values[1..], i - 1);
    }
  }

  /** Each pair overrides what earlier pairs stored under its name. */
  lemma {:induction false} BuildRowSnoc(names: seq<string>, values: seq<Value>, n: string, v: Value)
    requires |names| == |values|
    ensures BuildRow(names + [n], values + [v]) == BuildRow(names, values)[n := v]
  {
    if names == [] {
    } else {
      assert (names + [n])[1..] == names[1..] + [n];
      assert (values + [v])[1..] == values[1..] + [v];
      BuildRowSnoc(names[1..], values[1..], n, v);
    }
  }

  /** The error `_address_missing` means to raise for a missing column. */
  function MissingColumnError(column: string): Error {
    NotNullViolation(column)
  }

  /** The error `_address_missing` raises as written: building the message joins the row's
      values with `', '.join`, which raises TypeError unless every value is a string. */
  function MissingColumnErrorAsWritten(column: string, row: Record): (e: Error)
    ensures e == MissingColumnError(column) <==> forall k :: k in row ==> row[k].Text?
  {
    if forall k :: k in row ==> row[k].Text? then NotNullViolation(column) else TypeError
  }

  /** As written, a row that misses a column and holds a number fails with TypeError instead
      of a not-null violation. */
  lemma MissingColumnWithNumberRaisesTypeError()
    ensures MissingColumnErrorAsWritten("bang", map["baz" := Int(1)]) == TypeError
    ensures MissingColumnError("bang") == NotNullViolation("bang")
  {
    assert map["baz" := Int(1)]["baz"] == Int(1);
  }

  /** `AbstractRow.__init__` for a table with `columns`: first each declared column in order
      must be present (no defaults exist), then no other key may be present. */
  method CheckRow(columns: seq<string>, row: Record) returns (r: Result<()>)
    ensures r.Ok? <==> (forall i :: 0 <= i < |columns| ==> columns[i] in row) && (forall k :: k in row ==> k in columns)
    ensures r.Err? && r.error.NotNullViolation? ==>
      exists i :: 0 <= i < |columns| && r.error == MissingColumnError(columns[i]) && columns[i] !in row
        && forall j :: 0 <= j < i ==> columns[j] in row
    ensures r.Err? && !r.error.NotNullViolation? ==>
      (forall i :: 0 <= i < |columns| ==> columns[i] in row)
      && r.error.UndefinedColumn? && r.error.name in row && r.error.name !in columns
  {
    // _address_missing
    var i := 0;
    while i < |columns|
      invariant 0 <= i <= |columns|
      invariant forall j :: 0 <= j < i ==> columns[j] in row
    {
      if columns[i] !in row {
        return Err(MissingColumnError(columns[i]));
      }
      i := i + 1;
    }
    // _address_extra
    var extra := set k | k in row && k !in columns;
    assert forall k :: k in row && k !in columns ==> k in extra;
    if extra != {} {
      var k :| k in extra;
      return Err(UndefinedColumn(k));
    }
    return Ok(());
  }

  /** A row has exactly the table's columns. */
  predicate Fits(columns: seq<string>, row: Record) {
    (forall i :: 0 <= i < |columns| ==> columns[i] in row) && (forall k :: k in row ==> k in columns)
  }

  /** A row built from every column of the table, each with a value, fits the table. */
  lemma {:induction false} FullRowFits(columns: seq<string>, values: seq<Value>)
    requires |values| == |columns|
    ensures Fits(columns, BuildRow(columns, values))
  {
    var row := BuildRow(columns, values);
    forall i | 0 <= i < |columns| ensures columns[i] in row {
      assert 0 <= i < |columns| && i < |values| && columns[i] == columns[i];
    }
    forall k | k in row ensures k in columns {
      var j :| 0 <= j < |columns| && j < |values| && columns[j] == k;
    }
  }

  // ---------------------------------------------------------------------------
  // Database

  const Public := "public"
  const PgCatalog := "pg_catalog"

  /** `create_pg_catalog()`. */
  function PgCatalogSchema(): Schema {
    Schema(map[], map["length" := Length])
  }

  /** The database a new connection starts with: an empty `public` and `pg_catalog`. */
  function InitialDatabase(): (db: Database)
    ensures Valid(db)
    ensures db.schemas.Keys == {Public, PgCatalog}
  {
    Database(map[Public := Schema(map[], map[]), PgCatalog := PgCatalogSchema()])
  }

  /** What every database the emulator builds satisfies: both default schemas exist and each
      table is stored under its own schema and name. */
  predicate Valid(db: Database) {
    && Public in db.schemas && PgCatalog in db.schemas
    && forall s, r :: s in db.schemas && r in db.schemas[s].tables ==>
         db.schemas[s].tables[r].schema == s && db.schemas[s].tables[r].relname == r
  }

  /** `Database._get_table`. Without a schema only `public` is searched (the source's search
      path); a missing `public` is a KeyError. With a schema, a missing schema or table is
      reported under the qualified name. */
  function GetTable(db: Database, relname: string, schemaName: Option<string>): Result<Table> {
    match schemaName
    case None =>
      if Public !in db.schemas then Err(KeyError)
      else if relname in db.schemas[Public].tables then Ok(db.schemas[Public].tables[relname])
      else Err(UndefinedTable(relname))
    case Some(s) =>
      if s in db.schemas && relname in db.schemas[s].tables then Ok(db.schemas[s].tables[relname])
      else Err(UndefinedTable(s + "." + relname))
  }

  /** A table is found exactly when it is stored, and it is the stored one; unqualified
      names resolve as if qualified with `public`. */
  lemma GetTableFinds(db: Database, relname: string, schemaName: Option<string>)
    requires Valid(db)
    ensures var s := if schemaName.Some? then schemaName.value else Public;
      && (GetTable(db, relname, schemaName).Ok? <==> s in db.schemas && relname in db.schemas[s].tables)
      && (GetTable(db, relname, schemaName).Ok? ==>
            GetTable(db, relname, schemaName).value == db.schemas[s].tables[relname]
            && GetTable(db, relname, schemaName).value.schema == s
            && GetTable(db, relname, schemaName).value.relname == relname)
      && (GetTable(db, relname, schemaName).Err? ==>
            GetTable(db, relname, schemaName).error
              == UndefinedTable(if schemaName.Some? then s + "." + relname else relname))
  {
  }

  /** `Database._update_table` (also `create_table` and `update_table`): stores `t` under its
      schema and name, replacing any table there; a missing schema is created empty. */
  function UpdateTable(db: Database, t: Table): Database {
    var schema := if t.schema in db.schemas then db.schemas[t.schema] else Schema(map[], map[]);
    Database(db.schemas[t.schema := schema.(tables := schema.tables[t.relname := t])])
  }

  /** `create_table` performs no existence check: it is `_update_table`. */
  function CreateTable(db: Database, t: Table): (r: Database)
    ensures r == UpdateTable(db, t)
  {
    UpdateTable(db, t)
  }

  /** After an update the table is found where it was stored, every other table is as it
      was, and the database stays valid. */
  lemma UpdateThenGet(db: Database, t: Table, relname: string, schemaName: string)
    requires Valid(db)
    ensures Valid(UpdateTable(db, t))
    ensures GetTable(UpdateTable(db, t), t.relname, Some(t.schema)) == Ok(t)
    ensures (schemaName, relname) != (t.schema, t.relname) ==>
      GetTable(UpdateTable(db, t), relname, Some(schemaName)).Ok? ==> GetTable(db, relname, Some(schemaName)).Ok?
    ensures (schemaName, relname) != (t.schema, t.relname) && GetTable(db, relname, Some(schemaName)).Ok? ==>
      GetTable(UpdateTable(db, t), relname, Some(schemaName)) == GetTable(db, relname, Some(schemaName))
  {
  }

  /** Updating a table does not change which functions resolve. */
  lemma UpdateKeepsFunctions(db: Database, t: Table, name: string, schemaName: Option<string>)
    requires Valid(db)
    ensures GetFunction(UpdateTable(db, t), name, schemaName).Ok? <==> GetFunction(db, name, schemaName).Ok?
    ensures GetFunction(db, name, schemaName).Ok? ==>
      GetFunction(UpdateTable(db, t), name, schemaName) == GetFunction(db, name, schemaName)
  {
  }

  /** `Database._get_function`. With a schema: the schema must exist, then the function in it.
      Without one only `pg_catalog` is searched. */
  function GetFunction(db: Database, name: string, schemaName: Option<string>): Result<Function> {
    match schemaName
    case Some(s) =>
      if s !in db.schemas then Err(InvalidSchemaName(s))
      else if name !in db.schemas[s].functions then Err(UndefinedFunction(s + "." + name))
      else Ok(db.schemas[s].functions[name])
    case None =>
      if PgCatalog !in db.schemas then Err(KeyError)
      else if name !in db.schemas[PgCatalog].functions then Err(UndefinedFunction(name))
      else Ok(db.schemas[PgCatalog].functions[name])
  }

  /** A function resolves exactly when it is stored in the schema searched, and an unqualified
      name resolves as if qualified with `pg_catalog`. */
  lemma GetFunctionFinds(db: Database, name: string, schemaName: Option<string>)
    requires Valid(db)
    ensures var s := if schemaName.Some? then schemaName.value else PgCatalog;
      && (GetFunction(db, name, schemaName).Ok? <==> s in db.schemas && name in db.schemas[s].functions)
      && (GetFunction(db, name, schemaName).Ok? ==> GetFunction(db, name, schemaName) == GetFunction(db, name, Some(PgCatalog)) || schemaName.Some?)
      && (GetFunction(db, name, schemaName).Err? ==>
            if s in db.schemas then GetFunction(db, name, schemaName).error.UndefinedFunction?
            else GetFunction(db, name, schemaName) == Err(InvalidSchemaName(s)))
  {
  }

  /** In a new database `length` resolves unqualified and in `pg_catalog` only; an unknown
      schema is reported as such. */
  lemma InitialFunctions(unknown: string)
    requires unknown != Public && unknown != PgCatalog
    ensures GetFunction(InitialDatabase(), "length", None) == Ok(Length)
    ensures GetFunction(InitialDatabase(), "length", Some(PgCatalog)) == Ok(Length)
    ensures GetFunction(InitialDatabase(), "length", Some(Public)).error.UndefinedFunction?
    ensures GetFunction(InitialDatabase(), "nope_fn", Some(unknown)) == Err(InvalidSchemaName(unknown))
  {
  }

  /** Calling a built-in: `len` takes exactly one argument, which must be a string. */
  function Apply(f: Function, args: seq<Value>): (r: Result<Value>)
    ensures r.Ok? <==> |args| == 1 && args[0].Text?
    ensures r.Ok? ==> r.value == Int(|args[0].s|)
  {
    match f
    case Length => if |args| == 1 && args[0].Text? then Ok(Int(|args[0].s|)) else Err(TypeError)
  }
}
