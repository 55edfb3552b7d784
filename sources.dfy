/** The FROM-clause entries of one SELECT (`QueryTables`): which tables are in scope, under
    which alias, and how a column reference is resolved to one of them. */
module Sources {
  import opened Values
  import opened Catalog

  /** A FROM entry as it keys the joined rows: the table and the alias it was added under. */
  datatype Source = Source(table: Table, alias: Option<string>)

  /** What a `QueryTables` holds: aliased tables by alias, unaliased tables by relation name
      and schema (the source's `{relname: {schema: table}}`). */
  datatype Entries = Entries(aliases: map<string, Table>, tables: map<(string, string), Table>)

  function EmptyEntries(): Entries {
    Entries(map[], map[])
  }

  /** The relation names of the unaliased tables. */
  function Relnames(tables: map<(string, string), Table>): set<string> {
    set k | k in tables :: k.0
  }

  /** The schemas holding an unaliased table called `relname`. */
  function SchemasOf(tables: map<(string, string), Table>, relname: string): set<string> {
    set k | k in tables && k.0 == relname :: k.1
  }

  /** An alias and a relation name never coincide, no alias is empty, and every unaliased
      table is stored under its own name and schema. */
  predicate WellFormed(e: Entries) {
    && "" !in e.aliases
    && e.aliases.Keys !! Relnames(e.tables)
    && forall k :: k in e.tables ==> e.tables[k].relname == k.0 && e.tables[k].schema == k.1
  }

  /** Python's `if alias:` treats the empty alias as no alias. */
  function EffectiveAlias(alias: Option<string>): (a: Option<string>)
    ensures a.Some? <==> alias.Some? && alias.value != ""
    ensures a.Some? ==> a == alias
  {
    if alias.Some? && alias.value != "" then alias else None
  }

  /** `QueryTables.add` on the contents: an alias may not repeat an alias or a relation name;
      an unaliased table may not repeat an alias or a table of the same schema and name. */
  function AddEntry(e: Entries, table: Table, alias: Option<string>): Result<Entries> {
    match EffectiveAlias(alias)
    case Some(a) =>
      if a in e.aliases || a in Relnames(e.tables) then Err(DuplicateAlias(a))
      else Ok(e.(aliases := e.aliases[a := table]))
    case None =>
      if table.relname in e.aliases || (table.relname, table.schema) in e.tables then Err(DuplicateAlias(table.relname))
      else Ok(e.(tables := e.tables[(table.relname, table.schema) := table]))
  }

  /** `all_tables`: every entry with its alias (none for unaliased tables). */
  function AllTables(e: Entries): set<Source> {
    (set a | a in e.aliases :: Source(e.aliases[a], Some(a)))
      + (set k | k in e.tables :: Source(e.tables[k], None))
  }

  /** Adding keeps the contents well formed and adds exactly one entry. */
  lemma AddEntryAddsOne(e: Entries, table: Table, alias: Option<string>)
    requires WellFormed(e) && AddEntry(e, table, alias).Ok?
    ensures WellFormed(AddEntry(e, table, alias).value)
    ensures AllTables(AddEntry(e, table, alias).value) == AllTables(e) + {Source(table, EffectiveAlias(alias))}
  {
    var e' := AddEntry(e, table, alias).value;
    match EffectiveAlias(alias)
    case Some(a) =>
      assert Relnames(e'.tables) == Relnames(e.tables);
      assert Source(table, Some(a)) in AllTables(e') by {
        assert a in e'.aliases && e'.aliases[a] == table;
      }
    case None =>
      var k := (table.relname, table.schema);
      assert Relnames(e'.tables) == Relnames(e.tables) + {table.relname};
      assert Source(table, None) in AllTables(e') by {
        assert k in e'.tables && e'.tables[k] == table;
      }
  }

  /** The same table twice without an alias is rejected; with an alias the second is fine. */
  lemma AddingTableTwice(table: Table, alias: string)
    requires alias != "" && alias != table.relname
    ensures AddEntry(EmptyEntries(), table, None).Ok?
    ensures AddEntry(AddEntry(EmptyEntries(), table, None).value, table, None) == Err(DuplicateAlias(table.relname))
    ensures AddEntry(AddEntry(EmptyEntries(), table, None).value, table, Some(alias)).Ok?
  {
    var e := AddEntry(EmptyEntries(), table, None).value;
    assert Relnames(e.tables) == {table.relname};
  }

  lemma SingletonUnique<T>(s: set<T>)
    requires |s| == 1
    ensures forall x, y :: x in s && y in s ==> x == y
  {
    var x :| x in s;
    assert s - {x} == {} by { assert |s - {x}| == 0; }
  }

  lemma SchemasOfRelnames(tables: map<(string, string), Table>, relname: string)
    ensures relname in Relnames(tables) <==> SchemasOf(tables, relname) != {}
  {
    if relname in Relnames(tables) {
      var k :| k in tables && k.0 == relname;
      assert k.1 in SchemasOf(tables, relname);
    }
  }

  /** `_get_source_by_table`: an alias first, then an unaliased table of that name, which
      must be in one schema only. */
  function SourceByTable(e: Entries, name: string): Result<Source> {
    if name in e.aliases then Ok(Source(e.aliases[name], Some(name)))
    else if name in Relnames(e.tables) then
      var schemas := SchemasOf(e.tables, name);
      if |schemas| > 1 then Err(AmbiguousTable(name))
      else
        SchemasOfRelnames(e.tables, name);
        SingletonUnique(schemas);
        var s :| s in schemas;
        Ok(Source(e.tables[(name, s)], None))
    else Err(MissingFromEntry(name))
  }

  /** `_get_source_by_qualified_table`: only unaliased tables are found this way. */
  function SourceByQualifiedTable(e: Entries, schemaName: string, name: string): Result<Source> {
    if (name, schemaName) in e.tables then Ok(Source(e.tables[(name, schemaName)], None))
    else Err(MissingFromEntry(name))
  }

  /** A table reference resolves to an entry that is in scope under that name. */
  lemma SourceByTableFinds(e: Entries, name: string)
    requires WellFormed(e)
    ensures SourceByTable(e, name).Ok? ==> SourceByTable(e, name).value in AllTables(e)
    ensures SourceByTable(e, name).Ok? ==>
      SourceByTable(e, name).value.alias == Some(name)
      || (SourceByTable(e, name).value.alias.None? && SourceByTable(e, name).value.table.relname == name)
    ensures SourceByTable(e, name).Err? <==> (name !in e.aliases && |SchemasOf(e.tables, name)| != 1)
  {
    SchemasOfRelnames(e.tables, name);
    if name !in e.aliases && name in Relnames(e.tables) && |SchemasOf(e.tables, name)| <= 1 {
      SingletonUnique(SchemasOf(e.tables, name));
      var s :| s in SchemasOf(e.tables, name);
      assert (name, s) in e.tables;
    }
  }

  /** After a table is added under an alias, the alias names it; after an unaliased table is
      added, its qualified name does. */
  lemma AddedIsFound(e: Entries, table: Table, alias: Option<string>)
    requires WellFormed(e) && AddEntry(e, table, alias).Ok?
    ensures EffectiveAlias(alias).Some? ==>
      SourceByTable(AddEntry(e, table, alias).value, alias.value) == Ok(Source(table, alias))
    ensures EffectiveAlias(alias).None? ==>
      SourceByQualifiedTable(AddEntry(e, table, alias).value, table.schema, table.relname) == Ok(Source(table, None))
  {
  }

  /** Two schemas' tables of the same name, both unaliased, make the bare name ambiguous. */
  lemma SameNameTwoSchemasIsAmbiguous(a: Table, b: Table)
    requires a.relname == b.relname && a.schema != b.schema
    ensures var e1 := AddEntry(EmptyEntries(), a, None).value;
      && AddEntry(e1, b, None).Ok?
      && SourceByTable(AddEntry(e1, b, None).value, a.relname) == Err(AmbiguousTable(a.relname))
  {
    var e1 := AddEntry(EmptyEntries(), a, None).value;
    var e2 := AddEntry(e1, b, None).value;
    assert Relnames(e1.tables) == {a.relname};
    assert a.relname in Relnames(e2.tables) by { assert (a.relname, a.schema) in e2.tables; }
    assert {a.schema, b.schema} <= SchemasOf(e2.tables, a.relname) by {
      assert (a.relname, a.schema) in e2.tables && (b.relname, b.schema) in e2.tables;
    }
    SubsetCard({a.schema, b.schema}, SchemasOf(e2.tables, a.relname));
  }

  lemma SubsetCard<T>(a: set<T>, b: set<T>)
    requires a <= b
    ensures |a| <= |b|
  {
    assert b == a + (b - a);
    assert a * (b - a) == {};
  }

  // ---------------------------------------------------------------------------
  // Merging

  /** Nothing of `e2` clashes with `e1` the way `add` checks. */
  predicate Compatible(e1: Entries, e2: Entries) {
    && e1.aliases.Keys !! e2.aliases.Keys
    && e1.aliases.Keys !! Relnames(e2.tables)
    && Relnames(e1.tables) !! e2.aliases.Keys
    && e1.tables.Keys !! e2.tables.Keys
  }

  function Union(e1: Entries, e2: Entries): Entries {
    Entries(e1.aliases + e2.aliases, e1.tables + e2.tables)
  }

  function RelnamesUnion(t1: map<(string, string), Table>, t2: map<(string, string), Table>): (r: set<string>)
    ensures r == Relnames(t1 + t2)
    ensures r == Relnames(t1) + Relnames(t2)
  {
    forall n | n in Relnames(t1 + t2) ensures n in Relnames(t1) + Relnames(t2) {
      var k :| k in t1 + t2 && k.0 == n;
      if k in t2 { assert n in Relnames(t2); } else { assert n in Relnames(t1); }
    }
    forall n | n in Relnames(t1) + Relnames(t2) ensures n in Relnames(t1 + t2) {
      if n in Relnames(t1) { var k :| k in t1 && k.0 == n; assert k in t1 + t2; }
      else { var k :| k in t2 && k.0 == n; assert k in t1 + t2; }
    }
    Relnames(t1 + t2)
  }

  /** Merged contents are well formed and hold exactly the entries of both sides; the order
      of the merge does not matter. */
  lemma UnionOfCompatible(e1: Entries, e2: Entries)
    requires WellFormed(e1) && WellFormed(e2) && Compatible(e1, e2)
    ensures WellFormed(Union(e1, e2))
    ensures AllTables(Union(e1, e2)) == AllTables(e1) + AllTables(e2)
    ensures Compatible(e2, e1) && Union(e1, e2) == Union(e2, e1)
  {
    var _ := RelnamesUnion(e1.tables, e2.tables);
    UnionEntriesFromSides(e1, e2);
    SidesEntriesInUnion(e1, e2);
    assert e1.aliases + e2.aliases == e2.aliases + e1.aliases;
    assert e1.tables + e2.tables == e2.tables + e1.tables;
  }

  lemma UnionEntriesFromSides(e1: Entries, e2: Entries)
    ensures AllTables(Union(e1, e2)) <= AllTables(e1) + AllTables(e2)
  {
    var u := Union(e1, e2);
    forall s | s in AllTables(u) ensures s in AllTables(e1) + AllTables(e2) {
      if s.alias.Some? {
        var a :| a in u.aliases && s == Source(u.aliases[a], Some(a));
        if a in e2.aliases { assert s in AllTables(e2); } else { assert s in AllTables(e1); }
      } else {
        var k :| k in u.tables && s == Source(u.tables[k], None);
        if k in e2.tables { assert s in AllTables(e2); } else { assert s in AllTables(e1); }
      }
    }
  }

  lemma SidesEntriesInUnion(e1: Entries, e2: Entries)
    requires e1.aliases.Keys !! e2.aliases.Keys && e1.tables.Keys !! e2.tables.Keys
    ensures AllTables(e1) + AllTables(e2) <= AllTables(Union(e1, e2))
  {
    var u := Union(e1, e2);
    forall s | s in AllTables(e1) + AllTables(e2) ensures s in AllTables(u) {
      if s in AllTables(e1) && s.alias.Some? {
        var a :| a in e1.aliases && s == Source(e1.aliases[a], Some(a));
        assert a in u.aliases && u.aliases[a] == e1.aliases[a];
      } else if s in AllTables(e1) {
        var k :| k in e1.tables && s == Source(e1.tables[k], None);
        assert k in u.tables && u.tables[k] == e1.tables[k];
      } else if s.alias.Some? {
        var a :| a in e2.aliases && s == Source(e2.aliases[a], Some(a));
        assert a in u.aliases;
      } else {
        var k :| k in e2.tables && s == Source(e2.tables[k], None);
        assert k in u.tables;
      }
    }
  }

  /** The aliases of `m` already handled. */
  function Restrict<K, V>(m: map<K, V>, done: set<K>): (r: map<K, V>)
    ensures r.Keys == m.Keys * done
    ensures forall k :: k in r ==> r[k] == m[k]
  {
    map k | k in m && k in done :: m[k]
  }

  /** The first loop of `merge`: each aliased entry of `second` (map `m`) is `add`ed to the
      clone of `first`. By `AliasStep`, that `add` raises exactly when the alias is already an
      alias or a relation name of `first`, so each alias is checked against `e1`. */
  method CheckAliases(e1: Entries, m: map<string, Table>) returns (r: Result<()>)
    ensures r.Ok? <==> m.Keys !! e1.aliases.Keys && m.Keys !! Relnames(e1.tables)
    ensures r.Err? ==>
      && r.error.DuplicateAlias? && r.error.name in m
      && (r.error.name in e1.aliases || r.error.name in Relnames(e1.tables))
  {
    var names := Relnames(e1.tables);
    var done: set<string> := {};
    while done != m.Keys
      invariant done <= m.Keys
      invariant done !! e1.aliases.Keys && done !! names
      decreases |m.Keys - done|
    {
      var a :| a in m.Keys - done;
      if a in e1.aliases || a in names {
        return Err(DuplicateAlias(a));
      }
      done := done + {a};
    }
    return Ok(());
  }

  /** The second loop of `merge`: each unaliased entry of `second` (map `m`) is `add`ed. By
      `TableStep`, that `add` raises exactly when `first` has the relation name as an alias or
      holds a table of the same name and schema. */
  method CheckTables(e1: Entries, m: map<(string, string), Table>) returns (r: Result<()>)
    ensures r.Ok? <==> m.Keys !! e1.tables.Keys && forall k :: k in m ==> k.0 !in e1.aliases
    ensures r.Err? ==>
      && r.error.DuplicateAlias?
      && exists k :: k in m && r.error.name == k.0 && (k.0 in e1.aliases || k in e1.tables)
  {
    var done: set<(string, string)> := {};
    while done != m.Keys
      invariant done <= m.Keys
      invariant done !! e1.tables.Keys
      invariant forall k :: k in done ==> k.0 !in e1.aliases
      decreases |m.Keys - done|
    {
      var k :| k in m.Keys - done;
      if k.0 in e1.aliases || k in e1.tables {
        return Err(DuplicateAlias(k.0));
      }
      done := done + {k};
    }
    return Ok(());
  }

  // ---------------------------------------------------------------------------
  // The mutable object

  class QueryTables {
    var aliases: map<string, Table>
    var tables: map<(string, string), Table>

    function State(): Entries
      reads this
    {
      Entries(aliases, tables)
    }

    predicate Valid()
      reads this
    {
      WellFormed(State())
    }

    /** `QueryTables()`: nothing in scope. */
    constructor ()
      ensures State() == EmptyEntries() && Valid()
    {
      aliases := map[];
      tables := map[];
    }

    /** `_clone`: a new object with copies of both dictionaries. */
    method Clone() returns (r: QueryTables)
      ensures fresh(r) && r.State() == State()
    {
      r := new QueryTables();
      r.aliases := aliases;
      r.tables := tables;
    }

    /** `add(table=, alias=)`: checks for a clash before changing anything. */
    method Add(table: Table, alias: Option<string>) returns (r: Result<()>)
      requires Valid()
      modifies this
      ensures Valid()
      ensures r.Ok? <==> AddEntry(old(State()), table, alias).Ok?
      ensures r.Ok? ==> State() == AddEntry(old(State()), table, alias).value
      ensures r.Err? ==> r.error == AddEntry(old(State()), table, alias).error && State() == old(State())
    {
      ghost var before := State();
      if AddEntry(before, table, alias).Ok? {
        AddEntryAddsOne(before, table, alias);
      }
      if alias.Some? && alias.value != "" {
        var a := alias.value;
        if a in aliases || a in Relnames(tables) {
          return Err(DuplicateAlias(a));
        }
        aliases := aliases[a := table];
      } else {
        if table.relname in aliases || (table.relname, table.schema) in tables {
          return Err(DuplicateAlias(table.relname));
        }
        tables := tables[(table.relname, table.schema) := table];
      }
      return Ok(());
    }

    /** `QueryTables.merge(first, second)`: a clone of `first` to which every entry of `second`
        is `add`ed, aliased ones first. It fails exactly when an entry of `second` clashes with
        one of `first`, naming that entry; otherwise the result holds the entries of both. (On
        failure Python discards the partly filled clone, so the clashes are checked before the
        new object is filled.) */
    static method Merge(first: QueryTables, second: QueryTables) returns (r: Result<QueryTables>)
      requires first.Valid() && second.Valid()
      ensures r.Ok? <==> Compatible(first.State(), second.State())
      ensures r.Ok? ==> fresh(r.value) && r.value.State() == Union(first.State(), second.State())
      ensures r.Err? ==>
        && r.error.DuplicateAlias?
        && (r.error.name in second.aliases || r.error.name in Relnames(second.tables))
    {
      var e1, e2 := first.State(), second.State();
      CompatibleByEntries(e1, e2);
      var aliasesOk := CheckAliases(e1, e2.aliases);
      if aliasesOk.Err? {
        return Err(aliasesOk.error);
      }
      var tablesOk := CheckTables(e1, e2.tables);
      if tablesOk.Err? {
        assert tablesOk.error.name in Relnames(e2.tables);
        return Err(tablesOk.error);
      }
      var merged := new QueryTables();
      merged.aliases, merged.tables := e1.aliases + e2.aliases, e1.tables + e2.tables;
      return Ok(merged);
    }

    /** `_get_source_by_column`: the one entry whose table has the column. A second match
        is an ambiguity, none an undefined column. */
    method SourceByColumn(column: string) returns (r: Result<Source>)
      ensures r.Ok? <==> |ColumnMatches(State(), column)| == 1
      ensures r.Ok? ==> ColumnMatches(State(), column) == {r.value}
      ensures r.Err? ==>
        || (r.error == AmbiguousColumn(column) && |ColumnMatches(State(), column)| > 1)
        || (r.error == UndefinedColumn(column) && ColumnMatches(State(), column) == {})
    {
      r := FindColumn(AllTables(State()), column);
    }

    /** `get_column_source(column, table, schema)`: an unqualified column is looked up in every
        entry, `table.column` by table reference, `schema.table.column` among unaliased tables. */
    method GetColumnSource(column: string, tableName: Option<string>, schemaName: Option<string>) returns (r: Result<Source>)
      ensures EffectiveAlias(tableName).None? ==> (r.Ok? <==> |ColumnMatches(State(), column)| == 1)
      ensures EffectiveAlias(tableName).None? && r.Ok? ==> ColumnMatches(State(), column) == {r.value}
      ensures EffectiveAlias(tableName).Some? && EffectiveAlias(schemaName).None? ==>
        r == SourceByTable(State(), tableName.value)
      ensures EffectiveAlias(tableName).Some? && EffectiveAlias(schemaName).Some? ==>
        r == SourceByQualifiedTable(State(), schemaName.value, tableName.value)
      ensures r == ColumnSourceOf(State(), column, tableName, schemaName)
    {
      if EffectiveAlias(tableName).None? {
        r := SourceByColumn(column);
      } else if EffectiveAlias(schemaName).None? {
        r := SourceByTable(State(), tableName.value);
      } else {
        r := SourceByQualifiedTable(State(), schemaName.value, tableName.value);
      }
    }
  }

  /** What `get_column_source` resolves to, as a function of the entries: the unique entry
      having an unqualified column, otherwise the table reference's entry. */
  ghost function ColumnSourceOf(e: Entries, column: string, tableName: Option<string>, schemaName: Option<string>): Result<Source> {
    if EffectiveAlias(tableName).None? then
      var m := ColumnMatches(e, column);
      if |m| == 1 then var s :| s in m; Ok(s)
      else if |m| > 1 then Err(AmbiguousColumn(column))
      else Err(UndefinedColumn(column))
    else if EffectiveAlias(schemaName).None? then SourceByTable(e, tableName.value)
    else SourceByQualifiedTable(e, schemaName.value, tableName.value)
  }

  /** The loop of `_get_source_by_column` over the entries `all` of `all_tables()`: it
      remembers the first entry having the column and raises at a second one. */
  method FindColumn(all: set<Source>, column: string) returns (r: Result<Source>)
    ensures r.Ok? <==> |Matching(all, column)| == 1
    ensures r.Ok? ==> Matching(all, column) == {r.value}
    ensures r.Err? ==>
      || (r.error == AmbiguousColumn(column) && |Matching(all, column)| > 1)
      || (r.error == UndefinedColumn(column) && Matching(all, column) == {})
  {
    var found: Option<Source> := None;
    var pending := all;
    ghost var seen: set<Source> := {};
    while pending != {}
      invariant pending + seen == all && pending !! seen
      invariant Matching(seen, column) == OptionSet(found)
      decreases |pending|
    {
      var s :| s in pending;
      ScanStep(pending, seen, s, column, found);
      if column in s.table.columns {
        if found.Some? {
          MatchingSub(seen + {s}, all, column);
          SubsetCard({found.value, s}, Matching(all, column));
          return Err(AmbiguousColumn(column));
        }
        found := Some(s);
      }
      pending := pending - {s};
      seen := seen + {s};
    }
    assert seen == all;
    if found.None? {
      return Err(UndefinedColumn(column));
    }
    return Ok(found.value);
  }

  /** Moving one entry from `pending` to `seen` in the loop of `FindColumn`. */
  lemma ScanStep(pending: set<Source>, seen: set<Source>, s: Source, column: string, found: Option<Source>)
    requires s in pending && pending !! seen
    requires Matching(seen, column) == OptionSet(found)
    ensures (pending - {s}) + (seen + {s}) == pending + seen && (pending - {s}) !! (seen + {s})
    ensures column in s.table.columns && found.Some? ==> {found.value, s} <= Matching(seen + {s}, column)
    ensures column in s.table.columns && found.None? ==> Matching(seen + {s}, column) == OptionSet(Some(s))
    ensures column !in s.table.columns ==> Matching(seen + {s}, column) == OptionSet(found)
  {
    MatchingAdd(seen, s, column);
  }

  /** The entry an `Option` holds, as a set. */
  function OptionSet<T>(o: Option<T>): set<T> {
    if o.Some? then {o.value} else {}
  }

  /** The sources among `ss` whose table has a column of that name. */
  function Matching(ss: set<Source>, column: string): set<Source> {
    set s | s in ss && column in s.table.columns
  }

  /** The entries in scope whose table has a column of that name. */
  function ColumnMatches(e: Entries, column: string): set<Source> {
    Matching(AllTables(e), column)
  }

  lemma MatchingAdd(ss: set<Source>, s: Source, column: string)
    ensures Matching(ss + {s}, column) == Matching(ss, column) + (if column in s.table.columns then {s} else {})
  {
  }

  lemma MatchingSub(ss: set<Source>, tt: set<Source>, column: string)
    requires ss <= tt
    ensures Matching(ss, column) <= Matching(tt, column)
  {
  }

  /** `Compatible` checked entry by entry, as `add` checks them one at a time. */
  lemma CompatibleByEntries(e1: Entries, e2: Entries)
    ensures Compatible(e1, e2) <==>
      && (forall a :: a in e2.aliases ==> a !in e1.aliases && a !in Relnames(e1.tables))
      && e2.tables.Keys !! e1.tables.Keys && (forall k :: k in e2.tables ==> k.0 !in e1.aliases)
  {
    if !Compatible(e1, e2) {
      if n :| n in e1.aliases.Keys && n in Relnames(e2.tables) {
        var k :| k in e2.tables && k.0 == n;
      }
      if n :| n in Relnames(e1.tables) && n in e2.aliases.Keys {
      }
    }
  }

  /** One step of the alias loop of `merge`. */
  lemma AliasStep(e1: Entries, m: map<string, Table>, done: set<string>, a: string)
    requires a in m && a !in done && "" !in m
    ensures var cur := Entries(e1.aliases + Restrict(m, done), e1.tables);
      && (AddEntry(cur, m[a], Some(a)).Ok? <==> a !in e1.aliases.Keys && a !in Relnames(e1.tables))
      && (AddEntry(cur, m[a], Some(a)).Ok? ==>
            AddEntry(cur, m[a], Some(a)).value == Entries(e1.aliases + Restrict(m, done + {a}), e1.tables))
      && (AddEntry(cur, m[a], Some(a)).Err? ==> AddEntry(cur, m[a], Some(a)).error.DuplicateAlias?)
  {
    assert (e1.aliases + Restrict(m, done))[a := m[a]] == e1.aliases + Restrict(m, done + {a});
  }

  /** One step of the table loop of `merge`. */
  lemma TableStep(e1: Entries, aliases2: map<string, Table>, m: map<(string, string), Table>, done: set<(string, string)>, k: (string, string))
    requires k in m && k !in done && m[k].relname == k.0 && m[k].schema == k.1
    requires aliases2.Keys !! Relnames(m)
    ensures var cur := Entries(e1.aliases + aliases2, e1.tables + Restrict(m, done));
      && (AddEntry(cur, m[k], None).Ok? <==> k.0 !in e1.aliases && k !in e1.tables)
      && (AddEntry(cur, m[k], None).Ok? ==>
            AddEntry(cur, m[k], None).value == Entries(e1.aliases + aliases2, e1.tables + Restrict(m, done + {k})))
      && (AddEntry(cur, m[k], None).Err? ==> AddEntry(cur, m[k], None).error.DuplicateAlias?)
  {
    assert k.0 in Relnames(m);
    assert (e1.tables + Restrict(m, done))[k := m[k]] == e1.tables + Restrict(m, done + {k});
  }

  /** A column resolves only to an entry in scope that has it; merging more entries in can
      make a unique column ambiguous but never resolves an undefined one differently. */
  lemma ColumnMatchesOfUnion(e1: Entries, e2: Entries, column: string)
    requires WellFormed(e1) && WellFormed(e2) && Compatible(e1, e2)
    ensures ColumnMatches(Union(e1, e2), column) == ColumnMatches(e1, column) + ColumnMatches(e2, column)
    ensures |ColumnMatches(e1, column)| <= |ColumnMatches(Union(e1, e2), column)|
  {
    UnionOfCompatible(e1, e2);
    SubsetCard(ColumnMatches(e1, column), ColumnMatches(Union(e1, e2), column));
  }
}
