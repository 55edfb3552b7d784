/** The statement handlers of `MockDatabase`: CREATE TABLE and INSERT replace the database
    value, and SELECT runs its pipeline over lists of joined rows: the cross product of the
    FROM entries, the JOIN and WHERE filters, the stable ORDER BY sort, and the projection. */
module Select {
  import opened Values
  import opened Catalog
  import opened Ordering
  import opened Sources
  import opened Expressions

  // ---------------------------------------------------------------------------
  // Statements as the parser hands them over

  /** A FROM item: a table (optionally schema-qualified and aliased), or a JOIN of two items
      with its ON condition. `OtherFrom` stands for any other kind (sub-selects, VALUES). */
  datatype FromClause =
    | RangeVar(schemaname: Option<string>, relname: string, alias: Option<string>)
    | JoinExpr(larg: FromClause, rarg: FromClause, quals: Option<Node>)
    | OtherFrom(kind: string)

  /** An output column: its expression and the name given with AS, if any. */
  datatype ResTarget = ResTarget(name: Option<string>, val: Node)

  /** An ORDER BY item with the parser's direction and NULLS codes. */
  datatype SortBy = SortBy(node: Node, sortbyDir: int, sortbyNulls: int)

  datatype SelectStmt = SelectStmt(
    fromClause: seq<FromClause>, targetList: seq<ResTarget>, whereClause: Option<Node>, sortClause: seq<SortBy>)

  datatype CreateStmt = CreateStmt(schemaname: Option<string>, relname: string, columns: seq<string>)

  /** `INSERT INTO t (cols) VALUES ...` with constant rows; no VALUES list is `[]`. */
  datatype InsertStmt = InsertStmt(schemaname: Option<string>, relname: string, cols: seq<string>, valuesLists: seq<seq<Value>>)

  datatype Statement =
    | Create(create: CreateStmt)
    | Insert(insert: InsertStmt)
    | Select(select: SelectStmt)
    | OtherStatement(kind: string)

  datatype ResultSet = ResultSet(rowNames: seq<string>, rows: seq<seq<Value>>)

  // ---------------------------------------------------------------------------
  // Row lists

  /** `_merge_rows`: every left row with every right row, left-major, each pair's entries
      merged (`{**left_row, **right_row}`). */
  function MergeRows(left: seq<Row>, right: seq<Row>): (r: seq<Row>)
    ensures |r| == |left| * |right|
    decreases left
  {
    if left == [] then []
    else seq(|right|, j requires 0 <= j < |right| => left[0] + right[j]) + MergeRows(left[1..], right)
  }

  /** Row `i * |right| + j` of the product merges left row `i` with right row `j`. */
  lemma {:induction false} MergeRowsAt(left: seq<Row>, right: seq<Row>, i: int, j: int)
    requires 0 <= i < |left| && 0 <= j < |right|
    ensures 0 <= i * |right| + j < |MergeRows(left, right)|
    ensures MergeRows(left, right)[i * |right| + j] == left[i] + right[j]
    decreases left
  {
    var m := |right|;
    assert (i + 1) * m == i * m + m;
    assert (|left| - 1) * m + m == |left| * m;
    if i > 0 {
      MergeRowsAt(left[1..], right, i - 1, j);
      assert (i - 1) * m + m == i * m;
      assert left[1..][i - 1] == left[i];
    }
  }

  /** Every row of the product is one left row merged with one right row. */
  lemma {:induction false} MergeRowsFrom(left: seq<Row>, right: seq<Row>, k: int)
    requires 0 <= k < |MergeRows(left, right)|
    ensures exists i, j :: 0 <= i < |left| && 0 <= j < |right| && MergeRows(left, right)[k] == left[i] + right[j]
    decreases left
  {
    if k < |right| {
      assert MergeRows(left, right)[k] == left[0] + right[k];
    } else {
      MergeRowsFrom(left[1..], right, k - |right|);
      var i, j :| 0 <= i < |left[1..]| && 0 <= j < |right| && MergeRows(left[1..], right)[k - |right|] == left[1..][i] + right[j];
      assert MergeRows(left, right)[k] == left[i + 1] + right[j];
    }
  }

  /** A SELECT starts from the single empty row, which the product leaves out of the way. */
  lemma {:induction false} MergeRowsUnit(right: seq<Row>)
    ensures MergeRows([map[]], right) == right
  {
    var unit: seq<Row> := [map[]];
    assert unit[1..] == [];
    forall j | 0 <= j < |right| ensures (map[] + right[j]) == right[j] {
      assert (map[] + right[j]).Keys == right[j].Keys;
    }
  }

  /** The rows a table contributes as a FROM item, each keyed by the item (`{(table, alias): row}`). */
  function RangeRows(t: Table, alias: Option<string>): (r: seq<Row>)
    ensures |r| == |t.rows|
    ensures forall i :: 0 <= i < |r| ==> r[i] == map[Source(t, alias) := t.rows[i]]
  {
    seq(|t.rows|, i requires 0 <= i < |t.rows| => map[Source(t, alias) := t.rows[i]])
  }

  /** `(row for row in rows if cond.eval(row))`: keeps the rows whose condition is truthy,
      in order. Any evaluation error is raised. */
  function FilterRows(rows: seq<Row>, cond: Element): (r: Result<seq<Row>>)
    ensures r.Ok? <==> forall i :: 0 <= i < |rows| ==> Eval(cond, rows[i]).Ok?
    ensures r.Ok? ==> forall x :: x in r.value ==> x in rows && Eval(cond, x).Ok? && Truthy(Eval(cond, x).value)
    ensures r.Ok? ==> forall i :: 0 <= i < |rows| && Eval(cond, rows[i]).Ok? && Truthy(Eval(cond, rows[i]).value) ==> rows[i] in r.value
    ensures r.Ok? ==> |r.value| <= |rows|
    decreases rows
  {
    if rows == [] then Ok([])
    else
      var keep :- Eval(cond, rows[0]);
      var rest :- FilterRows(rows[1..], cond);
      assert forall i :: 1 <= i < |rows| ==> rows[i] == rows[1..][i - 1];
      Ok((if Truthy(keep) then [rows[0]] else []) + rest)
  }

  /** On one row the filter raises the condition's error, or keeps the row iff the condition
      is truthy on it. */
  lemma FilterRowsSingle(x: Row, cond: Element)
    ensures Eval(cond, x).Err? ==> FilterRows([x], cond) == Err(Eval(cond, x).error)
    ensures Eval(cond, x).Ok? ==> FilterRows([x], cond) == Ok(if Truthy(Eval(cond, x).value) then [x] else [])
  {
    assert [x][1..] == [];
    if Eval(cond, x).Ok? {
      assert [x] + [] == [x];
    }
  }

  /** The filter goes row by row: filtering a concatenation concatenates the kept rows in
      order, keeping each row as often as it occurs. */
  lemma {:induction false} FilterRowsAppend(a: seq<Row>, b: seq<Row>, cond: Element)
    requires FilterRows(a, cond).Ok? && FilterRows(b, cond).Ok?
    ensures FilterRows(a + b, cond) == Ok(FilterRows(a, cond).value + FilterRows(b, cond).value)
    decreases a
  {
    var rb := FilterRows(b, cond).value;
    if a == [] {
      assert a + b == b && [] + rb == rb;
    } else {
      var x, tail := a[0], a[1..];
      assert a == [x] + tail;
      assert Eval(cond, x).Ok? && FilterRows(tail, cond).Ok? by {
        assert a[0] == x && a[1..] == tail;
      }
      FilterRowsCons(x, tail, cond);
      FilterRowsAppend(tail, b, cond);
      ConsAppend(a, b);
      FilterRowsCons(x, tail + b, cond);
      var head, ra := Kept(x, cond), FilterRows(tail, cond).value;
      calc {
        FilterRows(a + b, cond);
        FilterRows([x] + (tail + b), cond);
        Ok(head + (ra + rb));
        { AppendAssoc(head, ra, rb); }
        Ok((head + ra) + rb);
        { assert FilterRows(a, cond) == FilterRows([x] + tail, cond) == Ok(head + ra); }
        Ok(FilterRows(a, cond).value + rb);
      }
    }
  }

  /** The filter of a concatenation raises the first error met: the first part's if it
      raises, otherwise the second part's. */
  lemma {:induction false} FilterRowsAppendRaises(a: seq<Row>, b: seq<Row>, cond: Element)
    ensures FilterRows(a, cond).Err? ==> FilterRows(a + b, cond) == FilterRows(a, cond)
    ensures FilterRows(a, cond).Ok? && FilterRows(b, cond).Err? ==> FilterRows(a + b, cond) == FilterRows(b, cond)
    decreases a
  {
    if a == [] {
      assert a + b == b;
    } else {
      var x, tail := a[0], a[1..];
      assert a == [x] + tail;
      FilterRowsAppendRaises(tail, b, cond);
      ConsAppend(a, b);
      if Eval(cond, x).Ok? {
        FilterRowsCons(x, tail, cond);
        FilterRowsCons(x, tail + b, cond);
      } else {
        assert FilterRows(a, cond) == Err(Eval(cond, x).error) == FilterRows(a + b, cond) by {
          assert a[0] == x && (a + b)[0] == x;
        }
      }
    }
  }

  lemma ConsAppend<T>(a: seq<T>, b: seq<T>)
    requires a != []
    ensures a + b == [a[0]] + (a[1..] + b)
  {
  }

  lemma AppendAssoc<T>(a: seq<T>, b: seq<T>, c: seq<T>)
    ensures a + (b + c) == (a + b) + c
  {
  }

  /** The row itself if the condition is truthy on it, otherwise nothing. */
  function Kept(x: Row, cond: Element): seq<Row>
    requires Eval(cond, x).Ok?
  {
    if Truthy(Eval(cond, x).value) then [x] else []
  }

  lemma FilterRowsCons(x: Row, rest: seq<Row>, cond: Element)
    requires Eval(cond, x).Ok?
    ensures FilterRows(rest, cond).Err? ==> FilterRows([x] + rest, cond) == FilterRows(rest, cond)
    ensures FilterRows(rest, cond).Ok? ==> FilterRows([x] + rest, cond) == Ok(Kept(x, cond) + FilterRows(rest, cond).value)
  {
    assert ([x] + rest)[0] == x && ([x] + rest)[1..] == rest;
  }

  /** Filtering twice by the same condition keeps what filtering once kept. */
  lemma {:induction false} FilterRowsIdempotent(rows: seq<Row>, cond: Element)
    requires FilterRows(rows, cond).Ok?
    ensures FilterRows(FilterRows(rows, cond).value, cond) == FilterRows(rows, cond)
    decreases rows
  {
    if rows != [] {
      FilterRowsIdempotent(rows[1..], cond);
      var rest := FilterRows(rows[1..], cond).value;
      if Truthy(Eval(cond, rows[0]).value) {
        assert ([rows[0]] + rest)[1..] == rest;
      } else {
        assert [] + rest == rest;
      }
    }
  }

  /** A condition true on every row (`WHERE 1`) keeps them all, in order. */
  lemma {:induction false} FilterRowsTrueKeepsAll(rows: seq<Row>, v: Value)
    requires Truthy(v)
    ensures FilterRows(rows, Const(v)) == Ok(rows)
    decreases rows
  {
    if rows != [] {
      FilterRowsTrueKeepsAll(rows[1..], v);
      assert [rows[0]] + rows[1..] == rows;
    }
  }

  /** A row's ORDER BY key: one `SortByKey` per item, evaluated in order. */
  function RowKey(row: Row, strats: seq<(SortByStrategy, Element)>): (r: Result<seq<SortByKey>>)
    ensures r.Ok? ==> |r.value| == |strats|
    ensures r.Ok? ==> forall k :: 0 <= k < |strats| ==>
      r.value[k].strat == strats[k].0 && Eval(strats[k].1, row) == Ok(r.value[k].value)
    decreases strats
  {
    if strats == [] then Ok([])
    else
      var v :- Eval(strats[0].1, row);
      var rest :- RowKey(row, strats[1..]);
      Ok([SortByKey(strats[0].0, v)] + rest)
  }

  /** The keys `sorted` computes, row by row. */
  function RowKeys(rows: seq<Row>, strats: seq<(SortByStrategy, Element)>): (r: Result<seq<seq<SortByKey>>>)
    ensures r.Ok? <==> forall i :: 0 <= i < |rows| ==> RowKey(rows[i], strats).Ok?
    ensures r.Ok? ==> |r.value| == |rows| && forall i :: 0 <= i < |rows| ==> r.value[i] == RowKey(rows[i], strats).value
    decreases rows
  {
    if rows == [] then Ok([])
    else
      var k :- RowKey(rows[0], strats);
      var rest :- RowKeys(rows[1..], strats);
      assert forall i :: 1 <= i < |rows| ==> rows[i] == rows[1..][i - 1];
      Ok([k] + rest)
  }

  /** `sorted(rows, key=lambda row: tuple(SortByKey(...) ...))`. */
  function SortRows(rows: seq<Row>, strats: seq<(SortByStrategy, Element)>): (r: Result<seq<Row>>)
    ensures r.Ok? ==> |r.value| == |rows|
  {
    var keys :- RowKeys(rows, strats);
    SortByKeys(rows, keys)
  }

  /** Sorting raises only when a key does not evaluate or two keys do not compare; otherwise
      it rearranges the rows into the one stable order of their keys. */
  lemma SortRowsIsStableSort(rows: seq<Row>, strats: seq<(SortByStrategy, Element)>)
    ensures SortRows(rows, strats).Ok? <==> RowKeys(rows, strats).Ok? && AllComparable(RowKeys(rows, strats).value)
    ensures SortRows(rows, strats).Ok? ==>
      var sorted := SortKeyed(Decorate(rows, RowKeys(rows, strats).value, 0));
      && multiset(SortRows(rows, strats).value) == multiset(rows)
      && SortedStably(sorted)
      && SortRows(rows, strats).value == Undecorate(sorted)
  {
    if RowKeys(rows, strats).Ok? && AllComparable(RowKeys(rows, strats).value) {
      SortByKeysPermutes(rows, RowKeys(rows, strats).value);
      SortByKeysIsStableSort(rows, RowKeys(rows, strats).value);
    }
  }

  /** The output rows: every target evaluated on every row. */
  function Project(rows: seq<Row>, targets: seq<Element>): (r: Result<seq<seq<Value>>>)
    ensures r.Ok? <==> forall i :: 0 <= i < |rows| ==> EvalAll(targets, rows[i]).Ok?
    ensures r.Ok? ==> |r.value| == |rows|
    ensures r.Ok? ==> forall i :: 0 <= i < |rows| ==> r.value[i] == EvalAll(targets, rows[i]).value && |r.value[i]| == |targets|
    decreases rows
  {
    if rows == [] then Ok([])
    else
      var vs :- EvalAll(targets, rows[0]);
      var rest :- Project(rows[1..], targets);
      assert forall i :: 1 <= i < |rows| ==> rows[i] == rows[1..][i - 1];
      Ok([vs] + rest)
  }

  /** An output column's name: the AS name, else the element's own name, else `?column?`. */
  function RowName(name: Option<string>, e: Element): (r: string)
    ensures name.Some? && name.value != "" ==> r == name.value
    ensures (name.None? || name.value == "") && ElementName(e).Some? ==> r == ElementName(e).value
    ensures (name.None? || name.value == "") && ElementName(e).None? ==> r == "?column?"
  {
    if name.Some? && name.value != "" then name.value
    else if ElementName(e).None? then "?column?"
    else ElementName(e).value
  }

  // ---------------------------------------------------------------------------
  // What the joined rows hold

  /** Each row has exactly one entry per FROM entry in scope, holding a row of that entry's
      table. */
  predicate RowsFromSources(rows: seq<Row>, e: Entries) {
    forall i :: 0 <= i < |rows| ==>
      rows[i].Keys == AllTables(e) && forall s :: s in rows[i] ==> rows[i][s] in s.table.rows
  }

  /** Every stored row of the table has exactly the table's columns. */
  predicate TableRowsFit(t: Table) {
    forall i :: 0 <= i < |t.rows| ==> Fits(t.columns, t.rows[i])
  }

  /** The tables of every FROM entry in scope keep `TableRowsFit`. */
  predicate SourcesFit(e: Entries) {
    forall s :: s in AllTables(e) ==> TableRowsFit(s.table)
  }

  /** Every table of the database keeps `TableRowsFit`. */
  predicate RowsFit(db: Database) {
    forall s, n :: s in db.schemas && n in db.schemas[s].tables ==> TableRowsFit(db.schemas[s].tables[n])
  }

  /** No alias in the FROM item is empty (the parser never produces one). */
  predicate NoEmptyAlias(clause: FromClause) {
    match clause
    case RangeVar(_, _, alias) => alias != Some("")
    case JoinExpr(l, r, _) => NoEmptyAlias(l) && NoEmptyAlias(r)
    case OtherFrom(_) => true
  }

  /** Merging the rows of two compatible FROM items gives rows keyed by the merged entries. */
  lemma MergeRowsFromSources(left: seq<Row>, right: seq<Row>, e1: Entries, e2: Entries)
    requires RowsFromSources(left, e1) && RowsFromSources(right, e2) && Compatible(e1, e2)
    ensures RowsFromSources(MergeRows(left, right), Union(e1, e2))
  {
    UnionEntriesFromSides(e1, e2);
    SidesEntriesInUnion(e1, e2);
    var all := AllTables(Union(e1, e2));
    assert all == AllTables(e1) + AllTables(e2);
    var merged := MergeRows(left, right);
    forall k | 0 <= k < |merged|
      ensures merged[k].Keys == all
      ensures forall s :: s in merged[k] ==> merged[k][s] in s.table.rows
    {
      MergeRowsFrom(left, right, k);
      var i, j :| 0 <= i < |left| && 0 <= j < |right| && merged[k] == left[i] + right[j];
      MergedRowFromSources(left[i], right[j], AllTables(e1), AllTables(e2));
    }
  }

  /** One merged row holds the entries of both sides, each row taken from its own table. */
  lemma MergedRowFromSources(l: Row, r: Row, s1: set<Source>, s2: set<Source>)
    requires l.Keys == s1 && forall s :: s in l ==> l[s] in s.table.rows
    requires r.Keys == s2 && forall s :: s in r ==> r[s] in s.table.rows
    ensures (l + r).Keys == s1 + s2
    ensures forall s :: s in l + r ==> (l + r)[s] in s.table.rows
  {
  }

  lemma RangeRowsFromSources(t: Table, alias: Option<string>, e: Entries)
    requires AllTables(e) == {Source(t, alias)}
    ensures RowsFromSources(RangeRows(t, alias), e)
  {
  }

  /** Filtering keeps rows as they were. */
  lemma FilterRowsFromSources(rows: seq<Row>, cond: Element, e: Entries)
    requires RowsFromSources(rows, e) && FilterRows(rows, cond).Ok?
    ensures RowsFromSources(FilterRows(rows, cond).value, e)
  {
    var kept := FilterRows(rows, cond).value;
    forall i | 0 <= i < |kept| ensures kept[i].Keys == AllTables(e) && forall s :: s in kept[i] ==> kept[i][s] in s.table.rows {
      assert kept[i] in rows;
    }
  }

  /** Reading an unqualified column succeeds on every joined row: the column resolved to an
      entry whose table has it, and every stored row of that table has every column. */
  lemma ColumnReadSucceeds(rows: seq<Row>, e: Entries, s: Source, c: string)
    requires RowsFromSources(rows, e) && SourcesFit(e)
    requires s in AllTables(e) && c in s.table.columns
    ensures forall i :: 0 <= i < |rows| ==> Eval(Column(s, c), rows[i]) == Ok(rows[i][s][c])
  {
    forall i | 0 <= i < |rows| ensures c in rows[i][s] {
      var k :| 0 <= k < |s.table.rows| && s.table.rows[k] == rows[i][s];
      assert Fits(s.table.columns, s.table.rows[k]);
      var p :| 0 <= p < |s.table.columns| && s.table.columns[p] == c;
    }
  }

  // ---------------------------------------------------------------------------
  // FROM items and ORDER BY items

  /** What a FROM item evaluates to: the entries it brings into scope and its rows, or
      nothing when it raises. A table brings itself and its rows; a JOIN merges both sides'
      entries, multiplies their rows and keeps those satisfying the ON condition. */
  ghost function FromItem(db: Database, clause: FromClause): Option<(Entries, seq<Row>)>
    decreases clause
  {
    match clause
    case RangeVar(schemaname, relname, alias) =>
      var t := GetTable(db, relname, schemaname);
      if t.Err? then None
      else
        var e := AddEntry(EmptyEntries(), t.value, alias);
        if e.Err? then None else Some((e.value, RangeRows(t.value, alias)))
    case JoinExpr(larg, rarg, quals) =>
      var left := FromItem(db, larg);
      var right := FromItem(db, rarg);
      if left.None? || right.None? || !Compatible(left.value.0, right.value.0) || quals.None? then None
      else
        var e := Union(left.value.0, right.value.0);
        var cond := Resolve(db, e, quals.value);
        if cond.Err? then None
        else
          var kept := FilterRows(MergeRows(left.value.1, right.value.1), cond.value);
          if kept.Err? then None else Some((e, kept.value))
    case OtherFrom(_) => None
  }

  /** The entries of a FROM item are well formed and hold only stored tables; when no alias
      is empty, its rows are keyed by exactly those entries and taken from their tables. */
  lemma {:induction false} FromItemFromSources(db: Database, clause: FromClause)
    requires RowsFit(db) && FromItem(db, clause).Some?
    ensures WellFormed(FromItem(db, clause).value.0) && SourcesFit(FromItem(db, clause).value.0)
    ensures NoEmptyAlias(clause) ==> RowsFromSources(FromItem(db, clause).value.1, FromItem(db, clause).value.0)
    decreases clause
  {
    match clause
    case RangeVar(schemaname, relname, alias) =>
      var t := GetTable(db, relname, schemaname).value;
      GetTableFits(db, relname, schemaname);
      assert WellFormed(EmptyEntries()) && AllTables(EmptyEntries()) == {};
      AddEntryAddsOne(EmptyEntries(), t, alias);
      if alias != Some("") {
        RangeRowsFromSources(t, alias, AddEntry(EmptyEntries(), t, alias).value);
      }
    case JoinExpr(larg, rarg, quals) =>
      FromItemFromSources(db, larg);
      FromItemFromSources(db, rarg);
      var (e1, rows1) := FromItem(db, larg).value;
      var (e2, rows2) := FromItem(db, rarg).value;
      UnionOfCompatible(e1, e2);
      var cond := Resolve(db, Union(e1, e2), quals.value).value;
      if NoEmptyAlias(clause) {
        MergeRowsFromSources(rows1, rows2, e1, e2);
        FilterRowsFromSources(MergeRows(rows1, rows2), cond, Union(e1, e2));
      }
  }

  /** `_parse_from_clauses`, computing `FromItem`. A JOIN without ON is not implemented. */
  method ParseFromClause(db: Database, clause: FromClause) returns (r: Result<(QueryTables, seq<Row>)>)
    ensures r.Ok? <==> FromItem(db, clause).Some?
    ensures r.Ok? ==> fresh(r.value.0) && r.value.0.Valid() && (r.value.0.State(), r.value.1) == FromItem(db, clause).value
    ensures clause.RangeVar? && GetTable(db, clause.relname, clause.schemaname).Err? ==>
      r == Err(GetTable(db, clause.relname, clause.schemaname).error)
    ensures clause.OtherFrom? ==> r == Err(NotImplemented(clause.kind))
    decreases clause
  {
    match clause
    case RangeVar(schemaname, relname, alias) =>
      var sources := new QueryTables();
      var table := GetTable(db, relname, schemaname);
      if table.Err? {
        return Err(table.error);
      }
      // adding to an empty QueryTables cannot clash
      var added := sources.Add(table.value, alias);
      return Ok((sources, RangeRows(table.value, alias)));
    case JoinExpr(larg, rarg, quals) =>
      // _merge_clauses
      var left := ParseFromClause(db, larg);
      if left.Err? {
        return Err(left.error);
      }
      var right := ParseFromClause(db, rarg);
      if right.Err? {
        return Err(right.error);
      }
      var sources := QueryTables.Merge(left.value.0, right.value.0);
      if sources.Err? {
        return Err(sources.error);
      }
      UnionOfCompatible(left.value.0.State(), right.value.0.State());
      var rows := MergeRows(left.value.1, right.value.1);
      if quals.None? {
        return Err(NotImplemented("JoinExpr"));
      }
      var cond := ParseSelectExpr(db, quals.value, sources.value);
      if cond.Err? {
        return Err(cond.error);
      }
      var kept := FilterRows(rows, cond.value);
      if kept.Err? {
        return Err(kept.error);
      }
      return Ok((sources.value, kept.value));
    case OtherFrom(kind) =>
      return Err(NotImplemented(kind));
  }

  /** A table the database stores keeps its rows fitting. */
  lemma GetTableFits(db: Database, relname: string, schemaName: Option<string>)
    requires RowsFit(db) && GetTable(db, relname, schemaName).Ok?
    ensures TableRowsFit(GetTable(db, relname, schemaName).value)
  {
  }

  /** The name of a node's type, as `NotImplementedError` reports it. */
  function NodeKind(n: Node): string {
    match n
    case AConst(_) => "AConst"
    case ColumnRef(_, _) => "ColumnRef"
    case AExpr(_, _, _) => "AExpr"
    case TypeCast(_) => "TypeCast"
    case FuncCall(_, _, _) => "FuncCall"
    case OtherNode(kind) => kind
  }

  /** `_get_sortby_element`: only a column reference may be sorted on. An integer constant
      (an ordinal position) is not implemented and any other constant is a syntax error. */
  ghost function SortbyElement(e: Entries, n: Node): (r: Result<Element>)
    ensures n.ColumnRef? ==> r == ResolveColumnRef(e, n.qualifiers, n.last)
    ensures n.AConst? ==> r.Err? && (r.error.NotImplemented? <==> n.v.Int?)
    ensures !n.ColumnRef? && !n.AConst? ==> r == Err(NotImplemented(NodeKind(n)))
  {
    match n
    case AConst(v) =>
      if !v.Int? then Err(SyntaxError("non-integer constant in ORDER BY")) else Err(NotImplemented("AConst"))
    case ColumnRef(qs, last) => ResolveColumnRef(e, qs, last)
    case _ => Err(NotImplemented(NodeKind(n)))
  }

  /** The ORDER BY items as (strategy, element) pairs, raising at the first failing item. */
  ghost function SortStrategies(e: Entries, items: seq<SortBy>): (r: Result<seq<(SortByStrategy, Element)>>)
    ensures r.Ok? ==> |r.value| == |items|
    ensures r.Ok? <==> forall i :: 0 <= i < |items| ==> SortbyElement(e, items[i].node).Ok?
    ensures r.Ok? ==> forall i :: 0 <= i < |items| ==>
      r.value[i] == (Strategy(items[i].sortbyDir, items[i].sortbyNulls), SortbyElement(e, items[i].node).value)
    decreases items
  {
    if items == [] then Ok([])
    else
      var init :- SortStrategies(e, items[..|items| - 1]);
      var last := items[|items| - 1];
      var element :- SortbyElement(e, last.node);
      Ok(init + [(Strategy(last.sortbyDir, last.sortbyNulls), element)])
  }

  /** The FROM items of a SELECT: each item's entries merged in front of those so far and its
      rows multiplied onto the rows so far, starting from nothing in scope and one empty row. */
  ghost function FromItems(db: Database, items: seq<FromClause>): Option<(Entries, seq<Row>)>
    decreases items
  {
    if items == [] then Some((EmptyEntries(), [map[]]))
    else
      var acc := FromItems(db, items[..|items| - 1]);
      var item := FromItem(db, items[|items| - 1]);
      if acc.None? || item.None? || !Compatible(item.value.0, acc.value.0) then None
      else Some((Union(item.value.0, acc.value.0), MergeRows(acc.value.1, item.value.1)))
  }

  function TargetNodes(targets: seq<ResTarget>): (r: seq<Node>)
    ensures |r| == |targets| && forall i :: 0 <= i < |targets| ==> r[i] == targets[i].val
  {
    seq(|targets|, i requires 0 <= i < |targets| => targets[i].val)
  }

  /** The output column names: each target's `AS` name, else its expression's name. */
  function TargetNames(targets: seq<ResTarget>, elements: seq<Element>): (r: seq<string>)
    requires |elements| == |targets|
    ensures |r| == |targets| && forall i :: 0 <= i < |targets| ==> r[i] == RowName(targets[i].name, elements[i])
  {
    seq(|targets|, i requires 0 <= i < |targets| => RowName(targets[i].name, elements[i]))
  }

  /** The WHERE step: rows are kept when the resolved condition holds. */
  ghost function WhereRows(db: Database, e: Entries, rows: seq<Row>, where: Option<Node>): Result<seq<Row>> {
    if where.None? then Ok(rows)
    else
      var cond :- Resolve(db, e, where.value);
      FilterRows(rows, cond)
  }

  /** The ORDER BY step: a stable sort on the tuple of the items' keys. */
  ghost function OrderRows(e: Entries, rows: seq<Row>, items: seq<SortBy>): Result<seq<Row>> {
    if items == [] then Ok(rows)
    else
      var strats :- SortStrategies(e, items);
      SortRows(rows, strats)
  }

  /** What a SELECT returns, or nothing when it raises: the product of its FROM items, filtered
      by WHERE, stably sorted by ORDER BY and projected on the target list. */
  ghost function SelectSpec(db: Database, stmt: SelectStmt): Option<ResultSet> {
    var from := FromItems(db, stmt.fromClause);
    if from.None? then None
    else
      var (e, product) := from.value;
      var elements := ResolveAll(db, e, TargetNodes(stmt.targetList));
      var filtered := WhereRows(db, e, product, stmt.whereClause);
      if elements.Err? || filtered.Err? then None
      else
        var sorted := OrderRows(e, filtered.value, stmt.sortClause);
        if sorted.Err? then None
        else
          var projected := Project(sorted.value, elements.value);
          if projected.Err? then None
          else Some(ResultSet(TargetNames(stmt.targetList, elements.value), projected.value))
  }

  // ---------------------------------------------------------------------------
  // The database connection

  /** The entries of a SELECT's FROM items are well formed and hold only stored tables; when
      no alias is empty, the product rows are keyed by exactly those entries. */
  lemma {:induction false} FromItemsFromSources(db: Database, items: seq<FromClause>)
    requires RowsFit(db) && FromItems(db, items).Some?
    ensures WellFormed(FromItems(db, items).value.0) && SourcesFit(FromItems(db, items).value.0)
    ensures (forall j :: 0 <= j < |items| ==> NoEmptyAlias(items[j])) ==>
      RowsFromSources(FromItems(db, items).value.1, FromItems(db, items).value.0)
    decreases |items|
  {
    if items == [] {
      assert AllTables(EmptyEntries()) == {};
    } else {
      var init := items[..|items| - 1];
      FromItemsFromSources(db, init);
      FromItemFromSources(db, items[|items| - 1]);
      var (acc, rows) := FromItems(db, init).value;
      var (e, itemRows) := FromItem(db, items[|items| - 1]).value;
      UnionOfCompatible(e, acc);
      if forall j :: 0 <= j < |items| ==> NoEmptyAlias(items[j]) {
        assert forall j :: 0 <= j < |init| ==> init[j] == items[j];
        MergeRowsFromSources(rows, itemRows, acc, e);
      }
    }
  }

  /** A single FROM item is the whole FROM clause: the initial empty row and empty entries
      drop out. */
  lemma SingleFromItem(db: Database, clause: FromClause)
    ensures FromItems(db, [clause]) == FromItem(db, clause)
  {
    var items := [clause];
    assert items[..0] == [] && items[0] == clause;
    if FromItem(db, clause).Some? {
      var (e, rows) := FromItem(db, clause).value;
      MergeRowsUnit(rows);
      assert Union(e, EmptyEntries()) == e;
    }
  }

  /** An unqualified column in a SELECT reads successfully from every row of the FROM product:
      it resolved to the one entry whose table has the column, and each stored row has all of
      its table's columns. */
  lemma UnqualifiedColumnReadsEveryRow(db: Database, items: seq<FromClause>, c: string)
    requires RowsFit(db) && FromItems(db, items).Some?
    requires forall j :: 0 <= j < |items| ==> NoEmptyAlias(items[j])
    requires Resolve(db, FromItems(db, items).value.0, ColumnRef([], FieldName(c))).Ok?
    ensures forall i :: 0 <= i < |FromItems(db, items).value.1| ==>
      Eval(Resolve(db, FromItems(db, items).value.0, ColumnRef([], FieldName(c))).value, FromItems(db, items).value.1[i]).Ok?
  {
    var (e, rows) := FromItems(db, items).value;
    FromItemsFromSources(db, items);
    ColumnRefInScope(e, [], FieldName(c));
    var el := Resolve(db, e, ColumnRef([], FieldName(c))).value;
    ColumnReadSucceeds(rows, e, el.source, c);
  }

  /** A SELECT returns one name and one value per target in every row; WHERE only drops rows
      of the FROM product and ORDER BY only reorders them, so without WHERE there is one
      result row per product row (one row when there is no FROM clause). */
  lemma SelectShape(db: Database, stmt: SelectStmt)
    requires SelectSpec(db, stmt).Some?
    ensures |SelectSpec(db, stmt).value.rowNames| == |stmt.targetList|
    ensures forall i :: 0 <= i < |SelectSpec(db, stmt).value.rows| ==> |SelectSpec(db, stmt).value.rows[i]| == |stmt.targetList|
    ensures |SelectSpec(db, stmt).value.rows| <= |FromItems(db, stmt.fromClause).value.1|
    ensures stmt.whereClause.None? ==> |SelectSpec(db, stmt).value.rows| == |FromItems(db, stmt.fromClause).value.1|
    ensures stmt.fromClause == [] && stmt.whereClause.None? ==> |SelectSpec(db, stmt).value.rows| == 1
  {
  }

  /** The records an INSERT builds: one `dict(zip(cols, values))` per VALUES row. */
  function BuildRows(cols: seq<string>, valuesLists: seq<seq<Value>>): (r: seq<Record>)
    ensures |r| == |valuesLists|
    ensures forall i :: 0 <= i < |r| ==> r[i] == BuildRow(cols, valuesLists[i])
  {
    seq(|valuesLists|, i requires 0 <= i < |valuesLists| => BuildRow(cols, valuesLists[i]))
  }

  /** The schema a CREATE TABLE without one lands in. */
  function SchemaOrPublic(schemaname: Option<string>): (s: string)
    ensures schemaname.Some? ==> s == schemaname.value
    ensures schemaname.None? ==> s == Public
  {
    if schemaname.Some? then schemaname.value else Public
  }

  /** The records of an INSERT, each checked against the table's columns in order: the
      first row that does not fit stops the statement with its error. */
  method BuildCheckedRows(columns: seq<string>, cols: seq<string>, valuesLists: seq<seq<Value>>)
    returns (r: Result<seq<Record>>)
    ensures r.Ok? <==> forall i :: 0 <= i < |valuesLists| ==> Fits(columns, BuildRow(cols, valuesLists[i]))
    ensures r.Ok? ==> r.value == BuildRows(cols, valuesLists)
  {
    var records: seq<Record> := [];
    var i := 0;
    while i < |valuesLists|
      invariant 0 <= i <= |valuesLists|
      invariant records == BuildRows(cols, valuesLists[..i])
      invariant forall j :: 0 <= j < i ==> Fits(columns, BuildRow(cols, valuesLists[j]))
    {
      var record := BuildRow(cols, valuesLists[i]);
      var checked := CheckRow(columns, record);
      if checked.Err? {
        return Err(checked.error);
      }
      records := records + [record];
      i := i + 1;
    }
    assert valuesLists[..i] == valuesLists;
    return Ok(records);
  }

  /** The FROM loop of `_handle_select_statement`, computing `FromItems`. */
  method ParseFromItems(db: Database, items: seq<FromClause>) returns (r: Result<(QueryTables, seq<Row>)>)
    ensures r.Ok? <==> FromItems(db, items).Some?
    ensures r.Ok? ==> r.value.0.Valid() && (r.value.0.State(), r.value.1) == FromItems(db, items).value
  {
    var fromSources := new QueryTables();
    var rows: seq<Row> := [map[]];
    var i := 0;
    while i < |items|
      invariant 0 <= i <= |items|
      invariant fromSources.Valid()
      invariant FromItems(db, items[..i]) == Some((fromSources.State(), rows))
    {
      FromItemsSnoc(db, items, i);
      var parsed := ParseFromClause(db, items[i]);
      if parsed.Err? {
        FromItemsPrefixNone(db, items, i + 1);
        return Err(parsed.error);
      }
      var (aggSources, aggRows) := parsed.value;
      var merged := QueryTables.Merge(aggSources, fromSources);
      if merged.Err? {
        FromItemsPrefixNone(db, items, i + 1);
        return Err(merged.error);
      }
      fromSources := merged.value;
      rows := MergeRows(rows, aggRows);
      i := i + 1;
    }
    assert items[..i] == items;
    return Ok((fromSources, rows));
  }

  /** One more FROM item: its entries go in front of those so far and its rows are
      multiplied onto the rows so far. */
  lemma FromItemsSnoc(db: Database, items: seq<FromClause>, i: nat)
    requires i < |items|
    ensures var acc := FromItems(db, items[..i]);
      var item := FromItem(db, items[i]);
      FromItems(db, items[..i + 1])
        == if acc.None? || item.None? || !Compatible(item.value.0, acc.value.0) then None
           else Some((Union(item.value.0, acc.value.0), MergeRows(acc.value.1, item.value.1)))
  {
    assert items[..i + 1][..i] == items[..i];
  }

  lemma {:induction false} FromItemsPrefixNone(db: Database, items: seq<FromClause>, k: nat)
    requires k <= |items| && FromItems(db, items[..k]).None?
    ensures FromItems(db, items).None?
    decreases |items|
  {
    if k < |items| {
      assert items[..|items| - 1][..k] == items[..k];
      FromItemsPrefixNone(db, items[..|items| - 1], k);
    } else {
      assert items[..k] == items;
    }
  }

  /** The target-list loop: each target resolved, and named by its `AS` name or its expression. */
  method ParseTargets(db: Database, targets: seq<ResTarget>, sources: QueryTables) returns (r: Result<(seq<Element>, seq<string>)>)
    ensures r.Ok? <==> ResolveAll(db, sources.State(), TargetNodes(targets)).Ok?
    ensures r.Ok? ==> r.value.0 == ResolveAll(db, sources.State(), TargetNodes(targets)).value
    ensures r.Ok? ==> r.value.1 == TargetNames(targets, r.value.0)
  {
    var elements: seq<Element> := [];
    var names: seq<string> := [];
    var k := 0;
    while k < |targets|
      invariant 0 <= k <= |targets|
      invariant ResolveAll(db, sources.State(), TargetNodes(targets)[..k]) == Ok(elements)
      invariant |elements| == k && names == TargetNames(targets[..k], elements)
    {
      ResolveAllSnoc(db, sources.State(), TargetNodes(targets), k);
      var element := ParseSelectExpr(db, targets[k].val, sources);
      if element.Err? {
        ResolveAllPrefixErr(db, sources.State(), TargetNodes(targets), k + 1);
        return Err(element.error);
      }
      elements := elements + [element.value];
      names := names + [RowName(targets[k].name, element.value)];
      assert targets[..k + 1][..k] == targets[..k];
      k := k + 1;
    }
    assert TargetNodes(targets)[..k] == TargetNodes(targets);
    assert targets[..k] == targets;
    return Ok((elements, names));
  }

  lemma ResolveAllSnoc(db: Database, e: Entries, ns: seq<Node>, k: nat)
    requires k < |ns|
    ensures ResolveAll(db, e, ns[..k + 1])
      == if ResolveAll(db, e, ns[..k]).Err? then ResolveAll(db, e, ns[..k])
         else if Resolve(db, e, ns[k]).Err? then Err(Resolve(db, e, ns[k]).error)
         else Ok(ResolveAll(db, e, ns[..k]).value + [Resolve(db, e, ns[k]).value])
  {
    assert ns[..k + 1][..k] == ns[..k];
  }

  /** The ORDER BY list comprehension, computing `SortStrategies`. */
  method ParseSortClause(items: seq<SortBy>, sources: QueryTables) returns (r: Result<seq<(SortByStrategy, Element)>>)
    ensures r.Ok? <==> SortStrategies(sources.State(), items).Ok?
    ensures r.Ok? ==> r.value == SortStrategies(sources.State(), items).value
  {
    var strats: seq<(SortByStrategy, Element)> := [];
    var m := 0;
    while m < |items|
      invariant 0 <= m <= |items|
      invariant SortStrategies(sources.State(), items[..m]) == Ok(strats)
    {
      assert items[..m + 1][..m] == items[..m];
      var element := GetSortbyElement(items[m].node, sources);
      if element.Err? {
        assert !SortStrategies(sources.State(), items[..m + 1]).Ok?;
        return Err(element.error);
      }
      strats := strats + [(Strategy(items[m].sortbyDir, items[m].sortbyNulls), element.value)];
      m := m + 1;
    }
    assert items[..m] == items;
    return Ok(strats);
  }

  /** `_get_sortby_element` on the entries in scope. */
  method GetSortbyElement(n: Node, sources: QueryTables) returns (r: Result<Element>)
    ensures r == SortbyElement(sources.State(), n)
  {
    match n
    case AConst(v) =>
      if !v.Int? {
        return Err(SyntaxError("non-integer constant in ORDER BY"));
      }
      return Err(NotImplemented("AConst"));
    case ColumnRef(qs, last) =>
      r := ParseColumnRef(qs, last, sources);
    case _ =>
      return Err(NotImplemented(NodeKind(n)));
  }

  /** `MockDatabase`: holds the current database value, which CREATE TABLE and INSERT replace. */
  class MockDatabase {
    var db: Database

    /** Both default schemas exist, tables are stored under their own names, and every stored
        row has exactly its table's columns. */
    predicate Valid()
      reads this
    {
      Catalog.Valid(db) && RowsFit(db)
    }

    constructor ()
      ensures db == InitialDatabase() && Valid()
    {
      db := InitialDatabase();
    }

    /** `_handle_create_statement`: stores an empty table with the declared columns, in
        `public` unless a schema is named, replacing any table of that name. */
    method HandleCreate(stmt: CreateStmt)
      requires Valid()
      modifies this
      ensures Valid()
      ensures db == CreateTable(old(db), NewTable(SchemaOrPublic(stmt.schemaname), stmt.relname, stmt.columns))
      ensures GetTable(db, stmt.relname, Some(SchemaOrPublic(stmt.schemaname))) == Ok(NewTable(SchemaOrPublic(stmt.schemaname), stmt.relname, stmt.columns))
    {
      var table := NewTable(SchemaOrPublic(stmt.schemaname), stmt.relname, stmt.columns);
      UpdateThenGet(db, table, table.relname, table.schema);
      UpdateKeepsFit(db, table);
      db := CreateTable(db, table);
    }

    /** `_handle_insert_statement`: finds the table, builds one row per VALUES row from the
        column list, checks each row against the table's columns in order, and stores the
        table with the rows appended. Nothing is stored when anything fails. */
    method HandleInsert(stmt: InsertStmt) returns (r: Result<()>)
      requires Valid()
      modifies this
      ensures Valid()
      ensures var t := GetTable(old(db), stmt.relname, stmt.schemaname);
        && (r.Ok? <==>
              (t.Ok? && stmt.valuesLists != []
               && forall i :: 0 <= i < |stmt.valuesLists| ==> Fits(t.value.columns, BuildRow(stmt.cols, stmt.valuesLists[i]))))
        && (r.Ok? ==> db == UpdateTable(old(db), Catalog.Insert(t.value, BuildRows(stmt.cols, stmt.valuesLists))))
        && (t.Err? ==> r == Err(t.error))
      ensures r.Err? ==> db == old(db)
    {
      var t := GetTable(db, stmt.relname, stmt.schemaname);
      if t.Err? {
        return Err(t.error);
      }
      var table := t.value;
      if stmt.valuesLists == [] {
        return Err(NotImplemented("INSERT without VALUES"));
      }
      var records := BuildCheckedRows(table.columns, stmt.cols, stmt.valuesLists);
      if records.Err? {
        return Err(records.error);
      }
      var updated := Catalog.Insert(table, records.value);
      GetTableFits(db, stmt.relname, stmt.schemaname);
      GetTableFinds(db, stmt.relname, stmt.schemaname);
      UpdateThenGet(db, updated, updated.relname, updated.schema);
      UpdateKeepsFit(db, updated);
      db := UpdateTable(db, updated);
      return Ok(());
    }

    /** `_handle_select_statement`, computing `SelectSpec`. */
    method HandleSelect(stmt: SelectStmt) returns (r: Result<ResultSet>)
      ensures r.Ok? <==> SelectSpec(db, stmt).Some?
      ensures r.Ok? ==> r.value == SelectSpec(db, stmt).value
    {
      var from := ParseFromItems(db, stmt.fromClause);
      if from.Err? {
        return Err(from.error);
      }
      var (fromSources, rows) := from.value;
      var e := fromSources.State();

      var targets := ParseTargets(db, stmt.targetList, fromSources);
      if targets.Err? {
        return Err(targets.error);
      }
      var (elements, names) := targets.value;

      if stmt.whereClause.Some? {
        var cond := ParseSelectExpr(db, stmt.whereClause.value, fromSources);
        if cond.Err? {
          return Err(cond.error);
        }
        var kept := FilterRows(rows, cond.value);
        if kept.Err? {
          return Err(kept.error);
        }
        rows := kept.value;
      }
      assert WhereRows(db, e, from.value.1, stmt.whereClause) == Ok(rows);

      if stmt.sortClause != [] {
        var strats := ParseSortClause(stmt.sortClause, fromSources);
        if strats.Err? {
          return Err(strats.error);
        }
        var sorted := SortRows(rows, strats.value);
        if sorted.Err? {
          return Err(sorted.error);
        }
        rows := sorted.value;
      }

      var projected := Project(rows, elements);
      if projected.Err? {
        return Err(projected.error);
      }
      return Ok(ResultSet(names, projected.value));
    }

    /** `_execute_statement`: dispatches on the statement type; CREATE and INSERT return no
        result set, and other statement types are not implemented. */
    method ExecuteStatement(stmt: Statement) returns (r: Result<Option<ResultSet>>)
      requires Valid()
      modifies this
      ensures Valid()
      ensures stmt.OtherStatement? ==> r == Err(NotImplemented(stmt.kind)) && db == old(db)
      ensures r.Ok? && !stmt.Select? ==> r.value.None?
      ensures stmt.Create? ==>
        var c := stmt.create;
        && r == Ok(None)
        && db == CreateTable(old(db), NewTable(SchemaOrPublic(c.schemaname), c.relname, c.columns))
      ensures stmt.Insert? ==>
        var ins := stmt.insert;
        var t := GetTable(old(db), ins.relname, ins.schemaname);
        && (r.Ok? <==>
              (t.Ok? && ins.valuesLists != []
               && forall i :: 0 <= i < |ins.valuesLists| ==> Fits(t.value.columns, BuildRow(ins.cols, ins.valuesLists[i]))))
        && (r.Ok? ==> db == UpdateTable(old(db), Catalog.Insert(t.value, BuildRows(ins.cols, ins.valuesLists))))
        && (t.Err? ==> r == Err(t.error))
        && (r.Err? ==> db == old(db))
      ensures stmt.Select? ==>
        && db == old(db)
        && (r.Ok? <==> SelectSpec(old(db), stmt.select).Some?)
        && (r.Ok? ==> r.value == Some(SelectSpec(old(db), stmt.select).value))
    {
      match stmt
      case Create(c) =>
        HandleCreate(c);
        return Ok(None);
      case Insert(ins) =>
        var done := HandleInsert(ins);
        if done.Err? {
          return Err(done.error);
        }
        return Ok(None);
      case Select(sel) =>
        var result := HandleSelect(sel);
        if result.Err? {
          return Err(result.error);
        }
        return Ok(Some(result.value));
      case OtherStatement(kind) =>
        return Err(NotImplemented(kind));
    }
  }

  /** Storing a table whose rows fit keeps every table's rows fitting. */
  lemma UpdateKeepsFit(db: Database, t: Table)
    requires RowsFit(db) && TableRowsFit(t)
    ensures RowsFit(UpdateTable(db, t))
  {
  }
}
