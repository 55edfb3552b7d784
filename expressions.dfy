/** Scalar expressions of a statement: the operator table of `_get_aexpr_op`, the closed
    expression tree the parser hands over, its resolution against the FROM entries
    (`parse_select_expr`), and the evaluation of a resolved expression on a joined row. */
module Expressions {
  import opened Values
  import opened Catalog
  import opened Sources
  import Like

  /** A joined row: for each FROM entry, the stored row of its table (`{(table, alias): row}`). */
  type Row = map<Source, Record>

  // ---------------------------------------------------------------------------
  // Operators

  datatype Operator = Eq | Ne | Gt | Ge | Lt | Le | Add | Sub | LikeOp | ILikeOp | NotLikeOp | NotILikeOp

  /** The symbols `_get_aexpr_op` has an entry for. */
  const AexprSymbols: set<string> := {"=", "<>", "!=", ">", ">=", "<", "<=", "+", "-", "~~", "~~*"}

  /** The symbols the parser uses for NOT LIKE and NOT ILIKE. */
  const NegatedLikeSymbols: set<string> := {"!~~", "!~~*"}

  /** `_get_aexpr_op` as written: eleven symbols, and `NotImplementedError` for the rest,
      which includes the parser's NOT LIKE and NOT ILIKE. */
  function OpForAsWritten(symbol: string): (r: Result<Operator>)
    ensures r.Ok? <==> symbol in AexprSymbols
    ensures r.Err? ==> r.error == NotImplemented(symbol)
  {
    if symbol == "=" then Ok(Eq)
    else if symbol == "<>" || symbol == "!=" then Ok(Ne)
    else if symbol == ">" then Ok(Gt)
    else if symbol == ">=" then Ok(Ge)
    else if symbol == "<" then Ok(Lt)
    else if symbol == "<=" then Ok(Le)
    else if symbol == "+" then Ok(Add)
    else if symbol == "-" then Ok(Sub)
    else if symbol == "~~" then Ok(LikeOp)
    else if symbol == "~~*" then Ok(ILikeOp)
    else Err(NotImplemented(symbol))
  }

  /** The operator table with NOT LIKE (`!~~`) and NOT ILIKE (`!~~*`) added: it agrees with
      the table as written wherever that one has an entry. */
  function OpFor(symbol: string): (r: Result<Operator>)
    ensures r.Ok? <==> symbol in AexprSymbols + NegatedLikeSymbols
    ensures OpForAsWritten(symbol).Ok? ==> r == OpForAsWritten(symbol)
    ensures r.Err? ==> r.error == NotImplemented(symbol)
  {
    if symbol == "!~~" then Ok(NotLikeOp)
    else if symbol == "!~~*" then Ok(NotILikeOp)
    else OpForAsWritten(symbol)
  }

  /** The symbol the parser emits for each operator. */
  function SymbolOf(op: Operator): string {
    match op
    case Eq => "="
    case Ne => "<>"
    case Gt => ">"
    case Ge => ">="
    case Lt => "<"
    case Le => "<="
    case Add => "+"
    case Sub => "-"
    case LikeOp => "~~"
    case ILikeOp => "~~*"
    case NotLikeOp => "!~~"
    case NotILikeOp => "!~~*"
  }

  predicate IsLikeOp(op: Operator) {
    op.LikeOp? || op.ILikeOp? || op.NotLikeOp? || op.NotILikeOp?
  }

  /** Every operator is found again from its symbol, and `!=` is another spelling of `<>`. */
  lemma OpForRoundTrip(op: Operator)
    ensures OpFor(SymbolOf(op)) == Ok(op)
    ensures OpFor("!=") == OpFor("<>") == Ok(Ne)
  {
  }

  /** As written, the table loses exactly the two negated LIKE operators: `x NOT LIKE p`
      raises `NotImplementedError` before any row is read. */
  lemma NegatedLikeMissingAsWritten(op: Operator)
    ensures OpForAsWritten(SymbolOf(op)).Ok? <==> !(op.NotLikeOp? || op.NotILikeOp?)
    ensures OpForAsWritten(SymbolOf(op)).Ok? ==> OpForAsWritten(SymbolOf(op)) == Ok(op)
    ensures OpForAsWritten("!~~") == Err(NotImplemented("!~~"))
  {
  }

  /** `like_operator`/`ilike_operator` on values: the pattern is translated first (a
      non-string pattern cannot be iterated, a dangling backslash is rejected), then the
      text must be a string for `re.fullmatch`. */
  function LikeValues(text: Value, pattern: Value, ignoreCase: bool): (r: Result<bool>)
    ensures r.Err? ==> r.error == TypeError || r.error == InvalidEscapeSequence
    ensures r.Ok? <==> text.Text? && pattern.Text? && Like.Tokenize(pattern.s).Ok?
  {
    if !pattern.Text? then Err(TypeError)
    else match Like.Tokenize(pattern.s)
      case Err(e) =>
        Like.TokenizeErrorIsDanglingEscape(pattern.s);
        Err(e)
      case Ok(_) =>
        if !text.Text? then Err(TypeError)
        else if ignoreCase then Like.ILikeOperator(text.s, pattern.s)
        else Like.LikeOperator(text.s, pattern.s)
  }

  /** Applies an operator the way Python's `operator` module does on the model's values:
      `=` and `<>` never raise; orderings raise `TypeError` unless both sides are numbers or
      both strings; `+` adds numbers or concatenates strings, `-` subtracts numbers. */
  function ApplyOp(op: Operator, a: Value, b: Value): (r: Result<Value>)
    ensures (op.Eq? || op.Ne?) ==> r.Ok?
    ensures r.Ok? && !op.Add? && !op.Sub? ==> r.value.Bool?
    ensures r.Err? ==> r.error == TypeError || (IsLikeOp(op) && r.error == InvalidEscapeSequence)
  {
    match op
    case Eq => Ok(Bool(PyEq(a, b)))
    case Ne => Ok(Bool(!PyEq(a, b)))
    case Lt => var x :- PyLess(a, b); Ok(Bool(x))
    case Gt => var x :- PyLess(b, a); Ok(Bool(x))
    case Le => var x :- PyLess(a, b); Ok(Bool(x || PyEq(a, b)))
    case Ge => var x :- PyLess(b, a); Ok(Bool(x || PyEq(a, b)))
    case Add =>
      if IsNumeric(a) && IsNumeric(b) then Ok(Int(Num(a) + Num(b)))
      else if a.Text? && b.Text? then Ok(Text(a.s + b.s))
      else Err(TypeError)
    case Sub =>
      if IsNumeric(a) && IsNumeric(b) then Ok(Int(Num(a) - Num(b))) else Err(TypeError)
    case LikeOp => var m :- LikeValues(a, b, false); Ok(Bool(m))
    case ILikeOp => var m :- LikeValues(a, b, true); Ok(Bool(m))
    case NotLikeOp => var m :- LikeValues(a, b, false); Ok(Bool(!m))
    case NotILikeOp => var m :- LikeValues(a, b, true); Ok(Bool(!m))
  }

  /** Where `<` does not raise, exactly one of `<`, `=`, `>` holds; `<=` is `<` or `=`,
      `>=` is `>` or `=`, `<>` is not `=`, and `a > b` is `b < a`. */
  lemma ComparisonsAgree(a: Value, b: Value)
    requires PyLess(a, b).Ok?
    ensures ApplyOp(Lt, a, b).Ok? && ApplyOp(Gt, a, b).Ok? && ApplyOp(Le, a, b).Ok? && ApplyOp(Ge, a, b).Ok?
    ensures [ApplyOp(Lt, a, b), ApplyOp(Eq, a, b), ApplyOp(Gt, a, b)] in
      {[Ok(Bool(true)), Ok(Bool(false)), Ok(Bool(false))],
       [Ok(Bool(false)), Ok(Bool(true)), Ok(Bool(false))],
       [Ok(Bool(false)), Ok(Bool(false)), Ok(Bool(true))]}
    ensures ApplyOp(Le, a, b).value.b <==> ApplyOp(Lt, a, b).value.b || ApplyOp(Eq, a, b).value.b
    ensures ApplyOp(Ge, a, b).value.b <==> ApplyOp(Gt, a, b).value.b || ApplyOp(Eq, a, b).value.b
    ensures ApplyOp(Ne, a, b).value.b <==> !ApplyOp(Eq, a, b).value.b
    ensures ApplyOp(Gt, a, b) == ApplyOp(Lt, b, a)
  {
    PyLessTrichotomy(a, b);
  }

  /** The orderings raise together: comparing NULL, or a number with a string, is a
      `TypeError` for all four, while `=` answers, and holds only for NULL = NULL (Python's
      `None == None`). */
  lemma OrderingsRaiseTogether(a: Value, b: Value)
    requires PyLess(a, b).Err?
    ensures ApplyOp(Lt, a, b) == ApplyOp(Gt, a, b) == ApplyOp(Le, a, b) == ApplyOp(Ge, a, b) == Err(TypeError)
    ensures ApplyOp(Eq, a, b) == Ok(Bool(a.Null? && b.Null?))
  {
  }

  /** `+` is Python's `operator.add`: on strings it concatenates, on numbers (`True` counting
      as 1) subtracting what was added gives the number back, and a string with a number, or
      NULL with anything, is a `TypeError` for both `+` and `-`. */
  lemma AddAndSub(a: Value, b: Value)
    ensures a.Text? && b.Text? ==> ApplyOp(Add, a, b) == Ok(Text(a.s + b.s)) && ApplyOp(Sub, a, b) == Err(TypeError)
    ensures IsNumeric(a) && IsNumeric(b) ==>
      ApplyOp(Add, a, b).Ok? && ApplyOp(Sub, ApplyOp(Add, a, b).value, b) == Ok(Int(Num(a)))
    ensures ApplyOp(Add, a, b).Ok? <==> (IsNumeric(a) && IsNumeric(b)) || (a.Text? && b.Text?)
    ensures ApplyOp(Sub, a, b).Ok? <==> IsNumeric(a) && IsNumeric(b)
    ensures ApplyOp(Add, a, b).Err? ==> ApplyOp(Add, a, b) == Err(TypeError)
  {
  }

  /** On strings the LIKE operators are `like_operator`/`ilike_operator`, the NOT forms are
      their negation, and a dangling backslash is rejected by all four whatever the text. */
  lemma LikeOperatorsAgree(text: string, pattern: string)
    ensures Like.LikeOperator(text, pattern).Ok? ==>
      ApplyOp(LikeOp, Text(text), Text(pattern)) == Ok(Bool(Like.LikeOperator(text, pattern).value))
      && ApplyOp(NotLikeOp, Text(text), Text(pattern)) == Ok(Bool(!Like.LikeOperator(text, pattern).value))
    ensures Like.ILikeOperator(text, pattern).Ok? ==>
      ApplyOp(ILikeOp, Text(text), Text(pattern)) == Ok(Bool(Like.ILikeOperator(text, pattern).value))
      && ApplyOp(NotILikeOp, Text(text), Text(pattern)) == Ok(Bool(!Like.ILikeOperator(text, pattern).value))
    ensures Like.Tokenize(pattern).Ok? ==>
      forall op :: IsLikeOp(op) ==> ApplyOp(op, Text(text), Text(pattern + ['\\'])) == Err(InvalidEscapeSequence)
  {
    if Like.Tokenize(pattern).Ok? {
      Like.TokenizeEscapeAtEnd(pattern, 'x');
    }
  }

  // ---------------------------------------------------------------------------
  // Resolved expressions (`Element`) and their evaluation

  /** An expression with its column references resolved to FROM entries. */
  datatype Element =
    | Const(v: Value)
    | Column(source: Source, column: string)
    | BinOp(op: Operator, left: Element, right: Element)
    | Call(fn: Function, fname: string, args: seq<Element>)

  /** `Element.name`: a column reference is named after the column, a call after the
      function; anything else has no name. */
  function ElementName(e: Element): Option<string> {
    match e
    case Column(_, c) => Some(c)
    case Call(_, n, _) => Some(n)
    case _ => None
  }

  /** `Element.eval(row)`: a column is looked up in its entry's row (`row[source][column]`),
      an operator applies to both sides evaluated left to right, a call to its arguments
      evaluated in order. */
  function Eval(e: Element, row: Row): Result<Value>
    decreases e
  {
    match e
    case Const(v) => Ok(v)
    case Column(s, c) => if s in row && c in row[s] then Ok(row[s][c]) else Err(KeyError)
    case BinOp(op, l, r) =>
      var a :- Eval(l, row);
      var b :- Eval(r, row);
      ApplyOp(op, a, b)
    case Call(f, _, args) =>
      var vs :- EvalAll(args, row);
      Apply(f, vs)
  }

  function EvalAll(args: seq<Element>, row: Row): (r: Result<seq<Value>>)
    ensures r.Ok? ==> |r.value| == |args|
    decreases args
  {
    if args == [] then Ok([])
    else
      var init :- EvalAll(args[..|args| - 1], row);
      var last :- Eval(args[|args| - 1], row);
      Ok(init + [last])
  }

  /** The (entry, column) pairs an element reads. */
  function Columns(e: Element): set<(Source, string)>
    decreases e
  {
    match e
    case Const(_) => {}
    case Column(s, c) => {(s, c)}
    case BinOp(_, l, r) => Columns(l) + Columns(r)
    case Call(_, _, args) => ColumnsAll(args)
  }

  function ColumnsAll(args: seq<Element>): set<(Source, string)>
    decreases args
  {
    if args == [] then {} else ColumnsAll(args[..|args| - 1]) + Columns(args[|args| - 1])
  }

  /** The row has a value for every pair in `cols`. */
  predicate Provides(row: Row, cols: set<(Source, string)>) {
    forall p :: p in cols ==> p.0 in row && p.1 in row[p.0]
  }

  /** `KeyError` comes only from a column the row lacks: a row with every column the
      element reads never raises it. */
  lemma {:induction false} EvalNoKeyError(e: Element, row: Row)
    requires Provides(row, Columns(e))
    ensures Eval(e, row) != Err(KeyError)
    decreases e
  {
    match e
    case Const(_) =>
    case Column(_, _) =>
    case BinOp(_, l, r) =>
      EvalNoKeyError(l, row);
      EvalNoKeyError(r, row);
    case Call(_, _, args) =>
      EvalAllNoKeyError(args, row);
  }

  lemma {:induction false} EvalAllNoKeyError(args: seq<Element>, row: Row)
    requires Provides(row, ColumnsAll(args))
    ensures EvalAll(args, row) != Err(KeyError)
    decreases args
  {
    if args != [] {
      EvalAllNoKeyError(args[..|args| - 1], row);
      EvalNoKeyError(args[|args| - 1], row);
    }
  }

  /** An element sees only the columns it reads: two rows that agree on them give the same
      result. */
  lemma {:induction false} EvalReadsOnlyColumns(e: Element, row1: Row, row2: Row)
    requires Provides(row1, Columns(e)) && Provides(row2, Columns(e))
    requires forall p :: p in Columns(e) ==> row1[p.0][p.1] == row2[p.0][p.1]
    ensures Eval(e, row1) == Eval(e, row2)
    decreases e
  {
    match e
    case Const(_) =>
    case Column(_, _) =>
    case BinOp(_, l, r) =>
      EvalReadsOnlyColumns(l, row1, row2);
      EvalReadsOnlyColumns(r, row1, row2);
    case Call(_, _, args) =>
      EvalAllReadsOnlyColumns(args, row1, row2);
  }

  lemma {:induction false} EvalAllReadsOnlyColumns(args: seq<Element>, row1: Row, row2: Row)
    requires Provides(row1, ColumnsAll(args)) && Provides(row2, ColumnsAll(args))
    requires forall p :: p in ColumnsAll(args) ==> row1[p.0][p.1] == row2[p.0][p.1]
    ensures EvalAll(args, row1) == EvalAll(args, row2)
    decreases args
  {
    if args != [] {
      EvalAllReadsOnlyColumns(args[..|args| - 1], row1, row2);
      EvalReadsOnlyColumns(args[|args| - 1], row1, row2);
    }
  }

  // ---------------------------------------------------------------------------
  // The parser's expression tree and its resolution

  /** The last field of a column reference: a name, or `*`. */
  datatype Field = FieldName(s: string) | FieldStar

  /** The expression nodes `parse_select_expr` dispatches on. A column reference and a
      function name are their dotted parts, last part separate; `OtherNode` stands for any
      other node type (boolean operators, sub-selects, ...). */
  datatype Node =
    | AConst(v: Value)
    | ColumnRef(qualifiers: seq<string>, last: Field)
    | AExpr(symbol: string, lexpr: Node, rexpr: Node)
    | TypeCast(arg: Node)
    | FuncCall(schemaParts: seq<string>, fname: string, args: seq<Node>)
    | OtherNode(kind: string)

  /** `get_column_source(*reversed(fields))`: the column, then the table, then the schema; a
      fourth part is one positional argument too many. */
  ghost function ResolveColumnRef(e: Entries, qualifiers: seq<string>, last: Field): Result<Element> {
    if last.FieldStar? then Err(NotImplemented("*"))
    else if |qualifiers| > 2 then Err(TypeError)
    else
      var table := if |qualifiers| >= 1 then Some(qualifiers[|qualifiers| - 1]) else None;
      var schema := if |qualifiers| == 2 then Some(qualifiers[0]) else None;
      var s :- ColumnSourceOf(e, last.s, table, schema);
      Ok(Column(s, last.s))
  }

  /** `parse_select_expr` on the entries `e`: constants stay constants, a cast is ignored,
      an operator resolves its left side, its right side and then its symbol, and a call
      resolves its function before its arguments. */
  ghost function Resolve(db: Database, e: Entries, n: Node): Result<Element>
    decreases n
  {
    match n
    case AConst(v) => Ok(Const(v))
    case ColumnRef(qs, last) => ResolveColumnRef(e, qs, last)
    case AExpr(symbol, l, r) =>
      var left :- Resolve(db, e, l);
      var right :- Resolve(db, e, r);
      var op :- OpFor(symbol);
      Ok(BinOp(op, left, right))
    case TypeCast(arg) => Resolve(db, e, arg)
    case FuncCall(parts, name, args) =>
      if |parts| > 1 then Err(TypeError)
      else
        var f :- GetFunction(db, name, if |parts| == 1 then Some(parts[0]) else None);
        var resolved :- ResolveAll(db, e, args);
        Ok(Call(f, name, resolved))
    case OtherNode(kind) => Err(NotImplemented(kind))
  }

  ghost function ResolveAll(db: Database, e: Entries, ns: seq<Node>): (r: Result<seq<Element>>)
    ensures r.Ok? ==> |r.value| == |ns|
    decreases ns
  {
    if ns == [] then Ok([])
    else
      var init :- ResolveAll(db, e, ns[..|ns| - 1]);
      var last :- Resolve(db, e, ns[|ns| - 1]);
      Ok(init + [last])
  }

  /** Every entry a resolved expression reads is in scope, and an unqualified column is one
      its entry's table has. (A qualified `t.c` is not checked against the table's columns:
      a missing column surfaces as `KeyError` when a row is read.) */
  lemma {:induction false} ResolvedColumnsInScope(db: Database, e: Entries, n: Node)
    requires WellFormed(e) && Resolve(db, e, n).Ok?
    ensures forall p :: p in Columns(Resolve(db, e, n).value) ==> p.0 in AllTables(e)
    ensures n.ColumnRef? && n.qualifiers == [] ==>
      Resolve(db, e, n).value.column in Resolve(db, e, n).value.source.table.columns
    decreases n
  {
    match n
    case AConst(_) =>
    case ColumnRef(qs, last) => ColumnRefInScope(e, qs, last);
    case AExpr(_, l, r) =>
      ResolvedColumnsInScope(db, e, l);
      ResolvedColumnsInScope(db, e, r);
    case TypeCast(arg) => ResolvedColumnsInScope(db, e, arg);
    case FuncCall(_, _, args) => ResolvedAllInScope(db, e, args);
    case OtherNode(_) =>
  }

  lemma {:induction false} ResolvedAllInScope(db: Database, e: Entries, ns: seq<Node>)
    requires WellFormed(e) && ResolveAll(db, e, ns).Ok?
    ensures forall p :: p in ColumnsAll(ResolveAll(db, e, ns).value) ==> p.0 in AllTables(e)
    decreases ns
  {
    if ns != [] {
      ResolvedAllInScope(db, e, ns[..|ns| - 1]);
      ResolvedColumnsInScope(db, e, ns[|ns| - 1]);
      var init := ResolveAll(db, e, ns[..|ns| - 1]).value;
      var last := Resolve(db, e, ns[|ns| - 1]).value;
      assert ResolveAll(db, e, ns).value == init + [last];
      assert (init + [last])[..|init|] == init;
    }
  }

  lemma ColumnRefInScope(e: Entries, qs: seq<string>, last: Field)
    requires WellFormed(e) && ResolveColumnRef(e, qs, last).Ok?
    ensures ResolveColumnRef(e, qs, last).value.Column?
    ensures ResolveColumnRef(e, qs, last).value.source in AllTables(e)
    ensures qs == [] ==> last.s in ResolveColumnRef(e, qs, last).value.source.table.columns
  {
    var table := if |qs| >= 1 then Some(qs[|qs| - 1]) else None;
    var schema := if |qs| == 2 then Some(qs[0]) else None;
    if EffectiveAlias(table).Some? && EffectiveAlias(schema).None? {
      SourceByTableFinds(e, table.value);
    }
  }

  /** `parse_select_expr`: resolves a node against the entries of `sources`, looking column
      references up with `get_column_source`. */
  method ParseSelectExpr(db: Database, n: Node, sources: QueryTables) returns (r: Result<Element>)
    ensures r == Resolve(db, sources.State(), n)
    decreases n
  {
    match n
    case AConst(v) =>
      r := Ok(Const(v));
    case ColumnRef(qs, last) =>
      r := ParseColumnRef(qs, last, sources);
    case AExpr(symbol, l, rr) =>
      var left := ParseSelectExpr(db, l, sources);
      if left.Err? {
        return Err(left.error);
      }
      var right := ParseSelectExpr(db, rr, sources);
      if right.Err? {
        return Err(right.error);
      }
      var op := OpFor(symbol);
      if op.Err? {
        return Err(op.error);
      }
      r := Ok(BinOp(op.value, left.value, right.value));
    case TypeCast(arg) =>
      r := ParseSelectExpr(db, arg, sources);
    case FuncCall(parts, name, args) =>
      if |parts| > 1 {
        return Err(TypeError);
      }
      var f := GetFunction(db, name, if |parts| == 1 then Some(parts[0]) else None);
      if f.Err? {
        return Err(f.error);
      }
      var resolved: seq<Element> := [];
      var i := 0;
      while i < |args|
        invariant 0 <= i <= |args|
        invariant ResolveAll(db, sources.State(), args[..i]) == Ok(resolved)
      {
        var arg := ParseSelectExpr(db, args[i], sources);
        assert args[..i + 1][..i] == args[..i];
        if arg.Err? {
          ResolveAllPrefixErr(db, sources.State(), args, i + 1);
          return Err(arg.error);
        }
        resolved := resolved + [arg.value];
        i := i + 1;
      }
      assert args[..i] == args;
      r := Ok(Call(f.value, name, resolved));
    case OtherNode(kind) =>
      r := Err(NotImplemented(kind));
  }

  /** The column-reference branch of `parse_select_expr` (and of `_get_sortby_element`). */
  method ParseColumnRef(qs: seq<string>, last: Field, sources: QueryTables) returns (r: Result<Element>)
    ensures r == ResolveColumnRef(sources.State(), qs, last)
  {
    if last.FieldStar? {
      return Err(NotImplemented("*"));
    }
    if |qs| > 2 {
      return Err(TypeError);
    }
    var table := if |qs| >= 1 then Some(qs[|qs| - 1]) else None;
    var schema := if |qs| == 2 then Some(qs[0]) else None;
    var s := sources.GetColumnSource(last.s, table, schema);
    if s.Err? {
      return Err(s.error);
    }
    r := Ok(Column(s.value, last.s));
  }

  /** Once a prefix of the argument list fails to resolve, the whole list fails the same way. */
  lemma {:induction false} ResolveAllPrefixErr(db: Database, e: Entries, ns: seq<Node>, k: nat)
    requires k <= |ns| && ResolveAll(db, e, ns[..k]).Err?
    ensures ResolveAll(db, e, ns) == ResolveAll(db, e, ns[..k])
    decreases |ns|
  {
    if k == |ns| {
      assert ns[..k] == ns;
    } else {
      var init := ns[..|ns| - 1];
      assert init[..k] == ns[..k];
      ResolveAllPrefixErr(db, e, init, k);
    }
  }
}
