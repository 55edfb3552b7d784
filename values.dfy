/** Scalar values as the emulator handles them (Python objects at run time),
    the errors it raises, and Python's `==`, `<` and truthiness on them. */
module Values {

  /** A value in a row or produced by an expression. Python's `None` is `Null`. */
  datatype Value = Int(i: int) | Text(s: string) | Bool(b: bool) | Null

  /** Every exception the core raises, as one datatype. */
  datatype Error =
    | InvalidEscapeSequence
    | UndefinedTable(name: string)
    | MissingFromEntry(name: string)
    | AmbiguousTable(name: string)
    | UndefinedColumn(name: string)
    | AmbiguousColumn(name: string)
    | DuplicateAlias(name: string)
    | InvalidSchemaName(name: string)
    | UndefinedFunction(name: string)
    | NotNullViolation(column: string)
    | SyntaxError(message: string)
    | NotImplemented(what: string)
    | TypeError
    | KeyError

  /** Outcome of an operation that may raise. */
  datatype Result<+T> = Ok(value: T) | Err(error: Error) {
    predicate IsFailure() { Err? }
    function PropagateFailure<U>(): Result<U> requires Err? { Err(error) }
    function Extract(): T requires Ok? { value }
  }

  /** A value that may be absent (Python's `None` for an optional argument). */
  datatype Option<+T> = None | Some(value: T)

  /** Python's `bool` is a subclass of `int`: both take part in arithmetic and comparisons. */
  predicate IsNumeric(v: Value) { v.Int? || v.Bool? }

  function Num(v: Value): int
    requires IsNumeric(v)
  {
    if v.Int? then v.i else if v.b then 1 else 0
  }

  /** Python `==`: `True == 1`, `None == None`, and values of unrelated types are unequal. */
  predicate PyEq(a: Value, b: Value) {
    if IsNumeric(a) && IsNumeric(b) then Num(a) == Num(b) else a == b
  }

  /** Python `<` on `str`: lexicographic by code point, a proper prefix is smaller. */
  predicate TextLess(x: string, y: string) {
    if |x| == 0 then |y| > 0
    else if |y| == 0 then false
    else if x[0] != y[0] then x[0] < y[0]
    else TextLess(x[1..], y[1..])
  }

  /** Python `<`: numbers with numbers, strings with strings; anything else raises `TypeError`. */
  function PyLess(a: Value, b: Value): Result<bool> {
    if IsNumeric(a) && IsNumeric(b) then Ok(Num(a) < Num(b))
    else if a.Text? && b.Text? then Ok(TextLess(a.s, b.s))
    else Err(TypeError)
  }

  /** Python truthiness, used by `if where_expr.eval(row)`. */
  predicate Truthy(v: Value) {
    match v
    case Int(i) => i != 0
    case Text(s) => s != ""
    case Bool(b) => b
    case Null => false
  }

  lemma {:induction false} TextLessIrreflexive(x: string)
    ensures !TextLess(x, x)
  {
    if |x| > 0 { TextLessIrreflexive(x[1..]); }
  }

  lemma {:induction false} TextLessTrichotomy(x: string, y: string)
    ensures x == y || TextLess(x, y) || TextLess(y, x)
    ensures !(TextLess(x, y) && TextLess(y, x))
  {
    if |x| > 0 && |y| > 0 && x[0] == y[0] {
      TextLessTrichotomy(x[1..], y[1..]);
      if x[1..] == y[1..] {
        assert x == [x[0]] + x[1..] && y == [y[0]] + y[1..];
      }
    }
  }

  lemma {:induction false} TextLessTransitive(x: string, y: string, z: string)
    requires TextLess(x, y) && TextLess(y, z)
    ensures TextLess(x, z)
  {
    if |x| > 0 && x[0] == y[0] && y[0] == z[0] {
      TextLessTransitive(x[1..], y[1..], z[1..]);
    }
  }

  /** `==` is an equivalence on values (with `True == 1` it is not identity). */
  lemma PyEqIsEquivalence(a: Value, b: Value, c: Value)
    ensures PyEq(a, a)
    ensures PyEq(a, b) ==> PyEq(b, a)
    ensures PyEq(a, b) && PyEq(b, c) ==> PyEq(a, c)
  {
  }

  /** `<` is a strict order wherever it does not raise: exactly one of `a < b`, `b < a`,
      `a == b` holds, and it is transitive. */
  lemma PyLessTrichotomy(a: Value, b: Value)
    requires PyLess(a, b).Ok?
    ensures PyLess(b, a).Ok?
    ensures PyEq(a, b) ==> !PyLess(a, b).value && !PyLess(b, a).value
    ensures !PyEq(a, b) ==> PyLess(a, b).value != PyLess(b, a).value
  {
    if a.Text? && b.Text? {
      TextLessTrichotomy(a.s, b.s);
      TextLessIrreflexive(a.s);
    }
  }

  lemma PyLessTransitive(a: Value, b: Value, c: Value)
    requires PyLess(a, b) == Ok(true) && PyLess(b, c) == Ok(true)
    ensures PyLess(a, c) == Ok(true)
  {
    if a.Text? {
      TextLessTransitive(a.s, b.s, c.s);
    }
  }
}
