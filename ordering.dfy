/** ORDER BY: the strategy derived from the parser's direction and NULLS codes, the
    "less than" of one sort key, the lexicographic order on a row's key tuple, and the
    stable sort that `sorted` performs with it. */
module Ordering {
  import opened Values

  // The parser's SortByDir codes.
  const SortbyDefault := 0
  const SortbyAsc := 1
  const SortbyDesc := 2
  const SortbyUsing := 3

  // The parser's SortByNulls codes.
  const SortbyNullsDefault := 0
  const SortbyNullsFirst := 1
  const SortbyNullsLast := 2

  datatype SortByStrategy = SortByStrategy(asc: bool, nullsLast: bool) {
    predicate Desc() { !asc }
    predicate NullsFirst() { !nullsLast }
  }

  /** `SortByStrategy(sortby_dir, sortby_nulls)` with its derived attributes. */
  function Strategy(sortbyDir: int, sortbyNulls: int): SortByStrategy {
    var asc := sortbyDir != SortbyDesc;
    SortByStrategy(asc, if sortbyNulls == SortbyNullsDefault then asc else sortbyNulls == SortbyNullsLast)
  }

  /** Ascending unless DESC; by default NULLs are largest (last ascending, first descending);
      NULLS LAST and NULLS FIRST override the default whatever the direction. */
  lemma StrategyPlacesNulls(sortbyDir: int, sortbyNulls: int)
    ensures Strategy(sortbyDir, sortbyNulls).asc <==> sortbyDir != SortbyDesc
    ensures Strategy(sortbyDir, SortbyNullsDefault).nullsLast <==> sortbyDir != SortbyDesc
    ensures Strategy(sortbyDir, SortbyNullsDefault).NullsFirst() <==> Strategy(sortbyDir, SortbyNullsDefault).Desc()
    ensures Strategy(sortbyDir, SortbyNullsLast).nullsLast
    ensures sortbyNulls != SortbyNullsDefault && sortbyNulls != SortbyNullsLast ==> Strategy(sortbyDir, sortbyNulls).NullsFirst()
    ensures Strategy(sortbyDir, sortbyNulls).NullsFirst() != Strategy(sortbyDir, sortbyNulls).nullsLast
  {
  }

  /** `SortByKey.__lt__` for two keys of the same strategy. Equal values are never less;
      a NULL is placed by the strategy alone; otherwise the values' own `<`, reversed when
      descending (which raises for values of unrelated types). */
  function KeyLess(s: SortByStrategy, a: Value, b: Value): Result<bool> {
    if PyEq(a, b) then Ok(false)
    else if a.Null? then Ok(s.NullsFirst())
    else if b.Null? then Ok(s.nullsLast)
    else match PyLess(a, b)
      case Ok(lt) => Ok(lt == s.asc)
      case Err(e) => Err(e)
  }

  lemma KeyLessIrreflexive(s: SortByStrategy, a: Value)
    ensures KeyLess(s, a, a) == Ok(false)
  {
  }

  /** NULL placement does not depend on the direction. */
  lemma KeyLessNull(s: SortByStrategy, v: Value)
    requires !v.Null?
    ensures KeyLess(s, Null, v) == Ok(s.NullsFirst())
    ensures KeyLess(s, v, Null) == Ok(s.nullsLast)
  {
  }

  /** Two non-NULL values in their natural order ascending, in the reversed order descending. */
  lemma KeyLessNonNull(s: SortByStrategy, a: Value, b: Value)
    requires !a.Null? && !b.Null? && PyLess(a, b).Ok?
    ensures s.asc ==> KeyLess(s, a, b) == PyLess(a, b)
    ensures s.Desc() ==> KeyLess(s, a, b) == PyLess(b, a)
  {
    PyLessTrichotomy(a, b);
  }

  /** Where it does not raise, the key order is a strict total order up to `==`. */
  lemma KeyLessTrichotomy(s: SortByStrategy, a: Value, b: Value)
    requires KeyLess(s, a, b).Ok?
    ensures KeyLess(s, b, a).Ok?
    ensures PyEq(a, b) ==> !KeyLess(s, a, b).value && !KeyLess(s, b, a).value
    ensures !PyEq(a, b) ==> KeyLess(s, a, b).value != KeyLess(s, b, a).value
  {
    if !a.Null? && !b.Null? && !PyEq(a, b) {
      PyLessTrichotomy(a, b);
    }
  }

  /** Keys that are `==` compare alike with every other key. */
  lemma KeyLessRespectsEq(s: SortByStrategy, a: Value, b: Value, c: Value)
    requires PyEq(a, b)
    ensures KeyLess(s, a, c) == KeyLess(s, b, c)
    ensures KeyLess(s, c, a) == KeyLess(s, c, b)
  {
  }

  lemma KeyLessTransitive(s: SortByStrategy, a: Value, b: Value, c: Value)
    requires KeyLess(s, a, b) == Ok(true) && KeyLess(s, b, c) == Ok(true)
    requires KeyLess(s, a, c).Ok?
    ensures KeyLess(s, a, c) == Ok(true)
  {
    if PyEq(a, c) {
      KeyLessRespectsEq(s, a, c, b);
      KeyLessTrichotomy(s, b, c);
    } else if !a.Null? && !b.Null? && !c.Null? {
      PyLessTrichotomy(a, b);
      PyLessTrichotomy(b, c);
      PyLessTrichotomy(a, c);
      if s.asc {
        PyLessTransitive(a, b, c);
      } else {
        PyLessTransitive(c, b, a);
      }
    }
  }


  // ---------------------------------------------------------------------------
  // Key tuples

  /** One component of a row's sort key: the value an ORDER BY expression evaluates to,
      with the strategy of its ORDER BY item. */
  datatype SortByKey = SortByKey(strat: SortByStrategy, value: Value)

  /** `SortByKey.__eq__`: keys of different strategies are never equal (Python falls back
      to identity); otherwise the values' `==`. */
  predicate KeyEq(x: SortByKey, y: SortByKey) {
    x.strat == y.strat && PyEq(x.value, y.value)
  }

  /** `SortByKey.__lt__`: keys of different strategies do not compare (TypeError). */
  function KeyLt(x: SortByKey, y: SortByKey): Result<bool> {
    if x.strat != y.strat then Err(TypeError) else KeyLess(x.strat, x.value, y.value)
  }

  /** Python's `<` on two tuples: the first position whose keys are not `==` decides;
      when one tuple is a prefix of the other, the shorter is smaller. */
  function TupleLess(a: seq<SortByKey>, b: seq<SortByKey>): Result<bool> {
    if a == [] then Ok(b != [])
    else if b == [] then Ok(false)
    else if KeyEq(a[0], b[0]) then TupleLess(a[1..], b[1..])
    else KeyLt(a[0], b[0])
  }

  /** Python's `==` on two tuples. */
  predicate TupleEq(a: seq<SortByKey>, b: seq<SortByKey>) {
    if a == [] || b == [] then a == b
    else KeyEq(a[0], b[0]) && TupleEq(a[1..], b[1..])
  }

  lemma {:induction false} TupleEqReflexive(a: seq<SortByKey>)
    ensures TupleEq(a, a)
  {
    if a != [] {
      PyEqIsEquivalence(a[0].value, a[0].value, a[0].value);
      TupleEqReflexive(a[1..]);
    }
  }

  lemma {:induction false} TupleEqSymmetricTransitive(a: seq<SortByKey>, b: seq<SortByKey>, c: seq<SortByKey>)
    ensures TupleEq(a, b) ==> TupleEq(b, a)
    ensures TupleEq(a, b) && TupleEq(b, c) ==> TupleEq(a, c)
  {
    if a != [] && b != [] && c != [] {
      PyEqIsEquivalence(a[0].value, b[0].value, c[0].value);
      TupleEqSymmetricTransitive(a[1..], b[1..], c[1..]);
    } else if a != [] && b != [] {
      PyEqIsEquivalence(a[0].value, b[0].value, b[0].value);
      TupleEqSymmetricTransitive(a[1..], b[1..], b[1..]);
    }
  }

  /** Where it does not raise, tuple `<` is a strict total order up to tuple `==`. */
  lemma {:induction false} TupleLessTrichotomy(a: seq<SortByKey>, b: seq<SortByKey>)
    requires TupleLess(a, b).Ok?
    ensures TupleLess(b, a).Ok?
    ensures TupleEq(a, b) ==> !TupleLess(a, b).value && !TupleLess(b, a).value
    ensures !TupleEq(a, b) ==> TupleLess(a, b).value != TupleLess(b, a).value
  {
    if a != [] && b != [] {
      PyEqIsEquivalence(a[0].value, b[0].value, b[0].value);
      if KeyEq(a[0], b[0]) {
        TupleLessTrichotomy(a[1..], b[1..]);
      } else {
        KeyLessTrichotomy(a[0].strat, a[0].value, b[0].value);
      }
    }
  }

  /** Tuples that are `==` compare alike with every other tuple. */
  lemma {:induction false} TupleLessRespectsEq(a: seq<SortByKey>, b: seq<SortByKey>, c: seq<SortByKey>)
    requires TupleEq(a, b)
    ensures TupleLess(a, c) == TupleLess(b, c)
    ensures TupleLess(c, a) == TupleLess(c, b)
  {
    if a != [] && b != [] && c != [] {
      PyEqIsEquivalence(a[0].value, b[0].value, c[0].value);
      PyEqIsEquivalence(b[0].value, a[0].value, c[0].value);
      PyEqIsEquivalence(c[0].value, a[0].value, b[0].value);
      PyEqIsEquivalence(c[0].value, b[0].value, a[0].value);
      KeyLessRespectsEq(a[0].strat, a[0].value, b[0].value, c[0].value);
      TupleLessRespectsEq(a[1..], b[1..], c[1..]);
    }
  }

  lemma {:induction false} TupleLessTransitive(a: seq<SortByKey>, b: seq<SortByKey>, c: seq<SortByKey>)
    requires TupleLess(a, b) == Ok(true) && TupleLess(b, c) == Ok(true)
    requires TupleLess(a, c).Ok?
    ensures TupleLess(a, c) == Ok(true)
  {
    if a != [] {
      var a0, b0, c0 := a[0], b[0], c[0];
      PyEqIsEquivalence(a0.value, b0.value, c0.value);
      PyEqIsEquivalence(b0.value, c0.value, a0.value);
      PyEqIsEquivalence(c0.value, a0.value, b0.value);
      if KeyEq(a0, b0) && KeyEq(b0, c0) {
        TupleLessTransitive(a[1..], b[1..], c[1..]);
      } else if KeyEq(a0, b0) {
        KeyLessRespectsEq(a0.strat, a0.value, b0.value, c0.value);
      } else if KeyEq(b0, c0) {
        KeyLessRespectsEq(a0.strat, b0.value, c0.value, a0.value);
      } else if KeyEq(a0, c0) {
        KeyLessRespectsEq(a0.strat, a0.value, c0.value, b0.value);
        KeyLessTrichotomy(a0.strat, b0.value, c0.value);
      } else {
        KeyLessTransitive(a0.strat, a0.value, b0.value, c0.value);
      }
    }
  }

  // ---------------------------------------------------------------------------
  // Stable sort

  /** An item of the sort, with its key tuple and its position in the input. */
  datatype Keyed<T> = Keyed(item: T, key: seq<SortByKey>, index: nat)

  /** Where a stable sort puts `x` before `y`: a smaller key, or an equal key and an
      earlier input position. */
  predicate Before<T>(x: Keyed<T>, y: Keyed<T>) {
    TupleLess(x.key, y.key) == Ok(true) || (TupleEq(x.key, y.key) && x.index < y.index)
  }

  /** Every two items of `u` have keys that compare without raising, and distinct items
      have distinct positions. */
  ghost predicate Coherent<T>(u: set<Keyed<T>>) {
    forall x, y :: x in u && y in u ==> TupleLess(x.key, y.key).Ok? && (x != y ==> x.index != y.index)
  }

  /** Sorted and stable: each item comes before every later one. */
  predicate SortedStably<T>(xs: seq<Keyed<T>>) {
    forall i, j :: 0 <= i < j < |xs| ==> Before(xs[i], xs[j])
  }

  lemma BeforeTotal<T>(x: Keyed<T>, y: Keyed<T>)
    requires TupleLess(x.key, y.key).Ok? && x.index != y.index
    ensures Before(x, y) != Before(y, x)
  {
    TupleLessTrichotomy(x.key, y.key);
    TupleEqSymmetricTransitive(x.key, y.key, y.key);
    TupleEqSymmetricTransitive(y.key, x.key, x.key);
  }

  lemma BeforeTransitive<T>(x: Keyed<T>, y: Keyed<T>, z: Keyed<T>)
    requires TupleLess(x.key, z.key).Ok?
    requires Before(x, y) && Before(y, z)
    ensures Before(x, z)
  {
    if TupleLess(x.key, y.key) == Ok(true) && TupleLess(y.key, z.key) == Ok(true) {
      TupleLessTransitive(x.key, y.key, z.key);
    } else if TupleLess(x.key, y.key) == Ok(true) {
      TupleLessRespectsEq(y.key, z.key, x.key);
    } else if TupleLess(y.key, z.key) == Ok(true) {
      TupleLessRespectsEq(x.key, y.key, z.key);
    } else {
      TupleEqSymmetricTransitive(x.key, y.key, z.key);
    }
  }

  /** Inserts `x` after every item that comes before it. */
  function InsertSorted<T>(x: Keyed<T>, s: seq<Keyed<T>>): (r: seq<Keyed<T>>)
    ensures |r| == |s| + 1
    ensures x in r && forall i :: 0 <= i < |s| ==> s[i] in r
    ensures forall i :: 0 <= i < |r| ==> r[i] == x || r[i] in s
  {
    if s == [] then [x]
    else if Before(x, s[0]) then [x] + s
    else [s[0]] + InsertSorted(x, s[1..])
  }

  /** Insertion sort by `Before`. */
  function SortKeyed<T>(xs: seq<Keyed<T>>): (r: seq<Keyed<T>>)
    ensures |r| == |xs|
    ensures forall i :: 0 <= i < |xs| ==> xs[i] in r
    ensures forall i :: 0 <= i < |r| ==> r[i] in xs
  {
    if xs == [] then [] else InsertSorted(xs[0], SortKeyed(xs[1..]))
  }

  lemma {:induction false} InsertSortedSorted<T>(u: set<Keyed<T>>, x: Keyed<T>, s: seq<Keyed<T>>)
    requires Coherent(u) && x in u && (forall e :: e in s ==> e in u) && x !in s
    requires SortedStably(s)
    ensures SortedStably(InsertSorted(x, s))
  {
    if s == [] {
    } else if Before(x, s[0]) {
      forall j | 0 <= j < |s| ensures Before(x, s[j]) {
        if j > 0 {
          BeforeTransitive(x, s[0], s[j]);
        }
      }
      ConsSorted(x, s);
    } else {
      BeforeTotal(x, s[0]);
      var rest := InsertSorted(x, s[1..]);
      InsertSortedSorted(u, x, s[1..]);
      forall j | 0 <= j < |rest| ensures Before(s[0], rest[j]) {
        if rest[j] != x {
          var k :| 0 <= k < |s[1..]| && s[1..][k] == rest[j];
          assert s[k + 1] == rest[j];
        }
      }
      ConsSorted(s[0], rest);
    }
  }

  /** An item before every item of a sorted sequence can head it. */
  lemma ConsSorted<T>(h: Keyed<T>, s: seq<Keyed<T>>)
    requires SortedStably(s) && forall j :: 0 <= j < |s| ==> Before(h, s[j])
    ensures SortedStably([h] + s)
  {
    var r := [h] + s;
    forall i, j | 0 <= i < j < |r| ensures Before(r[i], r[j]) {
      assert r[j] == s[j - 1];
      if i > 0 {
        assert r[i] == s[i - 1];
      }
    }
  }

  /** Every two items of the input follow each other in the output by `Before`. */
  lemma {:induction false} SortKeyedSorted<T>(u: set<Keyed<T>>, xs: seq<Keyed<T>>)
    requires Coherent(u) && (forall e :: e in xs ==> e in u)
    requires forall i, j :: 0 <= i < j < |xs| ==> xs[i] != xs[j]
    ensures SortedStably(SortKeyed(xs))
  {
    if xs != [] {
      SortKeyedSorted(u, xs[1..]);
      forall k | 0 <= k < |xs[1..]| ensures xs[1..][k] != xs[0] {
        assert xs[1..][k] == xs[k + 1];
      }
      InsertSortedSorted(u, xs[0], SortKeyed(xs[1..]));
    }
  }

  lemma SortedTail<T>(a: seq<Keyed<T>>)
    requires a != [] && SortedStably(a)
    ensures SortedStably(a[1..])
  {
    forall i, j | 0 <= i < j < |a[1..]| ensures Before(a[1..][i], a[1..][j]) {
      assert a[1..][i] == a[i + 1] && a[1..][j] == a[j + 1];
    }
  }

  /** Two stably sorted arrangements of the same items start with the same item. */
  lemma SortedHeadsAgree<T>(u: set<Keyed<T>>, a: seq<Keyed<T>>, b: seq<Keyed<T>>)
    requires Coherent(u) && a != [] && b != [] && a[0] in u && b[0] in u
    requires b[0] in a && a[0] in b
    requires SortedStably(a) && SortedStably(b)
    ensures a[0] == b[0]
  {
    if a[0] != b[0] {
      var j :| 0 <= j < |b| && b[j] == a[0];
      var i :| 0 <= i < |a| && a[i] == b[0];
      assert Before(a[0], a[i]) && Before(b[0], b[j]);
      BeforeTotal(a[0], b[0]);
      assert false;
    }
  }

  /** Two stably sorted arrangements of the same items are the same sequence: whatever
      stable sorting algorithm runs (Python's `sorted` included), it yields this order. */
  lemma {:induction false} StableSortIsUnique<T>(u: set<Keyed<T>>, a: seq<Keyed<T>>, b: seq<Keyed<T>>)
    requires Coherent(u) && (forall e :: e in a ==> e in u)
    requires multiset(a) == multiset(b)
    requires SortedStably(a) && SortedStably(b)
    ensures a == b
  {
    assert |a| == |multiset(a)| == |b|;
    if a != [] {
      assert a[0] in multiset(b) && b[0] in multiset(a);
      SortedHeadsAgree(u, a, b);
      TailsPermute(a, b);
      SortedTail(a);
      SortedTail(b);
      StableSortIsUnique(u, a[1..], b[1..]);
    }
  }

  lemma TailsPermute<T>(a: seq<T>, b: seq<T>)
    requires a != [] && b != [] && a[0] == b[0] && multiset(a) == multiset(b)
    ensures multiset(a[1..]) == multiset(b[1..])
  {
    assert a == [a[0]] + a[1..] && b == [b[0]] + b[1..];
    assert multiset(a[1..]) == multiset(a) - multiset{a[0]};
    assert multiset(b[1..]) == multiset(b) - multiset{b[0]};
  }

  /** Pairs each item with its key tuple and its input position. */
  function Decorate<T>(items: seq<T>, keys: seq<seq<SortByKey>>, from: nat): (r: seq<Keyed<T>>)
    requires |keys| == |items|
    ensures |r| == |items|
    ensures forall i :: 0 <= i < |r| ==> r[i] == Keyed(items[i], keys[i], from + i)
  {
    if items == [] then [] else [Keyed(items[0], keys[0], from)] + Decorate(items[1..], keys[1..], from + 1)
  }

  function Undecorate<T>(xs: seq<Keyed<T>>): (r: seq<T>)
    ensures |r| == |xs| && forall i :: 0 <= i < |xs| ==> r[i] == xs[i].item
  {
    if xs == [] then [] else [xs[0].item] + Undecorate(xs[1..])
  }

  /** Every two key tuples compare without raising. */
  predicate AllComparable(keys: seq<seq<SortByKey>>) {
    forall i, j :: 0 <= i < |keys| && 0 <= j < |keys| ==> TupleLess(keys[i], keys[j]).Ok?
  }

  /** `sorted(rows, key=...)` on precomputed key tuples: TypeError when two keys do not
      compare, otherwise the items in stable key order. */
  function SortByKeys<T>(items: seq<T>, keys: seq<seq<SortByKey>>): (r: Result<seq<T>>)
    requires |keys| == |items|
    ensures r.Ok? <==> AllComparable(keys)
    ensures r.Ok? ==> |r.value| == |items|
  {
    if !AllComparable(keys) then Err(TypeError)
    else Ok(Undecorate(SortKeyed(Decorate(items, keys, 0))))
  }

  /** What `SortByKeys` returns is the stably sorted arrangement of the decorated input,
      the only one there is. */
  lemma SortByKeysIsStableSort<T>(items: seq<T>, keys: seq<seq<SortByKey>>)
    requires |keys| == |items| && AllComparable(keys)
    ensures var sorted := SortKeyed(Decorate(items, keys, 0));
      && SortedStably(sorted)
      && multiset(sorted) == multiset(Decorate(items, keys, 0))
      && SortByKeys(items, keys) == Ok(Undecorate(sorted))
  {
    var xs := Decorate(items, keys, 0);
    var u := set e: Keyed<T> | e in xs;
    forall x: Keyed<T>, y: Keyed<T> | x in u && y in u ensures TupleLess(x.key, y.key).Ok? && (x != y ==> x.index != y.index) {
      var i :| 0 <= i < |xs| && xs[i] == x;
      var j :| 0 <= j < |xs| && xs[j] == y;
    }
    SortKeyedSorted(u, xs);
    SortKeyedPermutes(xs);
  }

  lemma {:induction false} InsertSortedPermutes<T>(x: Keyed<T>, s: seq<Keyed<T>>)
    ensures multiset(InsertSorted(x, s)) == multiset(s) + multiset{x}
  {
    if s != [] && !Before(x, s[0]) {
      InsertSortedPermutes(x, s[1..]);
      assert s == [s[0]] + s[1..];
    }
  }

  lemma {:induction false} InsertSortedItems<T>(x: Keyed<T>, s: seq<Keyed<T>>)
    ensures multiset(Undecorate(InsertSorted(x, s))) == multiset(Undecorate(s)) + multiset{x.item}
  {
    if s == [] {
    } else if Before(x, s[0]) {
      assert Undecorate([x] + s) == [x.item] + Undecorate(s);
    } else {
      InsertSortedItems(x, s[1..]);
      assert Undecorate(s) == [s[0].item] + Undecorate(s[1..]);
      assert Undecorate([s[0]] + InsertSorted(x, s[1..])) == [s[0].item] + Undecorate(InsertSorted(x, s[1..]));
    }
  }

  lemma {:induction false} SortKeyedPermutes<T>(xs: seq<Keyed<T>>)
    ensures multiset(SortKeyed(xs)) == multiset(xs)
  {
    if xs != [] {
      SortKeyedPermutes(xs[1..]);
      InsertSortedPermutes(xs[0], SortKeyed(xs[1..]));
      assert xs == [xs[0]] + xs[1..];
    }
  }

  lemma {:induction false} SortKeyedItems<T>(xs: seq<Keyed<T>>)
    ensures multiset(Undecorate(SortKeyed(xs))) == multiset(Undecorate(xs))
  {
    if xs != [] {
      SortKeyedItems(xs[1..]);
      InsertSortedItems(xs[0], SortKeyed(xs[1..]));
      assert Undecorate(xs) == [xs[0].item] + Undecorate(xs[1..]);
    }
  }

  lemma {:induction false} UndecorateDecorate<T>(items: seq<T>, keys: seq<seq<SortByKey>>, from: nat)
    requires |keys| == |items|
    ensures Undecorate(Decorate(items, keys, from)) == items
  {
  }

  /** The sorted rows are a permutation of the input rows. */
  lemma SortByKeysPermutes<T>(items: seq<T>, keys: seq<seq<SortByKey>>)
    requires |keys| == |items| && AllComparable(keys)
    ensures multiset(SortByKeys(items, keys).value) == multiset(items)
  {
    SortKeyedItems(Decorate(items, keys, 0));
    UndecorateDecorate(items, keys, 0);
  }

  /** In rows sorted on one ORDER BY item, NULLs come after every other value under NULLS
      LAST (the ascending default) and before every other value under NULLS FIRST. */
  lemma SortedPlacesNulls<T>(xs: seq<Keyed<T>>, s: SortByStrategy, i: int, j: int)
    requires SortedStably(xs) && 0 <= i < j < |xs|
    requires |xs[i].key| == 1 && |xs[j].key| == 1
    requires xs[i].key[0].strat == s && xs[j].key[0].strat == s
    ensures s.nullsLast && xs[i].key[0].value.Null? ==> xs[j].key[0].value.Null?
    ensures s.NullsFirst() && xs[j].key[0].value.Null? ==> xs[i].key[0].value.Null?
  {
    assert Before(xs[i], xs[j]);
    assert xs[i].key[1..] == [] && xs[j].key[1..] == [];
  }
}
