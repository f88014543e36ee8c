/** The binding generator's list filters (bindgen/utils.py): which operators
    of a builtin class are bound and in what order, which singletons belong to
    a class, which methods of a class are bound, and how a property's setter
    and getter are named. The API dump's dictionaries are records here; a
    missing dictionary key that Python would raise KeyError on is None. */
module BindgenFilters {
  import opened Wrappers
  import opened BindgenStrings
  import opened BindgenNames

  /* ---------- order-preserving selection ---------- */

  /** `a` is `b` with some elements left out, order kept. */
  predicate SubsequenceOf<T(==)>(a: seq<T>, b: seq<T>)
    decreases |b|
  {
    a == [] || (b != [] && ((a[0] == b[0] && SubsequenceOf(a[1..], b[1..])) || SubsequenceOf(a, b[1..])))
  }

  lemma {:induction false} SubsequenceOfSelf<T>(a: seq<T>)
    ensures SubsequenceOf(a, a)
  {
    if a != [] {
      SubsequenceOfSelf(a[1..]);
    }
  }

  /** Adding an element at the end of the longer sequence keeps a subsequence. */
  lemma {:induction false} SubsequenceExtend<T>(a: seq<T>, b: seq<T>, x: T)
    requires SubsequenceOf(a, b)
    ensures SubsequenceOf(a, b + [x])
    decreases |b|
  {
    if a != [] {
      assert (b + [x])[1..] == b[1..] + [x];
      if a[0] == b[0] && SubsequenceOf(a[1..], b[1..]) {
        SubsequenceExtend(a[1..], b[1..], x);
      } else {
        SubsequenceExtend(a, b[1..], x);
      }
    }
  }

  /** Adding the same element at the end of both keeps a subsequence. */
  lemma {:induction false} SubsequenceAppendBoth<T>(a: seq<T>, b: seq<T>, x: T)
    requires SubsequenceOf(a, b)
    ensures SubsequenceOf(a + [x], b + [x])
    decreases |b|
  {
    if a == [] {
      if b != [] {
        assert (b + [x])[1..] == b[1..] + [x];
        SubsequenceAppendBoth(a, b[1..], x);
      }
    } else {
      assert (b + [x])[1..] == b[1..] + [x];
      assert (a + [x])[1..] == a[1..] + [x];
      if a[0] == b[0] && SubsequenceOf(a[1..], b[1..]) {
        SubsequenceAppendBoth(a[1..], b[1..], x);
      } else {
        SubsequenceAppendBoth(a, b[1..], x);
      }
    }
  }

  /** A list comprehension with a condition. */
  function Filter<T(==,!new)>(s: seq<T>, p: T -> bool): (r: seq<T>)
    ensures |r| <= |s|
    ensures forall x :: x in r <==> x in s && p(x)
  {
    if s == [] then []
    else (if p(s[0]) then [s[0]] else []) + Filter(s[1..], p)
  }

  lemma {:induction false} FilterIsSubsequence<T(!new)>(s: seq<T>, p: T -> bool)
    ensures SubsequenceOf(Filter(s, p), s)
  {
    if s != [] {
      FilterIsSubsequence(s[1..], p);
      if p(s[0]) {
        assert Filter(s, p) == [s[0]] + Filter(s[1..], p);
        assert Filter(s, p)[1..] == Filter(s[1..], p);
      } else {
        assert Filter(s, p) == Filter(s[1..], p);
      }
    }
  }

  /** The comprehension keeps each accepted element exactly as often as it
      occurs, and no other element. */
  lemma {:induction false} FilterCounts<T(!new)>(s: seq<T>, p: T -> bool)
    ensures forall x :: multiset(Filter(s, p))[x] == if p(x) then multiset(s)[x] else 0
  {
    if s != [] {
      var head := if p(s[0]) then [s[0]] else [];
      FilterCounts(s[1..], p);
      assert s == [s[0]] + s[1..];
      assert multiset(s) == multiset([s[0]]) + multiset(s[1..]);
      assert Filter(s, p) == head + Filter(s[1..], p);
      assert multiset(Filter(s, p)) == multiset(head) + multiset(Filter(s[1..], p));
    }
  }

  lemma {:induction false} FilterAppend<T(!new)>(s: seq<T>, t: seq<T>, p: T -> bool)
    ensures Filter(s + t, p) == Filter(s, p) + Filter(t, p)
  {
    if s == [] {
      assert s + t == t;
    } else {
      var head := if p(s[0]) then [s[0]] else [];
      var st := s + t;
      assert st[0] == s[0] && st[1..] == s[1..] + t;
      assert Filter(st, p) == head + Filter(s[1..] + t, p);
      FilterAppend(s[1..], t, p);
      assert head + (Filter(s[1..], p) + Filter(t, p)) == (head + Filter(s[1..], p)) + Filter(t, p);
    }
  }

  /* ---------- get_operators ---------- */

  /** One entry of a builtin class's operator list. */
  datatype Operator = Operator(name: string, rightType: Option<string>)

  /** The operator names Luau can bind, with their metamethod names. */
  const VariantOpMap: map<string, string> :=
    map["==" := "eq", "<" := "lt", "<=" := "le", "+" := "add", "-" := "sub",
        "*" := "mul", "/" := "div", "%" := "mod", "unary-" := "unm"]

  /** op_priority: unary and most binary operators first, `int` right-hand
      sides next, `Variant` right-hand sides last. */
  function OpPriority(op: Operator): (r: nat)
    ensures r <= 2
  {
    match op.rightType
    case None => 0
    case Some(t) => if t == "int" then 1 else if t == "Variant" then 2 else 0
  }

  function WithPriority(n: nat): Operator -> bool {
    op => OpPriority(op) == n
  }

  /** `sorted(operators, key=op_priority)`: Python's sort is stable, so with
      three keys it is the three priority classes one after another, each in
      input order. */
  function SortByPriority(ops: seq<Operator>): seq<Operator> {
    Filter(ops, WithPriority(0)) + Filter(ops, WithPriority(1)) + Filter(ops, WithPriority(2))
  }

  predicate PriorityOrdered(s: seq<Operator>) {
    forall i, j :: 0 <= i < j < |s| ==> OpPriority(s[i]) <= OpPriority(s[j])
  }

  /** The sort is ordered by priority. */
  lemma SortByPriorityOrdered(ops: seq<Operator>)
    ensures PriorityOrdered(SortByPriority(ops))
  {
    var a, b, c := Filter(ops, WithPriority(0)), Filter(ops, WithPriority(1)), Filter(ops, WithPriority(2));
    var r := a + b + c;
    forall k | 0 <= k < |r|
      ensures OpPriority(r[k]) == if k < |a| then 0 else if k < |a| + |b| then 1 else 2
    {
      if k < |a| {
        assert r[k] == a[k] && a[k] in a;
      } else if k < |a| + |b| {
        assert r[k] == b[k - |a|] && b[k - |a|] in b;
      } else {
        assert r[k] == c[k - |a| - |b|] && c[k - |a| - |b|] in c;
      }
    }
  }

  /** The sort keeps the input order among operators of equal priority. */
  lemma SortByPriorityStable(ops: seq<Operator>, n: nat)
    requires n <= 2
    ensures Filter(SortByPriority(ops), WithPriority(n)) == Filter(ops, WithPriority(n))
  {
    var a, b, c := Filter(ops, WithPriority(0)), Filter(ops, WithPriority(1)), Filter(ops, WithPriority(2));
    var sel := WithPriority(n);
    FilterAppend(a + b, c, sel);
    FilterAppend(a, b, sel);
    FilterOfPriorityClass(ops, 0, n);
    FilterOfPriorityClass(ops, 1, n);
    FilterOfPriorityClass(ops, 2, n);
    var fa, fb, fc := Filter(a, sel), Filter(b, sel), Filter(c, sel);
    assert Filter(SortByPriority(ops), sel) == fa + fb + fc;
    if n == 0 {
      assert fb == [] && fc == [] && fa + fb + fc == fa;
    } else if n == 1 {
      assert fa == [] && fc == [] && fa + fb + fc == fb;
    } else {
      assert fa == [] && fb == [] && fa + fb + fc == fc;
    }
  }

  /** The sort is a permutation of its input. */
  lemma {:induction false} SortPermutation(ops: seq<Operator>)
    ensures multiset(SortByPriority(ops)) == multiset(ops)
  {
    if ops != [] {
      SortPermutation(ops[1..]);
      assert ops == [ops[0]] + ops[1..];
    }
  }

  /** Selecting priority `n` from the class of priority `m`. */
  lemma {:induction false} FilterOfPriorityClass(ops: seq<Operator>, m: nat, n: nat)
    ensures Filter(Filter(ops, WithPriority(m)), WithPriority(n)) ==
      if m == n then Filter(ops, WithPriority(m)) else []
  {
    if ops != [] {
      FilterOfPriorityClass(ops[1..], m, n);
      var head := if WithPriority(m)(ops[0]) then [ops[0]] else [];
      FilterAppend(head, Filter(ops[1..], WithPriority(m)), WithPriority(n));
      if head != [] {
        assert head[1..] == [];
      }
    }
  }

  predicate FloatRight(op: Operator) {
    op.rightType == Some("float")
  }

  predicate IntRight(op: Operator) {
    op.rightType == Some("int")
  }

  /** No `int` right-hand side after a `float` one. */
  predicate NoIntAfterFloatIn(s: seq<Operator>) {
    forall i, j :: 0 <= i < j < |s| ==> !(FloatRight(s[i]) && IntRight(s[j]))
  }

  /** Not both an `int` and a `float` right-hand side. */
  predicate NotBothIntAndFloat(s: seq<Operator>) {
    !((exists o :: o in s && FloatRight(o)) && (exists o :: o in s && IntRight(o)))
  }

  /** Some earlier output operator has a `float` right-hand side. */
  predicate HasFloatOperator(output: seq<Operator>) {
    exists o :: o in output && FloatRight(o)
  }

  /** The filter's decision for one operator, given what is already output. */
  predicate Keep(className: string, op: Operator, output: seq<Operator>) {
    op.name in VariantOpMap &&
    (op.rightType.Some? ==>
      !(op.name == "==" && op.rightType.value != className) &&
      !(op.rightType.value == "int" && HasFloatOperator(output)))
  }

  /** The output the filter loop builds from `ops`, in order. */
  function KeptOperators(className: string, ops: seq<Operator>): (r: seq<Operator>)
    ensures forall o :: o in r ==> o in ops && o.name in VariantOpMap
    ensures forall o :: o in r && o.name == "==" && o.rightType.Some? ==> o.rightType.value == className
    ensures SubsequenceOf(r, ops)
  {
    if ops == [] then []
    else
      var init := ops[..|ops| - 1];
      var op := ops[|ops| - 1];
      var out := KeptOperators(className, init);
      assert ops == init + [op];
      if Keep(className, op, out) then
        SubsequenceAppendBoth(out, init, op);
        out + [op]
      else
        SubsequenceExtend(out, init, op);
        out
  }

  /** An `int` right-hand side never follows a kept `float` one. */
  lemma {:induction false} NoIntAfterFloat(className: string, ops: seq<Operator>)
    ensures NoIntAfterFloatIn(KeptOperators(className, ops))
  {
    if ops != [] {
      var init := ops[..|ops| - 1];
      var op := ops[|ops| - 1];
      NoIntAfterFloat(className, init);
      var out := KeptOperators(className, init);
      var r := KeptOperators(className, ops);
      if Keep(className, op, out) {
        assert r == out + [op];
        forall i, j | 0 <= i < j < |r|
          ensures !(FloatRight(r[i]) && IntRight(r[j]))
        {
          if j == |r| - 1 {
            if FloatRight(r[i]) {
              assert r[i] == out[i] && out[i] in out;
              assert HasFloatOperator(out);
              assert !IntRight(op);
              assert r[j] == op;
            }
          } else {
            assert r[i] == out[i] && r[j] == out[j];
            assert !(FloatRight(out[i]) && IntRight(out[j]));
          }
        }
      }
    }
  }

  /** In a list ordered by priority, no `float` right-hand side comes after an
      `int` one. */
  predicate FloatsBeforeInts(s: seq<Operator>) {
    forall i, j :: 0 <= i < j < |s| ==> !(IntRight(s[i]) && FloatRight(s[j]))
  }

  /** Over such a list, the output never holds both an `int` and a `float`
      right-hand side. */
  lemma {:induction false} IntOrFloatNotBoth(className: string, ops: seq<Operator>)
    requires FloatsBeforeInts(ops)
    ensures NotBothIntAndFloat(KeptOperators(className, ops))
  {
    if ops != [] {
      var init := ops[..|ops| - 1];
      var op := ops[|ops| - 1];
      assert FloatsBeforeInts(init) by {
        forall i, j | 0 <= i < j < |init|
          ensures !(IntRight(init[i]) && FloatRight(init[j]))
        {
          assert init[i] == ops[i] && init[j] == ops[j];
        }
      }
      IntOrFloatNotBoth(className, init);
      var out := KeptOperators(className, init);
      if Keep(className, op, out) && FloatRight(op) {
        forall o | o in out
          ensures !IntRight(o)
        {
          assert o in init;
          var i :| 0 <= i < |init| && init[i] == o;
          assert ops[i] == o;
        }
      }
    }
  }

  /** The filter keeps an operator exactly for its name and `==` rule when
      no operator has a `float` right-hand side. */
  predicate Usable(className: string, op: Operator) {
    op.name in VariantOpMap &&
    (op.rightType.Some? ==> !(op.name == "==" && op.rightType.value != className))
  }

  lemma {:induction false} WithoutFloatsKeepIsUsable(className: string, ops: seq<Operator>)
    requires forall o :: o in ops ==> !FloatRight(o)
    ensures KeptOperators(className, ops) == Filter(ops, (o: Operator) => Usable(className, o))
  {
    if ops != [] {
      var init := ops[..|ops| - 1];
      var op := ops[|ops| - 1];
      var usable := (o: Operator) => Usable(className, o);
      var out := KeptOperators(className, init);
      WithoutFloatsKeepIsUsable(className, init);
      assert ops == init + [op];
      FilterAppend(init, [op], usable);
      assert [op][1..] == [];
      assert Filter([op], usable) == if Usable(className, op) then [op] else [];
      assert !HasFloatOperator(out);
      assert Keep(className, op, out) == Usable(className, op);
    }
  }

  /** An `int` right-hand side at `i` is dropped because some earlier
      operator has a `float` right-hand side and passes the name and `==`
      rules, so it is output before it. */
  predicate BlockedByFloat(className: string, ops: seq<Operator>, i: nat)
    requires i < |ops|
  {
    IntRight(ops[i]) && exists j :: 0 <= j < i && FloatRight(ops[j]) && Usable(className, ops[j])
  }

  /** Every operator that passes the name and `==` rules is output, unless an
      earlier `float` operator blocks it. */
  lemma {:induction false} KeptOperatorsComplete(className: string, ops: seq<Operator>, i: nat)
    requires i < |ops| && Usable(className, ops[i]) && !BlockedByFloat(className, ops, i)
    ensures ops[i] in KeptOperators(className, ops)
  {
    var init := ops[..|ops| - 1];
    var op := ops[|ops| - 1];
    var out := KeptOperators(className, init);
    assert ops == init + [op];
    if i == |ops| - 1 {
      forall o | o in out
        ensures IntRight(op) ==> !FloatRight(o)
      {
        assert o in init && Usable(className, o);
        var j :| 0 <= j < |init| && init[j] == o;
        assert ops[j] == o;
      }
      assert Keep(className, op, out);
      assert KeptOperators(className, ops) == out + [op];
    } else {
      assert init[i] == ops[i];
      assert forall j :: 0 <= j < i ==> init[j] == ops[j];
      assert !BlockedByFloat(className, init, i);
      KeptOperatorsComplete(className, init, i);
      assert ops[i] in out;
    }
  }

  /** get_operators: sort by priority, then keep operators one by one. */
  method GetOperators(className: string, operators: seq<Operator>) returns (output: seq<Operator>)
    ensures output == KeptOperators(className, SortByPriority(operators))
  {
    var sorted := SortByPriority(operators);
    output := [];
    var k := 0;
    while k < |sorted|
      invariant 0 <= k <= |sorted|
      invariant output == KeptOperators(className, sorted[..k])
    {
      var op := sorted[k];
      assert sorted[..k + 1][..k] == sorted[..k];
      k := k + 1;
      if op.name !in VariantOpMap {
        continue;
      }
      if op.rightType.Some? {
        var rightType := op.rightType.value;
        if op.name == "==" && rightType != className {
          continue;
        }
        if rightType == "int" && HasFloatOperator(output) {
          continue;
        }
      }
      output := output + [op];
    }
    assert sorted[..k] == sorted;
  }

  /** What get_operators promises about its result. */
  lemma GetOperatorsResult(className: string, operators: seq<Operator>)
    ensures var r := KeptOperators(className, SortByPriority(operators));
      SubsequenceOf(r, SortByPriority(operators)) &&
      (forall o :: o in r ==> o in operators && o.name in VariantOpMap) &&
      PriorityOrdered(r) && NotBothIntAndFloat(r)
    ensures var sorted := SortByPriority(operators);
      forall i :: 0 <= i < |sorted| && Usable(className, sorted[i]) && !BlockedByFloat(className, sorted, i) ==>
        sorted[i] in KeptOperators(className, sorted)
  {
    var sorted := SortByPriority(operators);
    forall i | 0 <= i < |sorted| && Usable(className, sorted[i]) && !BlockedByFloat(className, sorted, i)
      ensures sorted[i] in KeptOperators(className, sorted)
    {
      KeptOperatorsComplete(className, sorted, i);
    }
    SortByPriorityOrdered(operators);
    IntOrFloatNotBoth(className, sorted);
    KeptKeepsOrder(className, sorted);
  }

  /** The output of a priority-ordered list is priority-ordered. */
  lemma {:induction false} KeptKeepsOrder(className: string, s: seq<Operator>)
    requires PriorityOrdered(s)
    ensures PriorityOrdered(KeptOperators(className, s))
  {
    if s != [] {
      var init := s[..|s| - 1];
      var op := s[|s| - 1];
      KeptKeepsOrder(className, init);
      var out := KeptOperators(className, init);
      var r := KeptOperators(className, s);
      if Keep(className, op, out) {
        assert r == out + [op];
        assert forall m :: 0 <= m < |init| ==> OpPriority(init[m]) <= OpPriority(op) by {
          forall m | 0 <= m < |init|
            ensures OpPriority(init[m]) <= OpPriority(op)
          {
            assert init[m] == s[m];
          }
        }
        assert forall o :: o in init ==> OpPriority(o) <= OpPriority(op);
        assert forall i :: 0 <= i < |out| ==> out[i] in init;
        forall i, j | 0 <= i < j < |r|
          ensures OpPriority(r[i]) <= OpPriority(r[j])
        {
          assert r[i] == out[i];
          if j < |out| {
            assert r[j] == out[j];
          }
        }
      }
    }
  }

  /* ---------- get_singletons ---------- */

  /** One entry of the engine's singleton list. */
  datatype Singleton = Singleton(name: string, stype: string)

  /** get_singletons: the entries whose type is the class, in order. */
  function GetSingletons(className: string, singletons: seq<Singleton>): (r: seq<Singleton>)
    ensures forall s :: s in r <==> s in singletons && s.stype == className
    ensures SubsequenceOf(r, singletons)
    ensures forall s :: multiset(r)[s] == if s.stype == className then multiset(singletons)[s] else 0
  {
    FilterIsSubsequence(singletons, (s: Singleton) => s.stype == className);
    FilterCounts(singletons, (s: Singleton) => s.stype == className);
    Filter(singletons, (s: Singleton) => s.stype == className)
  }

  /* ---------- get_class_methods ---------- */

  datatype MethodEntry = MethodEntry(name: string, isVirtual: bool)

  /** A class of the API dump: `methods` is None when the key is absent. */
  datatype ClassEntry = ClassEntry(name: string, methods: Option<seq<MethodEntry>>)

  /** should_skip: virtual methods, and `get`/`set` of Object. */
  predicate SkipMethod(className: string, m: MethodEntry) {
    m.isVirtual || (className == "Object" && (m.name == "get" || m.name == "set"))
  }

  /** get_class_methods; None where `g_class["methods"]` raises KeyError. */
  function GetClassMethods(gClass: ClassEntry): (r: Option<seq<MethodEntry>>)
    ensures r.None? <==> gClass.methods.None?
    ensures r.Some? ==> forall m :: m in r.value <==>
      m in gClass.methods.value && !m.isVirtual &&
      !(gClass.name == "Object" && (m.name == "get" || m.name == "set"))
    ensures r.Some? ==> SubsequenceOf(r.value, gClass.methods.value)
    ensures r.Some? ==> forall m :: multiset(r.value)[m] ==
                                    if SkipMethod(gClass.name, m) then 0 else multiset(gClass.methods.value)[m]
  {
    match gClass.methods
    case None => None
    case Some(methods) =>
      FilterIsSubsequence(methods, (m: MethodEntry) => !SkipMethod(gClass.name, m));
      FilterCounts(methods, (m: MethodEntry) => !SkipMethod(gClass.name, m));
      Some(Filter(methods, (m: MethodEntry) => !SkipMethod(gClass.name, m)))
  }

  /* ---------- get_property_setget ---------- */

  /** A property of the API dump; absent keys are None. */
  datatype PropertyEntry = PropertyEntry(setter: Option<string>, getter: Option<string>)

  /** has_setget: the class lists a method of exactly this name. */
  predicate HasSetget(gClass: ClassEntry, methodName: string) {
    gClass.methods.Some? && exists m :: m in gClass.methods.value && m.name == methodName
  }

  /** get_actual_setget: the bound name and whether the method was missing. */
  function ActualSetget(gClass: ClassEntry, methodName: string): (r: (string, bool))
    ensures methodName == "" ==> r == ("", false)
    ensures r.1 <==> (methodName != "" && !HasSetget(gClass, methodName) &&
      !HasSetget(gClass, Strip(methodName, '_')))
    ensures r.1 ==> r.0 == ""
    ensures methodName != "" && !r.1 ==>
      exists m :: m in gClass.methods.value && r.0 == SnakeToPascal(m.name) &&
        (m.name == methodName || m.name == Strip(methodName, '_'))
    ensures methodName != "" && HasSetget(gClass, methodName) ==> r == (SnakeToPascal(methodName), false)
    ensures methodName != "" && !HasSetget(gClass, methodName) && HasSetget(gClass, Strip(methodName, '_')) ==>
      r == (SnakeToPascal(Strip(methodName, '_')), false)
  {
    if methodName == "" then ("", false)
    else if HasSetget(gClass, methodName) then (SnakeToPascal(methodName), false)
    else if HasSetget(gClass, Strip(methodName, '_')) then (SnakeToPascal(Strip(methodName, '_')), false)
    else ("", true)
  }

  function OrEmpty(s: Option<string>): string {
    if s.Some? then s.value else ""
  }

  /** get_property_setget: setter name, getter name, setter missing, getter
      missing. */
  function GetPropertySetget(prop: PropertyEntry, gClass: ClassEntry): (r: (string, string, bool, bool))
    ensures prop.setter.None? ==> r.0 == "" && !r.2
    ensures prop.getter.None? ==> r.1 == "" && !r.3
    ensures r.2 ==> r.0 == "" && !HasSetget(gClass, OrEmpty(prop.setter))
    ensures r.3 ==> r.1 == "" && !HasSetget(gClass, OrEmpty(prop.getter))
    ensures gClass.methods.None? ==> (r.2 <==> OrEmpty(prop.setter) != "") && (r.3 <==> OrEmpty(prop.getter) != "")
  {
    var setter := ActualSetget(gClass, OrEmpty(prop.setter));
    var getter := ActualSetget(gClass, OrEmpty(prop.getter));
    (setter.0, getter.0, setter.1, getter.1)
  }
}
