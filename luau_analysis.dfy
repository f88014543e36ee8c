/** Steps 2 to 4 of the analysis: find the local the script returns, the
    expression that defines it, the implementation table registered in that
    expression's call chain, and every method declared on that table. */
module LuauAnalysis {
  import opened Wrappers
  import opened LuauAst
  import opened LuauComments

  /* ---------- step 2a: the returned local ---------- */

  /** The locals that some return reachable through nested `do` blocks hands
      back as its first value. */
  function ReturnedLocals(body: seq<Stat>): set<Local>
    decreases body
  {
    if body == [] then {}
    else
      var here :=
        match body[0]
        case StatBlock(inner) => ReturnedLocals(inner)
        case StatReturn(list) => if |list| > 0 && list[0].ExprLocal? then {list[0].local} else {}
        case _ => {};
      here + ReturnedLocals(body[1..])
  }

  /** find_return_local: scans the statements in order. A `do` block ends the
      scan with the block's own result; a return ends it with nothing when it
      returns no value and with the local when its first value is a local; a
      return of anything else is passed over. */
  function FindReturnLocal(body: seq<Stat>): (r: Option<Local>)
    ensures r.Some? ==> r.value in ReturnedLocals(body)
    decreases body
  {
    if body == [] then None
    else
      match body[0]
      case StatBlock(inner) => FindReturnLocal(inner)
      case StatReturn(list) =>
        if |list| == 0 then None
        else if list[0].ExprLocal? then Some(list[0].local)
        else FindReturnLocal(body[1..])
      case _ => FindReturnLocal(body[1..])
  }

  /** The statements that end find_return_local's scan. */
  predicate Decisive(s: Stat) {
    s.StatBlock? || (s.StatReturn? && (|s.list| == 0 || s.list[0].ExprLocal?))
  }

  /** What a decisive statement yields. */
  function DecidedBy(s: Stat): Option<Local>
    requires Decisive(s)
  {
    match s
    case StatBlock(inner) => FindReturnLocal(inner)
    case StatReturn(list) => if |list| == 0 then None else Some(list[0].local)
  }

  /** The first decisive statement alone determines the result: later
      statements are never looked at. */
  lemma {:induction false} FirstDecisiveDecides(body: seq<Stat>, k: nat)
    requires k < |body| && Decisive(body[k])
    requires forall j :: 0 <= j < k ==> !Decisive(body[j])
    ensures FindReturnLocal(body) == DecidedBy(body[k])
  {
    if k > 0 {
      assert !Decisive(body[0]);
      FirstDecisiveDecides(body[1..], k - 1);
    }
  }

  /** Without a decisive statement there is no returned local. */
  lemma {:induction false} NoDecisiveNoLocal(body: seq<Stat>)
    requires forall j :: 0 <= j < |body| ==> !Decisive(body[j])
    ensures FindReturnLocal(body) == None
  {
    if body != [] {
      assert !Decisive(body[0]);
      NoDecisiveNoLocal(body[1..]);
    }
  }

  /* ---------- the visiting order ---------- */

  /** The statement kind a visitor overrides `visit` for. Its override returns
      false, so the traversal does not descend into a matched statement. */
  datatype Target = LocalDeclarations | FunctionDeclarations

  predicate Matches(t: Target, s: Stat) {
    match t
    case LocalDeclarations => s.StatLocal?
    case FunctionDeclarations => s.StatFunction?
  }

  /** The matched statements, in the order a full AstVisitor traversal reaches
      them (pre-order, children left to right). Type annotations are not
      part of this syntax tree, so a function body inside a `typeof(...)`
      annotation is not visited. */
  function VisitStats(t: Target, ss: seq<Stat>): (r: seq<Stat>)
    ensures forall s :: s in r ==> Matches(t, s)
    decreases ss
  {
    if ss == [] then [] else VisitStat(t, ss[0]) + VisitStats(t, ss[1..])
  }

  function VisitStat(t: Target, s: Stat): (r: seq<Stat>)
    ensures forall x :: x in r ==> Matches(t, x)
    decreases s
  {
    if Matches(t, s) then [s]
    else
      match s
      case StatBlock(body) => VisitStats(t, body)
      case StatIf(c, thenBody, elseBody) => VisitExpr(t, c) + VisitStats(t, thenBody) + VisitStats(t, elseBody)
      case StatWhile(c, body) => VisitExpr(t, c) + VisitStats(t, body)
      case StatRepeat(body, c) => VisitExpr(t, c) + VisitStats(t, body)
      case StatReturn(list) => VisitExprs(t, list)
      case StatExpr(e) => VisitExpr(t, e)
      case StatLocal(_, values) => VisitExprs(t, values)
      case StatFor(_, a, b, step, body) =>
        VisitExpr(t, a) + VisitExpr(t, b) + (if step.Some? then VisitExpr(t, step.value) else []) + VisitStats(t, body)
      case StatForIn(_, values, body) => VisitExprs(t, values) + VisitStats(t, body)
      case StatAssign(targets, values) => VisitExprs(t, targets) + VisitExprs(t, values)
      case StatCompoundAssign(target, value) => VisitExpr(t, target) + VisitExpr(t, value)
      case StatFunction(decl) => VisitExpr(t, decl.name) + VisitStats(t, decl.func.body)
      case StatLocalFunction(_, func) => VisitStats(t, func.body)
      case StatOther => []
  }

  function VisitExprs(t: Target, es: seq<Expr>): (r: seq<Stat>)
    ensures forall x :: x in r ==> Matches(t, x)
    decreases es
  {
    if es == [] then [] else VisitExpr(t, es[0]) + VisitExprs(t, es[1..])
  }

  function VisitItems(t: Target, items: seq<TableItem>): (r: seq<Stat>)
    ensures forall x :: x in r ==> Matches(t, x)
    decreases items
  {
    if items == [] then [] else VisitItem(t, items[0]) + VisitItems(t, items[1..])
  }

  function VisitItem(t: Target, item: TableItem): (r: seq<Stat>)
    ensures forall x :: x in r ==> Matches(t, x)
    decreases item
  {
    (match item.key case Some(k) => VisitExpr(t, k) case None => []) + VisitExpr(t, item.value)
  }

  function VisitExpr(t: Target, e: Expr): (r: seq<Stat>)
    ensures forall x :: x in r ==> Matches(t, x)
    decreases e
  {
    match e
    case ExprCall(func, args, _) => VisitExpr(t, func) + VisitExprs(t, args)
    case ExprIndexName(base, _, _) => VisitExpr(t, base)
    case ExprIndexExpr(indexed, key) => VisitExpr(t, indexed) + VisitExpr(t, key)
    case ExprFunction(f) => VisitStats(t, f.body)
    case ExprTable(items) => VisitItems(t, items)
    case ExprUnary(operand) => VisitExpr(t, operand)
    case ExprBinary(left, right) => VisitExpr(t, left) + VisitExpr(t, right)
    case ExprGroup(inner) => VisitExpr(t, inner)
    case ExprTypeAssertion(asserted, _) => VisitExpr(t, asserted)
    case ExprIfElse(c, a, b) => VisitExpr(t, c) + VisitExpr(t, a) + VisitExpr(t, b)
    case _ => []
  }

  /* ---------- step 2b: the definition of the returned local ---------- */

  /** The values a `local` statement binds to `l` among its first `n` index
      pairs, in index order. */
  function BindingsUpTo(l: Local, vars: seq<Local>, values: seq<Expr>, n: nat): (r: seq<Expr>)
    requires n <= |vars| && n <= |values|
    ensures forall e :: e in r <==> exists i :: 0 <= i < n && SameLocal(vars[i], l) && values[i] == e
  {
    if n == 0 then []
    else BindingsUpTo(l, vars, values, n - 1) + (if SameLocal(vars[n - 1], l) then [values[n - 1]] else [])
  }

  /** The pairs a `local` statement offers: only indices both lists have. */
  function StatBindings(l: Local, s: Stat): seq<Expr> {
    match s
    case StatLocal(vars, values) =>
      BindingsUpTo(l, vars, values, if |vars| < |values| then |vars| else |values|)
    case _ => []
  }

  /** Every binding of `l` in the visited statements, in visiting order. */
  function AllBindings(l: Local, nodes: seq<Stat>): seq<Expr> {
    if nodes == [] then []
    else AllBindings(l, nodes[..|nodes| - 1]) + StatBindings(l, nodes[|nodes| - 1])
  }

  /** `prev` overwritten by each of `s` in turn. */
  function LastOr(prev: Option<Expr>, s: seq<Expr>): Option<Expr> {
    if s == [] then prev else Some(s[|s| - 1])
  }

  /** The expression a full visit of the root with LocalDefinitionFinder
      leaves in `result`: the last value bound to `l`. */
  function Definition(root: seq<Stat>, l: Local): Option<Expr> {
    LastOr(None, AllBindings(l, VisitStats(LocalDeclarations, root)))
  }

  /** A value is among the bindings exactly when some visited `local`
      statement pairs a variable identical to `l` with it at an index both of
      its lists have. */
  lemma {:induction false} AllBindingsIff(l: Local, nodes: seq<Stat>, e: Expr)
    ensures e in AllBindings(l, nodes) <==>
      exists k, i :: 0 <= k < |nodes| && nodes[k].StatLocal? &&
        0 <= i < |nodes[k].vars| && i < |nodes[k].values| &&
        SameLocal(nodes[k].vars[i], l) && nodes[k].values[i] == e
  {
    if nodes != [] {
      var init := nodes[..|nodes| - 1];
      AllBindingsIff(l, init, e);
      assert forall k :: 0 <= k < |init| ==> init[k] == nodes[k];
    }
  }

  /** Identity, not name, decides: locals with the same id have the same
      definition, whatever they are called. */
  lemma {:induction false} DefinitionByIdentity(root: seq<Stat>, a: Local, b: Local)
    requires a.id == b.id
    ensures Definition(root, a) == Definition(root, b)
  {
    var nodes := VisitStats(LocalDeclarations, root);
    AllBindingsSameLocal(nodes, a, b);
  }

  lemma {:induction false} AllBindingsSameLocal(nodes: seq<Stat>, a: Local, b: Local)
    requires a.id == b.id
    ensures AllBindings(a, nodes) == AllBindings(b, nodes)
  {
    if nodes != [] {
      AllBindingsSameLocal(nodes[..|nodes| - 1], a, b);
      var last := nodes[|nodes| - 1];
      if last.StatLocal? {
        var n := if |last.vars| < |last.values| then |last.vars| else |last.values|;
        BindingsSameLocal(last.vars, last.values, n, a, b);
      }
    }
  }

  lemma {:induction false} BindingsSameLocal(vars: seq<Local>, values: seq<Expr>, n: nat, a: Local, b: Local)
    requires n <= |vars| && n <= |values| && a.id == b.id
    ensures BindingsUpTo(a, vars, values, n) == BindingsUpTo(b, vars, values, n)
  {
    if n > 0 {
      BindingsSameLocal(vars, values, n - 1, a, b);
    }
  }

  /** LocalDefinitionFinder. */
  class LocalDefinitionFinder {
    const local: Local
    var result: Option<Expr>

    constructor (local: Local)
      ensures this.local == local && result == None
    {
      this.local := local;
      result := None;
    }

    /** visit(AstStatLocal*): every index pair both lists have whose variable
        is `local` overwrites `result`; the traversal does not descend. */
    method Visit(node: Stat) returns (descend: bool)
      requires node.StatLocal?
      modifies this
      ensures !descend
      ensures result == LastOr(old(result), StatBindings(local, node))
    {
      var i := 0;
      while i < |node.vars| && i < |node.values|
        invariant 0 <= i <= |node.vars| && i <= |node.values|
        invariant result == LastOr(old(result), BindingsUpTo(local, node.vars, node.values, i))
      {
        if SameLocal(node.vars[i], local) {
          result := Some(node.values[i]);
        }
        i := i + 1;
      }
      return false;
    }
  }

  /** Folding LastOr over consecutive pieces is LastOr over their concatenation. */
  lemma LastOrAppend(prev: Option<Expr>, a: seq<Expr>, b: seq<Expr>)
    ensures LastOr(LastOr(prev, a), b) == LastOr(prev, a + b)
  {
    if b != [] {
      assert (a + b)[|a + b| - 1] == b[|b| - 1];
    }
  }

  /** root->visit(&finder): the finder's `visit` applied to each matched
      statement in visiting order. */
  method FindDefinition(root: seq<Stat>, l: Local) returns (definition: Option<Expr>)
    ensures definition == Definition(root, l)
  {
    var finder := new LocalDefinitionFinder(l);
    var nodes := VisitStats(LocalDeclarations, root);
    var k := 0;
    while k < |nodes|
      invariant 0 <= k <= |nodes|
      invariant finder.local == l
      invariant finder.result == LastOr(None, AllBindings(l, nodes[..k]))
    {
      assert nodes[k] in nodes;
      var _ := finder.Visit(nodes[k]);
      LastOrAppend(None, AllBindings(l, nodes[..k]), StatBindings(l, nodes[k]));
      assert nodes[..k + 1][..k] == nodes[..k];
      k := k + 1;
    }
    assert nodes[..k] == nodes;
    definition := finder.result;
  }

  /* ---------- step 3: the call chain ---------- */

  const RegisterImplName: string := "RegisterImpl"

  /** The implementation table a call registers, when it is
      `<expr>:RegisterImpl(<local>, ...)`. */
  function Registered(call: Expr): Option<Local>
    requires call.ExprCall?
  {
    match call.func
    case ExprIndexName(_, index, op) =>
      if op == ':' && index == RegisterImplName && |call.args| >= 1 && call.args[0].ExprLocal?
      then Some(call.args[0].local) else None
    case _ => None
  }

  /** The calls the chain walk visits: the expression itself if it is a call,
      then, while the callee is an index expression, its base if that is a
      call. */
  function ChainLinks(e: Expr): (r: seq<Expr>)
    ensures forall c :: c in r ==> c.ExprCall?
  {
    if !e.ExprCall? then []
    else if e.func.ExprIndexName? then [e] + ChainLinks(e.func.base)
    else [e]
  }

  /** The table the walk finds: what the first registering link registers. */
  function ChainImpl(e: Expr): Option<Local> {
    if !e.ExprCall? then None
    else if Registered(e).Some? then Registered(e)
    else if e.func.ExprIndexName? then ChainImpl(e.func.base)
    else None
  }

  /** The walk succeeds exactly when some link registers a table, and then
      it returns the table of the first such link. */
  lemma {:induction false} ChainImplFirstRegistering(e: Expr)
    ensures ChainImpl(e).Some? <==> exists k :: 0 <= k < |ChainLinks(e)| && Registered(ChainLinks(e)[k]).Some?
    ensures ChainImpl(e).Some? ==>
      exists k :: 0 <= k < |ChainLinks(e)| && ChainImpl(e) == Registered(ChainLinks(e)[k]) &&
        forall j :: 0 <= j < k ==> Registered(ChainLinks(e)[j]).None?
  {
    if e.ExprCall? && e.func.ExprIndexName? {
      ChainImplFirstRegistering(e.func.base);
      var links := ChainLinks(e);
      assert links == [e] + ChainLinks(e.func.base);
      if Registered(e).Some? {
        assert Registered(links[0]).Some?;
      } else {
        assert forall k :: 1 <= k < |links| ==> links[k] == ChainLinks(e.func.base)[k - 1];
        if ChainImpl(e).Some? {
          var k :| 0 <= k < |ChainLinks(e.func.base)| && ChainImpl(e.func.base) == Registered(ChainLinks(e.func.base)[k]) &&
            forall j :: 0 <= j < k ==> Registered(ChainLinks(e.func.base)[j]).None?;
          assert ChainImpl(e) == Registered(links[k + 1]);
        }
        if exists k :: 0 <= k < |links| && Registered(links[k]).Some? {
          var k :| 0 <= k < |links| && Registered(links[k]).Some?;
          assert k != 0;
          assert Registered(ChainLinks(e.func.base)[k - 1]).Some?;
        }
      }
    }
  }

  /** The `while (chained_call)` loop. */
  method WalkChain(definition: Expr) returns (impl: Option<Local>)
    ensures impl == ChainImpl(definition)
  {
    var chained := definition;
    while chained.ExprCall?
      invariant ChainImpl(chained) == ChainImpl(definition)
      decreases chained
    {
      match chained.func {
        case ExprIndexName(base, index, op) =>
          if op == ':' && index == RegisterImplName && |chained.args| >= 1 && chained.args[0].ExprLocal? {
            return Some(chained.args[0].local);
          }
          chained := base;
        case _ =>
          return None;
      }
    }
    return None;
  }

  /* ---------- step 4: the methods ---------- */

  /** The method name a declaration `function <impl>.<name>` or
      `function <impl>:<name>` gives, when its base is the local `impl`. */
  function MethodKey(impl: Local, decl: FunctionStat): Option<string> {
    match decl.name
    case ExprIndexName(ExprLocal(l), index, _) => if SameLocal(l, impl) then Some(index) else None
    case _ => None
  }

  /** TypesMethodsFinder. */
  class TypesMethodsFinder {
    const impl: Local
    var methods: map<string, FunctionStat>

    constructor (impl: Local)
      ensures this.impl == impl && methods == map[]
    {
      this.impl := impl;
      methods := map[];
    }

    /** visit(AstStatFunction*): records the declaration under its name when
        it is declared on `impl`; the traversal does not descend. */
    method Visit(node: Stat) returns (descend: bool)
      requires node.StatFunction?
      modifies this
      ensures !descend
      ensures methods == match MethodKey(impl, node.decl)
        case Some(name) => old(methods)[name := node.decl]
        case None => old(methods)
    {
      match node.decl.name {
        case ExprIndexName(base, index, _) =>
          if base.ExprLocal? && SameLocal(base.local, impl) {
            methods := methods[index := node.decl];
          }
        case _ =>
      }
      return false;
    }
  }

  /** The map a full visit leaves: each visited declaration on `impl` stored
      under its name, later ones overwriting earlier ones. */
  function Harvest(impl: Local, nodes: seq<Stat>): map<string, FunctionStat>
    requires forall s :: s in nodes ==> s.StatFunction?
  {
    if nodes == [] then map[]
    else
      var last := nodes[|nodes| - 1];
      var m := Harvest(impl, nodes[..|nodes| - 1]);
      match MethodKey(impl, last.decl)
      case Some(name) => m[name := last.decl]
      case None => m
  }

  /** Every name declared on `impl` is harvested, and it maps to the last
      declaration of that name in visiting order. */
  lemma {:induction false} HarvestLastWins(impl: Local, nodes: seq<Stat>, name: string)
    requires forall s :: s in nodes ==> s.StatFunction?
    ensures name in Harvest(impl, nodes) <==>
      exists k :: 0 <= k < |nodes| && MethodKey(impl, nodes[k].decl) == Some(name)
    ensures name in Harvest(impl, nodes) ==>
      exists k :: 0 <= k < |nodes| && Harvest(impl, nodes)[name] == nodes[k].decl &&
        MethodKey(impl, nodes[k].decl) == Some(name) &&
        forall j :: k < j < |nodes| ==> MethodKey(impl, nodes[j].decl) != Some(name)
  {
    if nodes != [] {
      var init := nodes[..|nodes| - 1];
      assert forall s :: s in init ==> s in nodes;
      HarvestLastWins(impl, init, name);
      assert forall k :: 0 <= k < |init| ==> init[k] == nodes[k];
    }
  }

  /** root->visit(&types_methods_finder). */
  method HarvestMethods(root: seq<Stat>, impl: Local) returns (methods: map<string, FunctionStat>)
    ensures methods == Harvest(impl, VisitStats(FunctionDeclarations, root))
  {
    var finder := new TypesMethodsFinder(impl);
    var nodes := VisitStats(FunctionDeclarations, root);
    var k := 0;
    while k < |nodes|
      invariant 0 <= k <= |nodes|
      invariant finder.impl == impl
      invariant forall s :: s in nodes[..k] ==> s.StatFunction?
      invariant finder.methods == Harvest(impl, nodes[..k])
    {
      assert nodes[k] in nodes;
      var _ := finder.Visit(nodes[k]);
      assert nodes[..k + 1][..k] == nodes[..k];
      k := k + 1;
    }
    assert nodes[..k] == nodes;
    methods := finder.methods;
  }

  /* ---------- the whole analysis ---------- */

  /** LuauScriptAnalysisResult, filled in place by the analysis. */
  class AnalysisResult {
    var comments: seq<SourceComment>
    var definition: Option<Local>
    var impl: Option<Local>
    var methods: map<string, FunctionStat>

    constructor ()
      ensures comments == [] && definition == None && impl == None && methods == map[]
    {
      comments := [];
      definition := None;
      impl := None;
      methods := map[];
    }
  }

  /** The expression that defines the returned local, if both exist. */
  function DefiningExpr(root: seq<Stat>): Option<Expr> {
    match FindReturnLocal(root)
    case None => None
    case Some(l) => Definition(root, l)
  }

  /** Step 1 of luascript_analyze: one comment per token the lexer did not
      mark broken, classified from the start of its line. */
  method CollectComments(src: CString, tokens: seq<CommentToken>) returns (comments: seq<SourceComment>)
    requires forall t :: t in tokens ==> ValidToken(src, LineOffsets(src), t)
    ensures comments == ExtractComments(src, LineOffsets(src), tokens)
  {
    var offsets := BuildLineOffsets(src);
    comments := [];
    var i := 0;
    while i < |tokens|
      invariant 0 <= i <= |tokens|
      invariant comments == ExtractComments(src, offsets, tokens[..i])
    {
      var token := tokens[i];
      assert token in tokens;
      assert tokens[..i + 1][..i] == tokens[..i];
      if token.lexeme.BrokenComment? {
        i := i + 1;
        continue;
      }
      var comment := CommentFromToken(src, offsets, token);
      comments := comments + [comment];
      i := i + 1;
    }
    assert tokens[..i] == tokens;
  }

  /** luascript_analyze. */
  method LuauScriptAnalyze(src: CString, parse: ParseResult, result: AnalysisResult) returns (ok: bool)
    requires forall t :: t in parse.commentLocations ==> ValidToken(src, LineOffsets(src), t)
    modifies result
    ensures result.comments ==
      old(result.comments) + ExtractComments(src, LineOffsets(src), parse.commentLocations)
    ensures result.definition == FindReturnLocal(parse.root)
    ensures result.impl ==
      if DefiningExpr(parse.root).Some? && ChainImpl(DefiningExpr(parse.root).value).Some?
      then ChainImpl(DefiningExpr(parse.root).value) else old(result.impl)
    ensures ok <==> DefiningExpr(parse.root).Some? && result.impl.Some?
    ensures ok ==> result.methods == Harvest(result.impl.value, VisitStats(FunctionDeclarations, parse.root))
    ensures !ok ==> result.methods == old(result.methods)
  {
    // Step 1: comments.
    var comments := CollectComments(src, parse.commentLocations);
    result.comments := result.comments + comments;

    // Step 2: the returned local and its definition.
    result.definition := FindReturnLocal(parse.root);
    if result.definition.None? {
      return false;
    }
    var definition := FindDefinition(parse.root, result.definition.value);
    if definition.None? {
      return false;
    }

    // Step 3: the implementation table.
    var found := WalkChain(definition.value);
    if found.Some? {
      result.impl := found;
    }
    if result.impl.None? {
      return false;
    }

    // Step 4: the methods.
    result.methods := HarvestMethods(parse.root, result.impl.value);
    return true;
  }

  /* ---------- two scripts ---------- */

  /** `local Impl = {}`. */
  function ImplDecl(impl: Local): Stat {
    StatLocal([impl], [ExprTable([])])
  }

  /** `Class.new():RegisterImpl(Impl)`. */
  function IdiomaticRegister(impl: Local): Expr {
    var newCall := ExprCall(ExprIndexName(ExprGlobal("Class"), "new", '.'), [], false);
    ExprCall(ExprIndexName(newCall, RegisterImplName, ':'), [ExprLocal(impl)], true)
  }

  /** `local Def = Class.new():RegisterImpl(Impl)`. */
  function DefDecl(impl: Local, def: Local): Stat {
    StatLocal([def], [IdiomaticRegister(impl)])
  }

  /** `function Impl.Greet(...) ... end`. */
  function GreetDecl(impl: Local, greet: FunctionExpr): Stat {
    StatFunction(FunctionStat(ExprIndexName(ExprLocal(impl), "Greet", '.'), greet))
  }

  /** The idiomatic class script: the table, the registering definition, one
      method on the table, and `return Def`. */
  function IdiomaticScript(impl: Local, def: Local, greet: FunctionExpr): seq<Stat> {
    [ImplDecl(impl), DefDecl(impl, def), GreetDecl(impl, greet), StatReturn([ExprLocal(def)])]
  }

  lemma VisitStatsSingle(t: Target, s: Stat)
    ensures VisitStats(t, [s]) == VisitStat(t, s)
  {
    assert [s][1..] == [];
  }

  lemma {:induction false} VisitStatsAppend(t: Target, a: seq<Stat>, b: seq<Stat>)
    ensures VisitStats(t, a + b) == VisitStats(t, a) + VisitStats(t, b)
  {
    if a == [] {
      assert a + b == b;
    } else {
      var ab := a + b;
      assert ab[0] == a[0] && ab[1..] == a[1..] + b;
      assert VisitStats(t, ab) == VisitStat(t, a[0]) + VisitStats(t, a[1..] + b);
      VisitStatsAppend(t, a[1..], b);
      assert VisitStat(t, a[0]) + (VisitStats(t, a[1..]) + VisitStats(t, b)) ==
        (VisitStat(t, a[0]) + VisitStats(t, a[1..])) + VisitStats(t, b);
    }
  }

  /** None of the script's expressions holds a statement. */
  lemma IdiomaticExpressionsAreLeaves(t: Target, impl: Local, def: Local)
    ensures VisitExprs(t, [ExprLocal(def)]) == [] && VisitExprs(t, [ExprTable([])]) == []
    ensures VisitExprs(t, [IdiomaticRegister(impl)]) == []
    ensures VisitExpr(t, ExprIndexName(ExprLocal(impl), "Greet", '.')) == []
  {
    assert [ExprLocal(def)][1..] == [] && [ExprLocal(impl)][1..] == [] && [ExprTable([])][1..] == [];
    var register := IdiomaticRegister(impl);
    var newCall := ExprCall(ExprIndexName(ExprGlobal("Class"), "new", '.'), [], false);
    assert register == ExprCall(ExprIndexName(newCall, RegisterImplName, ':'), [ExprLocal(impl)], true);
    assert VisitExpr(t, ExprIndexName(ExprGlobal("Class"), "new", '.')) == [];
    assert VisitExprs(t, []) == [];
    assert VisitExpr(t, ExprLocal(impl)) == [];
    assert VisitExprs(t, [ExprLocal(impl)]) == VisitExpr(t, ExprLocal(impl)) + VisitExprs(t, []);
    assert VisitExpr(t, newCall) == [];
    assert VisitExpr(t, ExprIndexName(newCall, RegisterImplName, ':')) == [];
    assert VisitExpr(t, register) == [];
    assert [register][1..] == [];
  }

  /** What each visitor reaches in each statement of the script. */
  lemma IdiomaticStatVisits(t: Target, impl: Local, def: Local, greet: FunctionExpr)
    requires greet.body == []
    ensures VisitStat(t, ImplDecl(impl)) == if t == LocalDeclarations then [ImplDecl(impl)] else []
    ensures VisitStat(t, DefDecl(impl, def)) == if t == LocalDeclarations then [DefDecl(impl, def)] else []
    ensures VisitStat(t, GreetDecl(impl, greet)) == if t == LocalDeclarations then [] else [GreetDecl(impl, greet)]
    ensures VisitStat(t, StatReturn([ExprLocal(def)])) == []
  {
    IdiomaticExpressionsAreLeaves(t, impl, def);
    assert VisitStats(t, greet.body) == [];
  }

  /** The statements each visitor of the analysis reaches in the script. */
  lemma IdiomaticVisits(t: Target, impl: Local, def: Local, greet: FunctionExpr)
    requires greet.body == []
    ensures VisitStats(t, IdiomaticScript(impl, def, greet)) ==
      if t == LocalDeclarations then [ImplDecl(impl), DefDecl(impl, def)] else [GreetDecl(impl, greet)]
  {
    var s0, s1, s2, s3 := ImplDecl(impl), DefDecl(impl, def), GreetDecl(impl, greet), StatReturn([ExprLocal(def)]);
    assert IdiomaticScript(impl, def, greet) == [s0] + [s1] + [s2] + [s3];
    VisitStatsAppend(t, [s0] + [s1] + [s2], [s3]);
    VisitStatsAppend(t, [s0] + [s1], [s2]);
    VisitStatsAppend(t, [s0], [s1]);
    VisitStatsSingle(t, s0);
    VisitStatsSingle(t, s1);
    VisitStatsSingle(t, s2);
    VisitStatsSingle(t, s3);
    IdiomaticStatVisits(t, impl, def, greet);
  }

  /** The idiomatic script returns `Def`. */
  lemma IdiomaticReturn(impl: Local, def: Local, greet: FunctionExpr)
    ensures FindReturnLocal(IdiomaticScript(impl, def, greet)) == Some(def)
  {
    var root := IdiomaticScript(impl, def, greet);
    var r1, r2, r3 := root[1..], root[2..], root[3..];
    assert r1[1..] == r2 && r2[1..] == r3 && r3[1..] == [];
    assert FindReturnLocal(r3) == Some(def);
    assert FindReturnLocal(root) == FindReturnLocal(r1) == FindReturnLocal(r2) == FindReturnLocal(r3);
  }

  /** `Def` is defined by the registering call, and that call registers
      `Impl`. */
  lemma IdiomaticDefinition(impl: Local, def: Local, greet: FunctionExpr)
    requires impl.id != def.id && greet.body == []
    ensures Definition(IdiomaticScript(impl, def, greet), def) == Some(IdiomaticRegister(impl))
    ensures ChainImpl(IdiomaticRegister(impl)) == Some(impl)
  {
    IdiomaticVisits(LocalDeclarations, impl, def, greet);
    var nodes := [ImplDecl(impl), DefDecl(impl, def)];
    assert nodes[..1] == [ImplDecl(impl)] && [ImplDecl(impl)][..0] == [];
    assert BindingsUpTo(def, [impl], [ExprTable([])], 1) == [];
    assert StatBindings(def, ImplDecl(impl)) == [];
    assert AllBindings(def, [ImplDecl(impl)]) == [];
    assert BindingsUpTo(def, [def], [IdiomaticRegister(impl)], 1) == [IdiomaticRegister(impl)];
    assert StatBindings(def, DefDecl(impl, def)) == [IdiomaticRegister(impl)];
    assert AllBindings(def, nodes) == [IdiomaticRegister(impl)];
  }

  /** The methods found on `Impl`: only `Greet`. */
  lemma IdiomaticMethods(impl: Local, def: Local, greet: FunctionExpr)
    requires greet.body == []
    ensures Harvest(impl, VisitStats(FunctionDeclarations, IdiomaticScript(impl, def, greet))) ==
      map["Greet" := GreetDecl(impl, greet).decl]
  {
    IdiomaticVisits(FunctionDeclarations, impl, def, greet);
    var g := GreetDecl(impl, greet);
    assert [g][..0] == [];
    assert MethodKey(impl, g.decl) == Some("Greet");
    assert Harvest(impl, [g]) == Harvest(impl, [])["Greet" := g.decl];
  }

  /** Registering in the return statement itself, as in
      `return Def:RegisterImpl(Impl)`, is not understood: the returned value
      is a call, not a local, so no class is found. */
  lemma ReturnOfRegisterCallFails(impl: Local, def: Local)
    ensures var register := ExprCall(ExprIndexName(ExprLocal(def), RegisterImplName, ':'), [ExprLocal(impl)], true);
      var root := [StatLocal([impl], [ExprTable([])]), StatLocal([def], [ExprTable([])]), StatReturn([register])];
      FindReturnLocal(root) == None && DefiningExpr(root) == None
  {
    var register := ExprCall(ExprIndexName(ExprLocal(def), RegisterImplName, ':'), [ExprLocal(impl)], true);
    var root := [StatLocal([impl], [ExprTable([])]), StatLocal([def], [ExprTable([])]), StatReturn([register])];
    var r1, r2, r3 := root[1..], root[2..], root[3..];
    assert r1[1..] == r2 && r2[1..] == r3 && r3 == [];
    assert FindReturnLocal(r2) == FindReturnLocal(r3) == None;
    assert FindReturnLocal(root) == FindReturnLocal(r1) == FindReturnLocal(r2);
  }
}
