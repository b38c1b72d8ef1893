/** Exactly when a function that is called inert has nothing to mutate: what the gate
    passes over has to be safe too; and every changed function of a file is named or
    counted, never both. */
module MutationScopeProofs {
  import opened Text
  import opened MutationScope

  // ---------- the places of a tree ----------

  datatype Node = E(expr: Expr) | P(part: Part) | C(clause: Clause) | I(item: Item) | S(stmt: Stmt)

  /** Called bare, with arguments or not, it is renamed. */
  predicate IsRenamed(id: string) { id == "deepcopy" }

  /** String methods that are swapped for their opposites by their name alone. */
  predicate IsSwapped(attr: string) {
    || attr == "lower" || attr == "upper" || attr == "lstrip" || attr == "rstrip"
    || attr == "find" || attr == "rfind" || attr == "ljust" || attr == "rjust"
    || attr == "index" || attr == "rindex" || attr == "removeprefix" || attr == "removesuffix"
    || attr == "partition" || attr == "rpartition" || attr == "split" || attr == "rsplit"
  }

  /** Whether some operator applies to this node itself, whatever is below it. A node
      of a kind that no operator is known for counts as one that can be mutated. */
  predicate MutableHere(n: Node) {
    match n
    case E(Name(id)) => IsRenamed(id)
    case E(Constant(literal)) => literal.StringLiteral? || literal.OtherLiteral?
    case E(Call(func, args, keywords)) => args != [] || keywords != [] || (func.Attribute? && IsSwapped(func.attr))
    case E(JoinedStr(_, plainToken)) => plainToken
    case E(OtherExpr(_)) => true
    case P(Placeholder(_, spec)) => spec.Some?
    case P(OtherPart) => true
    case I(Item(_, target)) => target.Some? && !target.value.Name?
    case S(ClassDef(_, _, _)) => true
    case S(OtherStmt) => true
    case _ => false
  }

  function Exprs(s: seq<Expr>): seq<Node> { seq(|s|, i requires 0 <= i < |s| => E(s[i])) }
  function Parts(s: seq<Part>): seq<Node> { seq(|s|, i requires 0 <= i < |s| => P(s[i])) }
  function Clauses(s: seq<Clause>): seq<Node> { seq(|s|, i requires 0 <= i < |s| => C(s[i])) }
  function Items(s: seq<Item>): seq<Node> { seq(|s|, i requires 0 <= i < |s| => I(s[i])) }
  function Stmts(s: seq<Stmt>): seq<Node> { seq(|s|, i requires 0 <= i < |s| => S(s[i])) }

  /** The nodes directly below a node; none inside a function that the tool skips
      whole. */
  function Kids(n: Node): seq<Node> {
    match n
    case E(Attribute(value, _)) => [E(value)]
    case E(Call(func, args, keywords)) => [E(func)] + Exprs(args) + Exprs(keywords)
    case E(IfExp(test, body, orelse)) => [E(test), E(body), E(orelse)]
    case E(Tuple(elts)) => Exprs(elts)
    case E(List(elts)) => Exprs(elts)
    case E(JoinedStr(parts, _)) => Parts(parts)
    case E(DictComp(key, val, generators)) => [E(key), E(val)] + Clauses(generators)
    case E(Comp(_, elt, generators)) => [E(elt)] + Clauses(generators)
    case E(OtherExpr(operands)) => Exprs(operands)
    case P(Placeholder(shown, spec)) => if spec.Some? then [E(shown), E(spec.value)] else [E(shown)]
    case C(Clause(target, iter, ifs)) => [E(target), E(iter)] + Exprs(ifs)
    case I(Item(context, target)) => if target.Some? then [E(context), E(target.value)] else [E(context)]
    case S(Return(result)) => if result.Some? then [E(result.value)] else []
    case S(ExprStmt(expr)) => [E(expr)]
    case S(With(items, block)) => Items(items) + Stmts(block)
    case S(FunctionDef(def)) => if Unmutatable(def) then [] else Places(def)
    case _ => []
  }

  /** A leading string that the tool takes for a docstring: one in triple quotes. */
  predicate HasDocstring(body: seq<Stmt>) { StartsWithString(body) && body[0].expr.literal.triple }

  /** The statements of a body, without a docstring in triple quotes. */
  function BodyNodes(f: Function): seq<Node> { Stmts(f.body[if HasDocstring(f.body) then 1 else 0..]) }

  /** The places of a function: its own default values, then its body. */
  function Places(f: Function): seq<Node> { Exprs(f.defaults) + BodyNodes(f) }

  /** The node at the end of a path of child numbers. */
  function At(n: Node, path: seq<nat>): Option<Node>
    decreases |path|
  {
    if path == [] then Some(n)
    else if path[0] < |Kids(n)| then At(Kids(n)[path[0]], path[1..])
    else None
  }

  predicate HoldsAt(n: Node, path: seq<nat>, p: Node -> bool) {
    At(n, path).Some? ==> p(At(n, path).value)
  }

  /** The predicate holds of the node and of everything below it. */
  ghost predicate Everywhere(n: Node, p: Node -> bool) { forall path :: HoldsAt(n, path, p) }

  ghost predicate AllEverywhere(nodes: seq<Node>, p: Node -> bool) {
    forall i | 0 <= i < |nodes| :: Everywhere(nodes[i], p)
  }

  lemma {:induction false} EverywhereNode(n: Node, p: Node -> bool)
    ensures Everywhere(n, p) <==> p(n) && AllEverywhere(Kids(n), p)
  {
    hide Kids;
    if Everywhere(n, p) {
      assert HoldsAt(n, [], p);
      forall i, path: seq<nat> | 0 <= i < |Kids(n)| ensures HoldsAt(Kids(n)[i], path, p) {
        assert HoldsAt(n, [i] + path, p);
        assert ([i] + path)[1..] == path;
      }
    } else {
      var path :| !HoldsAt(n, path, p);
      if path != [] {
        assert !HoldsAt(Kids(n)[path[0]], path[1..], p);
      }
    }
  }

  lemma {:induction false} EverywhereConcat(a: seq<Node>, b: seq<Node>, p: Node -> bool)
    ensures AllEverywhere(a + b, p) <==> AllEverywhere(a, p) && AllEverywhere(b, p)
  {
    hide Everywhere;
    if AllEverywhere(a + b, p) {
      forall i | 0 <= i < |a| ensures Everywhere(a[i], p) { assert Everywhere((a + b)[i], p); }
      forall i | 0 <= i < |b| ensures Everywhere(b[i], p) { assert Everywhere((a + b)[|a| + i], p); }
    }
  }

  lemma {:induction false} EverywhereOne(n: Node, rest: seq<Node>, p: Node -> bool)
    ensures AllEverywhere([n] + rest, p) <==> Everywhere(n, p) && AllEverywhere(rest, p)
  {
    EverywhereConcat([n], rest, p);
    hide Everywhere;
    assert [n][0] == n;
  }

  // ---------- what the gate passes over ----------

  predicate SafeExprs(elts: seq<Expr>) { forall i | 0 <= i < |elts| :: SafeExpr(elts[i]) }

  /** What the gate does not look at in a function is safe: its default values, and
      the quotes of a leading string. */
  predicate SafeRest(f: Function) {
    SafeExprs(f.defaults) && (StartsWithString(f.body) ==> HasDocstring(f.body))
  }

  /** What the gate does not look at directly below a node is safe: the target of a
      comprehension, the name that a `with` binds, and the rest of a function that the
      tool does not skip. */
  predicate SafelyPassed(n: Node) {
    match n
    case C(Clause(target, _, _)) => SafeExpr(target)
    case I(Item(_, target)) => target.Some? && target.value.Name? ==> !IsRenamed(target.value.id)
    case S(FunctionDef(def)) => Unmutatable(def) || SafeRest(def)
    case _ => true
  }

  predicate Untouched(n: Node) { !MutableHere(n) }

  /** No place of the node can be mutated. */
  ghost predicate Inert(n: Node) { Everywhere(n, Untouched) }

  /** Nothing that the gate passes over in the node is unsafe. */
  ghost predicate Passed(n: Node) { Everywhere(n, SafelyPassed) }

  ghost predicate AllInert(nodes: seq<Node>) { AllEverywhere(nodes, Untouched) }

  ghost predicate AllPassed(nodes: seq<Node>) { AllEverywhere(nodes, SafelyPassed) }

  /** Nothing anywhere in the function can be mutated. */
  ghost predicate NoMutants(f: Function) { AllInert(Places(f)) }

  /** Nothing that the gate passes over anywhere in the function is unsafe. */
  ghost predicate NothingMissed(f: Function) { SafeRest(f) && AllPassed(Places(f)) }

  lemma {:induction false} InertNode(n: Node)
    ensures Inert(n) <==> !MutableHere(n) && AllInert(Kids(n))
    ensures Passed(n) <==> SafelyPassed(n) && AllPassed(Kids(n))
  {
    EverywhereNode(n, Untouched);
    EverywhereNode(n, SafelyPassed);
    hide Everywhere, AllEverywhere, MutableHere, SafelyPassed, Kids;
  }

  lemma {:induction false} InertConcat(a: seq<Node>, b: seq<Node>)
    ensures AllInert(a + b) <==> AllInert(a) && AllInert(b)
    ensures AllPassed(a + b) <==> AllPassed(a) && AllPassed(b)
  {
    EverywhereConcat(a, b, Untouched);
    EverywhereConcat(a, b, SafelyPassed);
    hide Everywhere, AllEverywhere;
  }

  lemma {:induction false} InertOne(n: Node, rest: seq<Node>)
    ensures AllInert([n] + rest) <==> Inert(n) && AllInert(rest)
    ensures AllPassed([n] + rest) <==> Passed(n) && AllPassed(rest)
  {
    EverywhereOne(n, rest, Untouched);
    EverywhereOne(n, rest, SafelyPassed);
    hide Everywhere, AllEverywhere;
  }

  lemma {:induction false} InertNone()
    ensures AllInert([]) && AllPassed([])
  {
  }

  lemma {:induction false} InertAll(nodes: seq<Node>)
    ensures AllInert(nodes) <==> forall i | 0 <= i < |nodes| :: Inert(nodes[i])
    ensures AllPassed(nodes) <==> forall i | 0 <= i < |nodes| :: Passed(nodes[i])
  {
    hide Everywhere;
  }

  // ---------- expressions ----------

  /** No place in an expression can be mutated if and only if the gate calls it safe
      and the targets of its comprehensions are safe. */
  lemma {:induction false} SafeExprExact(e: Expr)
    ensures SafeExpr(e) && Passed(E(e)) <==> Inert(E(e))
    decreases e, 1
  {
    hide Inert, Passed, AllInert, AllPassed;
    InertNode(E(e));
    InertNone();
    match e {
      case Attribute(value, _) =>
        SafeExprExact(value);
        InertOne(E(value), []);
        assert Kids(E(e)) == [E(value)] + [];
      case Call(func, args, keywords) =>
        SafeExprExact(func);
        InertConcat([E(func)] + Exprs(args), Exprs(keywords));
        InertOne(E(func), Exprs(args));
        if args == [] && keywords == [] { assert Exprs(args) == [] && Exprs(keywords) == []; }
      case IfExp(test, body, orelse) =>
        SafeExprExact(test);
        SafeExprExact(body);
        SafeExprExact(orelse);
        ThreeInert(E(test), E(body), E(orelse));
      case Tuple(elts) => SafeExprsExact(elts);
      case List(elts) => SafeExprsExact(elts);
      case JoinedStr(parts, _) => SafePartsExact(parts);
      case DictComp(key, val, generators) =>
        SafeExprExact(key);
        SafeExprExact(val);
        SafeClausesExact(generators);
        TwoInert(E(key), E(val), Clauses(generators));
      case Comp(_, elt, generators) =>
        SafeExprExact(elt);
        SafeClausesExact(generators);
        InertOne(E(elt), Clauses(generators));
      case _ =>
    }
  }

  lemma {:induction false} TwoInert(a: Node, b: Node, rest: seq<Node>)
    ensures AllInert([a, b] + rest) <==> Inert(a) && Inert(b) && AllInert(rest)
    ensures AllPassed([a, b] + rest) <==> Passed(a) && Passed(b) && AllPassed(rest)
  {
    hide *;
    assert [a, b] + rest == [a] + ([b] + rest);
    InertOne(a, [b] + rest);
    InertOne(b, rest);
  }

  lemma {:induction false} ThreeInert(a: Node, b: Node, c: Node)
    ensures AllInert([a, b, c]) <==> Inert(a) && Inert(b) && Inert(c)
    ensures AllPassed([a, b, c]) <==> Passed(a) && Passed(b) && Passed(c)
  {
    hide *;
    assert [a, b, c] == [a, b] + ([c] + []);
    TwoInert(a, b, [c] + []);
    InertOne(c, []);
    InertNone();
  }

  lemma {:induction false} SafeExprsExact(elts: seq<Expr>)
    ensures SafeExprs(elts) && AllPassed(Exprs(elts)) <==> AllInert(Exprs(elts))
    decreases elts, 0
  {
    hide Inert, Passed, AllInert, AllPassed, SafeExpr;
    InertAll(Exprs(elts));
    forall i | 0 <= i < |elts| ensures SafeExpr(elts[i]) && Passed(Exprs(elts)[i]) <==> Inert(Exprs(elts)[i]) { SafeExprExact(elts[i]); }
  }

  lemma {:induction false} SafePartsExact(parts: seq<Part>)
    ensures (forall i | 0 <= i < |parts| :: SafePart(parts[i])) && AllPassed(Parts(parts)) <==> AllInert(Parts(parts))
    decreases parts, 0
  {
    hide Inert, Passed, AllInert, AllPassed, SafeExpr;
    InertAll(Parts(parts));
    forall i | 0 <= i < |parts| ensures SafePart(parts[i]) && Passed(Parts(parts)[i]) <==> Inert(Parts(parts)[i]) { SafePartExact(parts[i]); }
  }

  lemma {:induction false} SafePartExact(p: Part)
    ensures SafePart(p) && Passed(P(p)) <==> Inert(P(p))
    decreases p, 1
  {
    hide Inert, Passed, AllInert, AllPassed, SafeExpr;
    InertNode(P(p));
    InertNone();
    if p.Placeholder? {
      SafeExprExact(p.shown);
      InertOne(E(p.shown), []);
      assert [E(p.shown)] + [] == [E(p.shown)];
    }
  }

  lemma {:induction false} SafeClausesExact(generators: seq<Clause>)
    ensures SafeComprehension(generators) && AllPassed(Clauses(generators)) <==> AllInert(Clauses(generators))
    decreases generators, 0
  {
    hide Inert, Passed, AllInert, AllPassed, SafeExpr;
    InertAll(Clauses(generators));
    forall i | 0 <= i < |generators|
      ensures SafeClause(generators[i]) && Passed(Clauses(generators)[i]) <==> Inert(Clauses(generators)[i])
    {
      SafeClauseExact(generators[i]);
    }
    assert SafeComprehension(generators) <==> forall i | 0 <= i < |generators| :: SafeClause(generators[i]);
  }

  predicate SafeClause(c: Clause) { SafeExpr(c.iter) && SafeExprs(c.ifs) }

  lemma {:induction false} SafeClauseExact(c: Clause)
    ensures SafeClause(c) && Passed(C(c)) <==> Inert(C(c))
    decreases c, 1
  {
    hide Inert, Passed, AllInert, AllPassed, SafeExpr;
    InertNode(C(c));
    SafeExprExact(c.target);
    SafeExprExact(c.iter);
    SafeExprsExact(c.ifs);
    TwoInert(E(c.target), E(c.iter), Exprs(c.ifs));
  }

  // ---------- statements ----------

  predicate SafeItem(i: Item) { SafeExpr(i.context) && (i.target.Some? ==> i.target.value.Name?) }

  lemma {:induction false} SafeItemExact(item: Item)
    ensures SafeItem(item) && Passed(I(item)) <==> Inert(I(item))
  {
    hide Inert, Passed, AllInert, AllPassed;
    InertNode(I(item));
    InertNone();
    SafeExprExact(item.context);
    InertOne(E(item.context), []);
    assert [E(item.context)] + [] == [E(item.context)];
    if item.target.Some? {
      SafeExprExact(item.target.value);
      InertNode(E(item.target.value));
      TwoInert(E(item.context), E(item.target.value), []);
      assert [E(item.context), E(item.target.value)] + [] == [E(item.context), E(item.target.value)];
    }
  }

  lemma {:induction false} SafeItemsExact(items: seq<Item>)
    ensures (forall i | 0 <= i < |items| :: SafeItem(items[i])) && AllPassed(Items(items)) <==> AllInert(Items(items))
  {
    hide Inert, Passed, AllInert, AllPassed, SafeItem;
    InertAll(Items(items));
    forall i | 0 <= i < |items| ensures SafeItem(items[i]) && Passed(Items(items)[i]) <==> Inert(Items(items)[i]) { SafeItemExact(items[i]); }
  }

  predicate SafeStmts(body: seq<Stmt>) { forall i | 0 <= i < |body| :: SafeStmt(body[i]) }

  lemma {:induction false} SafeStmtsExact(body: seq<Stmt>)
    ensures SafeStmts(body) && AllPassed(Stmts(body)) <==> AllInert(Stmts(body))
    decreases body, 0
  {
    hide Inert, Passed, AllInert, AllPassed, SafeStmt;
    InertAll(Stmts(body));
    forall i | 0 <= i < |body| ensures SafeStmt(body[i]) && Passed(Stmts(body)[i]) <==> Inert(Stmts(body)[i]) { SafeStmtExact(body[i]); }
  }

  lemma {:induction false} SafeStmtExact(s: Stmt)
    ensures SafeStmt(s) && Passed(S(s)) <==> Inert(S(s))
    decreases s, 1
  {
    hide Inert, Passed, AllInert, AllPassed, SafeExpr;
    InertNode(S(s));
    InertNone();
    match s {
      case Return(result) =>
        if result.Some? {
          SafeExprExact(result.value);
          InertOne(E(result.value), []);
          assert [E(result.value)] + [] == [E(result.value)];
        }
      case ExprStmt(expr) =>
        SafeExprExact(expr);
        InertOne(E(expr), []);
        assert [E(expr)] + [] == [E(expr)];
      case With(items, block) =>
        InertConcat(Items(items), Stmts(block));
        SafeItemsExact(items);
        SafeStmtsExact(block);
        assert SafeStmt(s) <==> (forall i | 0 <= i < |items| :: SafeItem(items[i])) && SafeStmts(block);
      case FunctionDef(def) =>
        if !Unmutatable(def) { SafeFunctionExact(def); }
      case _ =>
    }
  }

  /** Nothing in the function can be mutated if and only if the gate calls it inert and
      nothing that the gate passes over, in it or in the functions nested in it, is
      unsafe: default values, comprehension targets, names bound by a `with`, and
      leading strings in plain quotes. */
  lemma {:induction false} SafeFunctionExact(f: Function)
    ensures NoMutants(f) <==> NoMutableContent(f) && NothingMissed(f)
    decreases f, 2
  {
    hide Inert, Passed, AllInert, AllPassed, SafeStmt, SafeExpr;
    InertConcat(Exprs(f.defaults), BodyNodes(f));
    SafeExprsExact(f.defaults);
    var start := if HasDocstring(f.body) then 1 else 0;
    var rest := f.body[start..];
    forall i | 0 <= i < |rest| ensures SafeStmt(rest[i]) && Passed(Stmts(rest)[i]) <==> Inert(Stmts(rest)[i]) {
      SafeStmtExact(rest[i]);
    }
    InertAll(Stmts(rest));
    if start == BodyStart(f.body) {
      assert NoMutableContent(f) <==> forall i | 0 <= i < |rest| :: SafeStmt(rest[i]);
    } else {
      StringIsMutable(f.body[0]);
      assert rest[0] == f.body[0] && Stmts(rest)[0] == S(f.body[0]);
    }
  }

  lemma {:induction false} StringIsMutable(s: Stmt)
    requires s.ExprStmt? && s.expr.Constant? && s.expr.literal.StringLiteral?
    ensures !Inert(S(s))
  {
    InertNode(S(s));
    InertNode(E(s.expr));
    InertOne(E(s.expr), []);
    hide Inert, AllInert;
    assert [E(s.expr)] + [] == [E(s.expr)];
  }

  // ---------- functions that are wrongly called inert ----------

  /** A function that is called inert and can be mutated. */
  ghost predicate Wrong(f: Function) { NoMutableContent(f) && !NoMutants(f) }

  /** A function with a default value of 3, on its own and inside another function. */
  lemma {:induction false} DefaultIsMissed()
    ensures var inner := Function("inner", [], [Constant(OtherLiteral)], [Pass], 2, Some(3));
            Wrong(inner) && Wrong(Function("outer", [], [], [FunctionDef(inner)], 1, Some(3)))
  {
    var inner := Function("inner", [], [Constant(OtherLiteral)], [Pass], 2, Some(3));
    var outer := Function("outer", [], [], [FunctionDef(inner)], 1, Some(3));
    assert SafeStmt(inner.body[0]) && SafeStmt(outer.body[0]);
    assert !SafeExpr(inner.defaults[0]);
    hide Inert, Passed, AllInert, AllPassed;
    SafeFunctionExact(inner);
    SafeFunctionExact(outer);
    NestedIsMissed(outer, inner);
  }

  lemma {:induction false} NestedIsMissed(outer: Function, inner: Function)
    requires outer.defaults == [] && outer.body == [FunctionDef(inner)] && !Unmutatable(inner) && !SafeRest(inner)
    ensures !NothingMissed(outer)
  {
    InertNode(S(FunctionDef(inner)));
    InertOne(S(FunctionDef(inner)), []);
    hide Inert, Passed, AllInert, AllPassed, SafeRest, Unmutatable;
    assert Places(outer) == [S(FunctionDef(inner))] + [];
  }

  /** `return [None for t in xs]`, with this target. */
  function TargetReturn(target: Expr): Stmt {
    Return(Some(Comp(ListComp, Constant(NoneLiteral), [Clause(target, Name("xs"), [])])))
  }

  lemma {:induction false} TargetNotPassed(c: Clause)
    requires !SafeExpr(c.target)
    ensures !Passed(E(Comp(ListComp, Constant(NoneLiteral), [c])))
  {
    hide Inert, Passed, AllInert, AllPassed, SafeExpr;
    InertNode(E(Comp(ListComp, Constant(NoneLiteral), [c])));
    InertNode(C(c));
    InertOne(E(Constant(NoneLiteral)), Clauses([c]));
    InertOne(C(c), []);
    assert Clauses([c]) == [C(c)] + [];
  }

  /** An unsafe comprehension target. */
  lemma {:induction false} TargetIsMissed(target: Expr)
    requires !SafeExpr(target)
    ensures Wrong(Function("f", [], [], [TargetReturn(target)], 1, Some(1)))
  {
    var f := Function("f", [], [], [TargetReturn(target)], 1, Some(1));
    var c := Clause(target, Name("xs"), []);
    var e := Comp(ListComp, Constant(NoneLiteral), [c]);
    assert SafeExpr(Name("xs")) && SafeExpr(Constant(NoneLiteral)) && SafeComprehension([c]);
    assert SafeExpr(e) && SafeStmt(f.body[0]);
    hide Inert, Passed, AllInert, AllPassed, SafeExpr, SafeStmt;
    TargetNotPassed(c);
    InertNode(S(f.body[0]));
    InertOne(E(e), []);
    InertOne(S(f.body[0]), []);
    SafeFunctionExact(f);
    assert [E(e)] + [] == [E(e)] && Places(f) == [S(f.body[0])] + [];
  }

  /** Such as `d["k"]`, whose key is a string, and the name that the tool rewrites. */
  lemma {:induction false} UnsafeTargetsAreMissed()
    ensures Wrong(Function("f", [], [], [TargetReturn(OtherExpr([Name("d"), Constant(StringLiteral("k", false))]))], 1, Some(1)))
    ensures Wrong(Function("f", [], [], [TargetReturn(Name("deepcopy"))], 1, Some(1)))
  {
    assert !SafeExpr(Name("deepcopy"));
    hide Wrong, TargetReturn;
    TargetIsMissed(OtherExpr([Name("d"), Constant(StringLiteral("k", false))]));
    TargetIsMissed(Name("deepcopy"));
  }

  /** A `with` that binds the name that the tool rewrites. */
  lemma {:induction false} BoundNameIsMissed()
    ensures Wrong(Function("f", [], [], [With([Item(Name("x"), Some(Name("deepcopy")))], [Pass])], 1, Some(2)))
  {
    var item := Item(Name("x"), Some(Name("deepcopy")));
    var f := Function("f", [], [], [With([item], [Pass])], 1, Some(2));
    assert SafeExpr(Name("x")) && SafeStmt(Pass) && SafeStmt(f.body[0]);
    hide Inert, Passed, AllInert, AllPassed, SafeExpr, SafeStmt;
    InertNode(S(f.body[0]));
    InertNode(I(item));
    InertOne(S(f.body[0]), []);
    InertOne(I(item), Stmts([Pass]));
    SafeFunctionExact(f);
    assert Items([item]) == [I(item)] && Places(f) == [S(f.body[0])] + [];
  }

  /** A leading string in plain quotes. */
  lemma {:induction false} PlainDocstringIsMissed()
    ensures Wrong(Function("f", [], [], [ExprStmt(Constant(StringLiteral("doc", false)))], 1, Some(2)))
  {
    var f := Function("f", [], [], [ExprStmt(Constant(StringLiteral("doc", false)))], 1, Some(2));
    hide Inert, Passed, AllInert, AllPassed, SafeExpr;
    SafeFunctionExact(f);
    assert StartsWithString(f.body) && !HasDocstring(f.body);
  }

  // ---------- the accounts of a walk ----------

  function Count(members: seq<Member>, p: Member -> bool): nat {
    if members == [] then 0 else Count(members[..|members| - 1], p) + if p(members[|members| - 1]) then 1 else 0
  }

  /** A changed function that the gate names. */
  predicate Named(m: Member, changed: set<nat>) { m.Touched(changed) && !m.Skipped() }

  predicate Excused(m: Member, changed: set<nat>) { m.Touched(changed) && m.Skipped() }

  function PairOf(m: Member, mod: string): seq<string> { GlobPair(mod, m.Class(), m.def) }

  /** Every changed function is named or counted as skipped, not both; a pattern
      stands for a named function and every named function has its two patterns; and
      the covered lines are those of the functions walked. */
  lemma {:induction false} WalkAccounts(members: seq<Member>, changed: set<nat>, mod: string)
    ensures var a := AddAll(Account(0, 0, [], {}), members, changed, mod);
            && a.hits == Count(members, (m: Member) => m.Touched(changed))
            && a.skipped == Count(members, (m: Member) => Excused(m, changed))
            && a.hits == a.skipped + Count(members, (m: Member) => Named(m, changed))
            && |a.globs| == 2 * Count(members, (m: Member) => Named(m, changed))
            && (forall g <- a.globs :: exists m <- members :: Named(m, changed) && g in PairOf(m, mod))
            && (forall m <- members :: Named(m, changed) ==> forall g <- PairOf(m, mod) :: g in a.globs)
            && (forall n <- a.covered :: exists m <- members :: n in m.Span())
            && (forall m <- members, n <- m.Span() :: n in a.covered)
  {
    if members != [] {
      var front, last := members[..|members| - 1], members[|members| - 1];
      WalkAccounts(front, changed, mod);
      hide NoMutableContent, Unmutatable, Lines, GlobPair;
      assert forall m :: m in members <==> m in front || m == last;
    }
  }

  lemma {:induction false} CountNone(members: seq<Member>, p: Member -> bool)
    ensures Count(members, p) == 0 <==> forall m <- members :: !p(m)
  {
    if members != [] {
      var front, last := members[..|members| - 1], members[|members| - 1];
      CountNone(front, p);
      assert forall m :: m in members <==> m in front || m == last;
    }
  }

  // ---------- which functions are walked ----------

  /** Going through class bodies only, `path` leads to a function of this member's
      definition, under the classes of its chain. */
  predicate StandsAt(body: seq<Stmt>, chain: seq<Owner>, path: seq<nat>, m: Member)
    decreases |path|
  {
    && path != [] && path[0] < |body|
    && match body[path[0]]
       case FunctionDef(def) => |path| == 1 && m == Member(chain, def)
       case ClassDef(name, decorators, members) =>
         StandsAt(members, chain + [Owner(name, decorators != [])], path[1..], m)
       case _ => false
  }

  /** The walk meets the functions that stand in the module or, through any number
      of classes, in a class; none inside another function or a compound statement. */
  lemma {:induction false} MembersExact(body: seq<Stmt>, n: nat, chain: seq<Owner>, m: Member)
    requires n <= |body|
    ensures m in Members(body, n, chain) <==> exists path :: StandsAt(body, chain, path, m) && path[0] < n
    decreases body, n, 0
  {
    if n > 0 {
      MembersExact(body, n - 1, chain, m);
      StepExact(body, n - 1, chain, m);
      assert Members(body, n, chain) == Members(body, n - 1, chain) + StepMembers(body[n - 1], chain);
    }
    hide StandsAt, StepMembers;
  }

  lemma {:induction false} StepExact(body: seq<Stmt>, i: nat, chain: seq<Owner>, m: Member)
    requires i < |body|
    ensures m in StepMembers(body[i], chain) <==> exists path :: StandsAt(body, chain, path, m) && path[0] == i
    decreases body, i, 1
  {
    match body[i] {
      case FunctionDef(def) =>
        if m == Member(chain, def) { assert StandsAt(body, chain, [i], m); }
      case ClassDef(name, decorators, members) =>
        var inner := chain + [Owner(name, decorators != [])];
        MembersExact(members, |members|, inner, m);
        hide Members;
        if m in StepMembers(body[i], chain) {
          var path :| StandsAt(members, inner, path, m);
          assert ([i] + path)[1..] == path;
          assert StandsAt(body, chain, [i] + path, m);
        }
      case _ =>
    }
  }

  // ---------- one file, and the whole diff ----------

  function MembersOf(tree: seq<Stmt>): seq<Member> { Members(tree, |tree|, []) }

  predicate Walked(change: Change, commit: Commit) {
    commit.show(change.path) != "" && commit.parse(commit.show(change.path)).Some? && change.lines != {}
  }

  function TreeOf(change: Change, commit: Commit): seq<Stmt>
    requires Walked(change, commit)
  {
    commit.parse(commit.show(change.path)).value
  }

  /** A file ends with patterns or with exactly one reason; the reason "other" is
      never given; and what it ends with says what the changed lines touched. */
  lemma {:induction false} EveryFileIsAccounted(change: Change, commit: Commit)
    ensures var o := FileOutcome(change, commit);
            && (o.globs != [] <==> o.reason == None)
            && o.reason != Some(Unexplained)
            && (Walked(change, commit) ==>
                  var members := MembersOf(TreeOf(change, commit));
                  && (o.reason == None <==> exists m <- members :: Named(m, change.lines))
                  && (o.reason == Some(OutsideAnyDef) <==> forall m <- members :: !m.Touched(change.lines))
                  && (o.reason == Some(OnlyUnmutatable) <==>
                        && (exists m <- members :: m.Touched(change.lines))
                        && (forall m <- members :: !Named(m, change.lines))))
  {
    if Walked(change, commit) {
      var members := MembersOf(TreeOf(change, commit));
      var lines := change.lines;
      WalkAccounts(members, lines, ModuleName(change.path));
      CountNone(members, (m: Member) => m.Touched(lines));
      CountNone(members, (m: Member) => Excused(m, lines));
      CountNone(members, (m: Member) => Named(m, lines));
      hide AddAll, Members, ModuleName, NoMutableContent, Unmutatable, Lines;
      var a := WalkFile(TreeOf(change, commit), change);
      if a.hits == 0 {
        var n :| n in lines;
        assert forall m: Member :: n in m.Span() ==> n in lines * m.Span();
        assert n in lines - a.covered;
      }
    }
  }

  /** Files with patterns and reasons given make up the changed files. */
  lemma {:induction false} DiffIsAccounted(changes: seq<Change>, commit: Commit)
    ensures |Reasons(changes, commit)| + NamedFiles(changes, commit) == |changes|
    ensures Unexplained !in Reasons(changes, commit)
    ensures forall g :: g in Patterns(changes, commit) <==>
              exists c <- changes :: Walked(c, commit) && g in PatternsOf(c, commit)
  {
    hide FileOutcome, Walked, PatternsOf;
    if changes != [] {
      var front, last := changes[..|changes| - 1], changes[|changes| - 1];
      DiffIsAccounted(front, commit);
      EveryFileIsAccounted(last, commit);
      PatternsExact(last, commit);
      OneMoreFile(front, last, commit);
      assert changes == front + [last];
    }
  }

  /** What one more changed file adds. */
  lemma {:induction false} OneMoreFile(front: seq<Change>, last: Change, commit: Commit)
    ensures var all, o := front + [last], FileOutcome(last, commit);
            && NamedFiles(all, commit) == NamedFiles(front, commit) + (if o.globs != [] then 1 else 0)
            && Reasons(all, commit) == Reasons(front, commit) + (if o.reason.Some? then multiset{o.reason.value} else multiset{})
            && (forall g :: g in Patterns(all, commit) <==> g in Patterns(front, commit) || g in o.globs)
            && (forall c :: c in all <==> c in front || c == last)
  {
    hide FileOutcome;
    var all := front + [last];
    assert all[..|all| - 1] == front;
  }

  function NamedFiles(changes: seq<Change>, commit: Commit): nat {
    if changes == [] then 0 else
    var n := |changes| - 1;
    NamedFiles(changes[..n], commit) + if FileOutcome(changes[n], commit).globs != [] then 1 else 0
  }

  /** The two patterns of every changed function of a file that is not skipped. */
  function PatternsOf(c: Change, commit: Commit): set<string>
    requires Walked(c, commit)
  {
    set m, g | m in MembersOf(TreeOf(c, commit)) && Named(m, c.lines) && g in PairOf(m, ModuleName(c.path)) :: g
  }

  lemma {:induction false} PatternsExact(c: Change, commit: Commit)
    ensures forall g :: g in FileOutcome(c, commit).globs <==> Walked(c, commit) && g in PatternsOf(c, commit)
  {
    if Walked(c, commit) {
      WalkAccounts(MembersOf(TreeOf(c, commit)), c.lines, ModuleName(c.path));
      hide AddAll, Members, ModuleName, NoMutableContent, Unmutatable, Lines, GlobPair;
    }
  }

  /** A function that is named has something to mutate; one left out as inert has
      nothing to mutate if and only if nothing that the gate passes over in it is
      unsafe. */
  lemma {:induction false} NamedHasMutants(m: Member, changed: set<nat>)
    ensures Named(m, changed) ==> !NoMutants(m.def)
    ensures Excused(m, changed) && !m.Frozen() && !Unmutatable(m.def) ==>
              (NoMutants(m.def) <==> NothingMissed(m.def))
  {
    SafeFunctionExact(m.def);
    hide NoMutants, NothingMissed, NoMutableContent;
  }
}
