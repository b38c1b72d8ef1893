/** The scope of the mutation gate, scripts/replay_mutation_scope.py: which changed
    functions get a mutant name pattern, and which are left out because nothing in
    them can be mutated. */
module MutationScope {
  import opened Text

  // ---------- syntax trees ----------

  /** `triple`: the string is written in triple quotes. */
  datatype Literal = NoneLiteral | EllipsisLiteral | StringLiteral(text: string, triple: bool) | OtherLiteral

  datatype CompKind = ListComp | SetComp | GeneratorExp

  /** `plainToken` is what tokenizing the f-string's own source says: a plain string
      literal stands next to it, or the source cannot be read. */
  datatype Expr =
    | Name(id: string)
    | Attribute(value: Expr, attr: string)
    | Constant(literal: Literal)
    | Call(func: Expr, args: seq<Expr>, keywords: seq<Expr>)
    | IfExp(test: Expr, body: Expr, orelse: Expr)
    | Tuple(elts: seq<Expr>)
    | List(elts: seq<Expr>)
    | JoinedStr(parts: seq<Part>, plainToken: bool)
    | DictComp(key: Expr, val: Expr, generators: seq<Clause>)
    | Comp(kind: CompKind, elt: Expr, generators: seq<Clause>)
    | OtherExpr(operands: seq<Expr>)

  datatype Part = Characters(text: string) | Placeholder(shown: Expr, spec: Option<Expr>) | OtherPart

  datatype Clause = Clause(target: Expr, iter: Expr, ifs: seq<Expr>)

  datatype Item = Item(context: Expr, target: Option<Expr>)

  /** `defaults` are the default values of the parameters. */
  datatype Function = Function(name: string, decorators: seq<Expr>, defaults: seq<Expr>, body: seq<Stmt>,
                               line: nat, endLine: Option<nat>)

  datatype Stmt =
    | Pass
    | Return(result: Option<Expr>)
    | ExprStmt(expr: Expr)
    | With(items: seq<Item>, block: seq<Stmt>)
    | FunctionDef(def: Function)
    | ClassDef(name: string, decorators: seq<Expr>, members: seq<Stmt>)
    | OtherStmt

  // ---------- what the gate calls inert ----------

  const RENAMED := {"deepcopy"}
  const SWAPPED := {"lower", "upper", "lstrip", "rstrip", "find", "rfind", "ljust", "rjust", "index", "rindex",
                    "removeprefix", "removesuffix", "partition", "rpartition", "split", "rsplit"}

  /** Whether the mutation tool skips the function whole: it is decorated, other
      than by one bare `staticmethod` or `classmethod`. */
  predicate Unmutatable(f: Function) {
    if f.decorators == [] then false
    else !(|f.decorators| == 1 && f.decorators[0].Name? && f.decorators[0].id in {"staticmethod", "classmethod"})
  }

  predicate SafeExpr(e: Expr) {
    match e
    case Name(id) => id !in RENAMED
    case Attribute(value, _) => SafeExpr(value)
    case Constant(literal) => literal.NoneLiteral? || literal.EllipsisLiteral?
    case Call(func, args, keywords) =>
      if func.Attribute? && func.attr in SWAPPED then false
      else if args != [] || keywords != [] then false
      else SafeExpr(func)
    case IfExp(test, body, orelse) => SafeExpr(test) && SafeExpr(body) && SafeExpr(orelse)
    case Tuple(elts) => forall i | 0 <= i < |elts| :: SafeExpr(elts[i])
    case List(elts) => forall i | 0 <= i < |elts| :: SafeExpr(elts[i])
    case JoinedStr(parts, plainToken) =>
      !plainToken && forall i | 0 <= i < |parts| :: SafePart(parts[i])
    case DictComp(key, val, generators) => SafeExpr(key) && SafeExpr(val) && SafeComprehension(generators)
    case Comp(_, elt, generators) => SafeExpr(elt) && SafeComprehension(generators)
    case OtherExpr(_) => false
  }

  predicate SafePart(p: Part) {
    match p
    case Characters(_) => true
    case Placeholder(shown, spec) => spec == None && SafeExpr(shown)
    case OtherPart => false
  }

  predicate SafeComprehension(generators: seq<Clause>) {
    forall i | 0 <= i < |generators| ::
      SafeExpr(generators[i].iter) && forall j | 0 <= j < |generators[i].ifs| :: SafeExpr(generators[i].ifs[j])
  }

  /** Whether a body starts with a string, in quotes of any kind. */
  predicate StartsWithString(body: seq<Stmt>) {
    body != [] && body[0].ExprStmt? && body[0].expr.Constant? && body[0].expr.literal.StringLiteral?
  }

  /** Where the body starts after a leading docstring. */
  function BodyStart(body: seq<Stmt>): (n: nat)
    ensures n <= |body|
  {
    if StartsWithString(body) then 1 else 0
  }

  predicate NoMutableContent(f: Function) {
    forall i | BodyStart(f.body) <= i < |f.body| :: SafeStmt(f.body[i])
  }

  predicate SafeStmt(s: Stmt) {
    match s
    case Pass => true
    case Return(result) => result.Some? ==> SafeExpr(result.value)
    case ExprStmt(expr) => SafeExpr(expr)
    case With(items, block) =>
      && (forall i | 0 <= i < |items| ::
            SafeExpr(items[i].context) && (items[i].target.Some? ==> items[i].target.value.Name?))
      && forall i | 0 <= i < |block| :: SafeStmt(block[i])
    case FunctionDef(def) => Unmutatable(def) || NoMutableContent(def)
    case ClassDef(_, _, _) => false
    case OtherStmt => false
  }

  // ---------- the functions of a file ----------

  predicate Between(n: nat, first: nat, last: nat) { first <= n <= last }

  function Lines(first: nat, last: nat): set<nat> {
    set n | first <= n <= last && Between(n, first, last)
  }

  datatype Owner = Owner(name: string, decorated: bool)

  predicate FrozenBy(chain: seq<Owner>) { exists i | 0 <= i < |chain| :: chain[i].decorated }

  function ClassOf(chain: seq<Owner>): Option<string> {
    if chain == [] then None else Some(chain[|chain| - 1].name)
  }

  /** A function that stands directly in a module or in a class, under the classes
      `chain`, outermost first. */
  datatype Member = Member(chain: seq<Owner>, def: Function)
  {
    predicate Frozen() { FrozenBy(chain) }

    function Class(): Option<string> { ClassOf(chain) }

    function Span(): set<nat> {
      Lines(def.line, if def.endLine.Some? && def.endLine.value != 0 then def.endLine.value else def.line)
    }

    predicate Touched(changed: set<nat>) { changed * Span() != {} }

    predicate Skipped() { Frozen() || Unmutatable(def) || NoMutableContent(def) }
  }

  /** The members that the first `n` statements of a body give. */
  function Members(body: seq<Stmt>, n: nat, chain: seq<Owner>): seq<Member>
    requires n <= |body|
    decreases body, n
  {
    if n == 0 then [] else
    Members(body, n - 1, chain) +
    match body[n - 1]
    case ClassDef(name, decorators, members) =>
      Members(members, |members|, chain + [Owner(name, decorators != [])])
    case FunctionDef(def) => [Member(chain, def)]
    case _ => []
  }

  const BAR := "\U{01C1}"

  function MutantName(cls: Option<string>, def: Function): string {
    if cls.Some? && cls.value != "" then "x" + BAR + cls.value + BAR + def.name else "x_" + def.name
  }

  /** The two patterns of one function: its mutants, and its original. */
  function GlobPair(mod: string, cls: Option<string>, def: Function): seq<string> {
    [mod + "." + MutantName(cls, def) + "__mutmut_*", "*" + mod + "." + MutantName(cls, def)]
  }

  // ---------- the walk ----------

  /** What a walk over these members leaves behind. */
  datatype Account = Account(hits: nat, skipped: nat, globs: seq<string>, covered: set<nat>)

  function Add(a: Account, m: Member, changed: set<nat>, mod: string): Account {
    var b := a.(covered := a.covered + m.Span());
    if !m.Touched(changed) then b
    else if m.Skipped() then b.(hits := a.hits + 1, skipped := a.skipped + 1)
    else b.(hits := a.hits + 1, globs := a.globs + GlobPair(mod, m.Class(), m.def))
  }

  function AddAll(a: Account, members: seq<Member>, changed: set<nat>, mod: string): Account {
    if members == [] then a
    else Add(AddAll(a, members[..|members| - 1], changed, mod), members[|members| - 1], changed, mod)
  }

  lemma {:induction false} AddBoth(a: Account, s: seq<Member>, t: seq<Member>, changed: set<nat>, mod: string)
    ensures AddAll(a, s + t, changed, mod) == AddAll(AddAll(a, s, changed, mod), t, changed, mod)
  {
    if t == [] {
      assert s + t == s;
    } else {
      AddBoth(a, s, t[..|t| - 1], changed, mod);
      assert (s + t)[..|s + t| - 1] == s + t[..|t| - 1];
    }
    hide Add;
  }

  /** The counters of one file, updated in place by the walk. */
  class Walker {
    var skipped: nat
    var globs: seq<string>
    var covered: set<nat>

    constructor ()
      ensures skipped == 0 && globs == [] && covered == {}
    {
      skipped, globs, covered := 0, [], {};
    }

    ghost function Reached(hits: nat): Account
      reads this
    {
      Account(hits, skipped, globs, covered)
    }

    /** Accounts for one function; `hit` says whether it was changed. */
    method Visit(def: Function, changed: set<nat>, mod: string, cls: Option<string>, frozen: bool,
                 ghost m: Member, ghost hits: nat)
      returns (hit: nat)
      requires m.def == def && cls == m.Class() && (frozen <==> m.Frozen())
      modifies this
      ensures Reached(hits + hit) == Add(old(Reached(hits)), m, changed, mod)
    {
      var span := Lines(def.line, if def.endLine.Some? && def.endLine.value != 0 then def.endLine.value else def.line);
      covered := covered + span;
      hit := 0;
      if changed * span != {} {
        hit := 1;
        if frozen || Unmutatable(def) {
          skipped := skipped + 1;
        } else if NoMutableContent(def) {
          skipped := skipped + 1;
        } else {
          globs := globs + GlobPair(mod, cls, def);
        }
      }
      hide NoMutableContent, Unmutatable, GlobPair, Lines;
    }

    /** Walks a body under the class `cls`; `frozen` says whether a class around it
        is decorated. */
    method Walk(body: seq<Stmt>, changed: set<nat>, mod: string, cls: Option<string>, frozen: bool,
                ghost chain: seq<Owner>, ghost start: nat)
      returns (hits: nat)
      requires cls == ClassOf(chain) && (frozen <==> FrozenBy(chain))
      modifies this
      ensures Reached(start + hits)
           == AddAll(old(Reached(start)), Members(body, |body|, chain), changed, mod)
      decreases body
    {
      hide AddAll, Add, FrozenBy;
      hits := 0;
      AddNone(Reached(start), changed, mod);
      for i := 0 to |body|
        invariant Reached(start + hits)
               == AddAll(old(Reached(start)), Members(body, i, chain), changed, mod)
      {
        AddBoth(old(Reached(start)), Members(body, i, chain), StepMembers(body[i], chain), changed, mod);
        ghost var before := Reached(start + hits);
        match body[i] {
          case ClassDef(name, decorators, members) =>
            FrozenInner(chain, Owner(name, decorators != []));
            var more := Walk(members, changed, mod, Some(name), frozen || decorators != [],
                             chain + [Owner(name, decorators != [])], start + hits);
            hits := hits + more;
          case FunctionDef(def) =>
            AddOne(before, Member(chain, def), changed, mod);
            var hit := Visit(def, changed, mod, cls, frozen, Member(chain, def), start + hits);
            hits := hits + hit;
          case _ =>
            AddNone(before, changed, mod);
        }
      }
    }
  }

  ghost function StepMembers(s: Stmt, chain: seq<Owner>): seq<Member> {
    match s
    case ClassDef(name, decorators, members) =>
      Members(members, |members|, chain + [Owner(name, decorators != [])])
    case FunctionDef(def) => [Member(chain, def)]
    case _ => []
  }

  lemma {:induction false} AddNone(a: Account, changed: set<nat>, mod: string)
    ensures AddAll(a, [], changed, mod) == a
  {
  }

  lemma {:induction false} AddOne(a: Account, m: Member, changed: set<nat>, mod: string)
    ensures AddAll(a, [m], changed, mod) == Add(a, m, changed, mod)
  {
  }

  lemma {:induction false} FrozenInner(chain: seq<Owner>, o: Owner)
    ensures FrozenBy(chain + [o]) <==> FrozenBy(chain) || o.decorated
  {
    var inner := chain + [o];
    if FrozenBy(chain) {
      var i :| 0 <= i < |chain| && chain[i].decorated;
      assert inner[i].decorated;
    }
    if o.decorated { assert inner[|chain|].decorated; }
  }

  // ---------- one diff ----------

  datatype Reason = Absent | Unparseable | PureDeletion | OutsideAnyDef | Unexplained | OnlyUnmutatable

  /** What the commit holds: the text of a path, "" for none, and its syntax tree. */
  datatype Commit = Commit(show: string -> string, parse: string -> Option<seq<Stmt>>)

  datatype Change = Change(path: string, lines: set<nat>)

  datatype Outcome = Outcome(globs: seq<string>, reason: Option<Reason>)

  function Dots(s: string): string {
    seq(|s|, i requires 0 <= i < |s| => if s[i] == '/' then '.' else s[i])
  }

  function ModuleName(path: string): string {
    var a := if "src/" <= path then path[4..] else path;
    Dots(if |a| >= 3 && a[|a| - 3..] == ".py" then a[..|a| - 3] else a)
  }

  function WalkFile(tree: seq<Stmt>, change: Change): Account {
    AddAll(Account(0, 0, [], {}), Members(tree, |tree|, []), change.lines, ModuleName(change.path))
  }

  function FileOutcome(change: Change, commit: Commit): Outcome {
    var source := commit.show(change.path);
    if source == "" then Outcome([], Some(Absent)) else
    match commit.parse(source)
    case None => Outcome([], Some(Unparseable))
    case Some(tree) =>
      if change.lines == {} then Outcome([], Some(PureDeletion)) else
      var a := WalkFile(tree, change);
      Outcome(a.globs,
              if a.hits == 0 then Some(if change.lines - a.covered != {} then OutsideAnyDef else Unexplained)
              else if a.skipped > 0 && a.skipped == a.hits then Some(OnlyUnmutatable)
              else None)
  }

  function Patterns(changes: seq<Change>, commit: Commit): set<string> {
    if changes == [] then {} else
    var n := |changes| - 1;
    Patterns(changes[..n], commit) + set g | g in FileOutcome(changes[n], commit).globs
  }

  function Reasons(changes: seq<Change>, commit: Commit): multiset<Reason> {
    if changes == [] then multiset{} else
    var n := |changes| - 1;
    var r := FileOutcome(changes[n], commit).reason;
    Reasons(changes[..n], commit) + if r.Some? then multiset{r.value} else multiset{}
  }

  method Scope(changes: seq<Change>, commit: Commit) returns (globs: set<string>, reasons: multiset<Reason>)
    ensures globs == Patterns(changes, commit)
    ensures reasons == Reasons(changes, commit)
  {
    hide AddAll, Members, ModuleName;
    globs, reasons := {}, multiset{};
    for i := 0 to |changes|
      invariant globs == Patterns(changes[..i], commit)
      invariant reasons == Reasons(changes[..i], commit)
    {
      assert changes[..i + 1][..i] == changes[..i];
      var change := changes[i];
      var source := commit.show(change.path);
      if source == "" {
        reasons := reasons + multiset{Absent};
        continue;
      }
      var tree := commit.parse(source);
      if tree == None {
        reasons := reasons + multiset{Unparseable};
        continue;
      }
      if change.lines == {} {
        reasons := reasons + multiset{PureDeletion};
        continue;
      }
      var walker := new Walker();
      var matched := walker.Walk(tree.value, change.lines, ModuleName(change.path), None, false, [], 0);
      globs := globs + set g | g in walker.globs;
      if matched == 0 {
        if change.lines - walker.covered != {} {
          reasons := reasons + multiset{OutsideAnyDef};
        } else {
          reasons := reasons + multiset{Unexplained};
        }
      } else if walker.skipped > 0 && walker.skipped == matched {
        reasons := reasons + multiset{OnlyUnmutatable};
      }
    }
    assert changes[..|changes|] == changes;
  }
}
