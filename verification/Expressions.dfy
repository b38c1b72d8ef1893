/** The template expression language of design_handoff_quorum_ui/support.js:
    the evaluator `resolve`, which finds operators by counting brackets, and the
    proof that it gives every printed expression tree its meaning. */
module Expressions {
  import opened Text

  /** What the evaluator asks of JavaScript. Every property below holds for every
      host, so nothing depends on how values are compared or looked up. */
  datatype Host<!V> = Host(
    undefined: V,
    nul: V,
    boolean: bool -> V,
    number: string -> V,
    text: string -> V,
    truthy: V -> bool,
    strictEq: (V, V) -> bool,
    looseEq: (V, V) -> bool,
    nullish: V -> bool,
    get: (V, V) -> V)
  {
    /** `cur == null ? undefined : cur[key]` */
    function Lookup(cur: V, key: V): V {
      if nullish(cur) then undefined else get(cur, key)
    }

    function Compare(op: string, l: V, r: V): V {
      boolean(
        if op == "===" then strictEq(l, r)
        else if op == "!==" then !strictEq(l, r)
        else if op == "==" then looseEq(l, r)
        else !looseEq(l, r))
    }
  }

  // ---------- characters and brackets ----------

  predicate IsIdentStart(c: char) {
    'A' <= c <= 'Z' || 'a' <= c <= 'z' || c == '_' || c == '$'
  }

  predicate IsIdentPart(c: char) { IsIdentStart(c) || IsDigit(c) }

  predicate IsEqSign(c: char) { c == '=' || c == '!' }

  /** Which brackets a scan counts: `parensWrapWhole` counts round ones, the key
      search counts square ones, the operator search counts both. */
  datatype Brackets = Round | Square | Both

  function Step(b: Brackets, c: char): int {
    if (c == '(' && b != Square) || (c == '[' && b != Round) then 1
    else if (c == ')' && b != Square) || (c == ']' && b != Round) then -1
    else 0
  }

  /** Openings minus closings in `s`. */
  function Level(b: Brackets, s: string): int {
    if s == [] then 0 else Level(b, s[..|s| - 1]) + Step(b, s[|s| - 1])
  }

  /** `parensWrapWhole`: no closing parenthesis before the last character brings
      the level back to zero. */
  predicate WrapsWhole(expr: string) {
    forall k :: 0 <= k < |expr| - 1 && expr[k] == ')' ==> Level(Round, expr[..k + 1]) != 0
  }

  method ParensWrapWhole(expr: string) returns (wraps: bool)
    ensures wraps <==> WrapsWhole(expr)
  {
    var depth := 0;
    var i := 0;
    while i < |expr| - 1
      invariant 0 <= i && (i <= |expr| - 1 || i == 0)
      invariant depth == Level(Round, expr[..i])
      invariant forall k :: 0 <= k < i && expr[k] == ')' ==> Level(Round, expr[..k + 1]) != 0
    {
      assert expr[..i + 1][..i] == expr[..i];
      if expr[i] == '(' {
        depth := depth + 1;
      } else if expr[i] == ')' {
        depth := depth - 1;
        if depth == 0 { return false; }
      }
      i := i + 1;
    }
    return true;
  }

  predicate Blank(s: string) { All(s, IsJsSpace) }

  /** Whether the operator search accepts position `i`. */
  predicate OperatorAt(expr: string, i: nat)
    requires i < |expr|
  {
    && IsEqSign(expr[i]) && i + 1 < |expr| && expr[i + 1] == '='
    && Level(Both, expr[..i]) == 0
    && !(i > 0 && IsEqSign(expr[i - 1]))
    && !Blank(expr[..i])
  }

  /** The operator that starts at `i`: two characters, or three when a second
      `=` follows. */
  function OperatorText(expr: string, i: nat): string
    requires i < |expr|
  {
    if i + 2 < |expr| && expr[i + 2] == '=' then [expr[i]] + "==" else [expr[i]] + "="
  }

  function FirstOperator(expr: string, from: nat): (r: Option<nat>)
    requires from <= |expr|
    ensures r.Some? ==> from <= r.value < |expr| && OperatorAt(expr, r.value)
    ensures forall k :: from <= k < (if r.Some? then r.value else |expr|) ==> !OperatorAt(expr, k)
    decreases |expr| - from
  {
    if from == |expr| then None
    else if OperatorAt(expr, from) then Some(from)
    else FirstOperator(expr, from + 1)
  }

  method FindTopLevelEquality(expr: string) returns (found: Option<nat>)
    ensures found == FirstOperator(expr, 0)
  {
    var depth := 0;
    var i := 0;
    while i < |expr|
      invariant 0 <= i <= |expr|
      invariant depth == Level(Both, expr[..i])
      invariant FirstOperator(expr, 0) == FirstOperator(expr, i)
    {
      assert expr[..i + 1][..i] == expr[..i];
      var c := expr[i];
      if c == '[' || c == '(' {
        depth := depth + 1;
      } else if c == ']' || c == ')' {
        depth := depth - 1;
      } else if depth == 0 && (c == '=' || c == '!') && i + 1 < |expr| && expr[i + 1] == '=' {
        if i > 0 && (expr[i - 1] == '=' || expr[i - 1] == '!') {
          i := i + 1;
          continue;
        }
        TrimEmpty(expr[..i], IsJsSpace);
        if Trim(expr[..i], IsJsSpace) == "" {
          i := i + 1;
          continue;
        }
        return Some(i);
      }
      i := i + 1;
    }
    return None;
  }

  // ---------- lexemes ----------

  /** `^[A-Za-z_$][A-Za-z0-9_$]*`; 0 when it does not match. */
  function IdentLength(s: string): (n: nat)
    ensures n <= |s|
  {
    if s != [] && IsIdentStart(s[0]) then RunLength(s, IsIdentPart) else 0
  }

  /** What may follow a dot: an identifier, or else a run of digits. */
  function NameLength(s: string): (n: nat)
    ensures n <= |s|
  {
    if IdentLength(s) > 0 then IdentLength(s) else RunLength(s, IsDigit)
  }

  /** `^-?\d+(\.\d+)?$` */
  predicate IsNumber(s: string) {
    var t := if s != [] && s[0] == '-' then s[1..] else s;
    var n := RunLength(t, IsDigit);
    n > 0 && (n == |t| || (t[n] == '.' && n + 1 < |t| && All(t[n + 1..], IsDigit)))
  }

  predicate IsQuoted(s: string) {
    |s| >= 2 && (s[0] == '"' || s[0] == '\'') && s[|s| - 1] == s[0]
  }

  /** The index of the `]` that closes a key opened just before `from`. */
  function CloseBracket(expr: string, from: nat, depth: nat): (r: Option<nat>)
    requires from <= |expr|
    ensures r.Some? ==> from <= r.value < |expr| && expr[r.value] == ']'
    decreases |expr| - from
  {
    if from == |expr| then None
    else if expr[from] == '[' then CloseBracket(expr, from + 1, depth + 1)
    else if expr[from] == ']' then
      if depth <= 1 then Some(from) else CloseBracket(expr, from + 1, depth - 1)
    else CloseBracket(expr, from + 1, depth)
  }

  // ---------- the evaluator ----------

  function Resolve<V>(host: Host<V>, vals: V, src: string): V
    decreases |src|, 5, 0
  {
    var expr := Trim(src, IsJsSpace);
    if expr == "" then host.undefined else ResolveTrimmed(host, vals, expr)
  }

  function ResolveTrimmed<V>(host: Host<V>, vals: V, expr: string): V
    requires expr != ""
    decreases |expr|, 4, 0
  {
    if expr[0] == '(' && expr[|expr| - 1] == ')' && WrapsWhole(expr) then
      Resolve(host, vals, expr[1..|expr| - 1])
    else
      match FirstOperator(expr, 0)
      case Some(i) =>
        var op := OperatorText(expr, i);
        host.Compare(op, Resolve(host, vals, expr[..i]), Resolve(host, vals, expr[i + |op|..]))
      case None => ResolveOperand(host, vals, expr)
  }

  /** A trimmed text with no operator at the top level. */
  function ResolveOperand<V>(host: Host<V>, vals: V, expr: string): V
    requires expr != ""
    decreases |expr|, 3, 0
  {
    if expr[0] == '!' then host.boolean(!host.truthy(Resolve(host, vals, expr[1..])))
    else if expr == "true" then host.boolean(true)
    else if expr == "false" then host.boolean(false)
    else if expr == "null" then host.nul
    else if expr == "undefined" then host.undefined
    else if IsNumber(expr) then host.number(expr)
    else if IsQuoted(expr) then host.text(expr[1..|expr| - 1])
    else ResolvePath(host, vals, expr)
  }

  function ResolvePath<V>(host: Host<V>, vals: V, expr: string): V
    decreases |expr|, 2, 0
  {
    var n := IdentLength(expr);
    if n == 0 then host.undefined
    else WalkPath(host, vals, expr, n, host.Lookup(vals, host.text(expr[..n])))
  }

  function WalkPath<V>(host: Host<V>, vals: V, expr: string, i: nat, cur: V): V
    requires i <= |expr|
    decreases |expr|, 1, |expr| - i
  {
    if i == |expr| then cur
    else
      match PathStep(host, vals, expr, i, cur)
      case None => host.undefined
      case Some((next, v)) => WalkPath(host, vals, expr, next, v)
  }

  /** One access of a path, `.name` or `[key]`: the index after it and the value
      reached; nothing when the text at `i` is neither. */
  function PathStep<V>(host: Host<V>, vals: V, expr: string, i: nat, cur: V): (r: Option<(nat, V)>)
    requires i < |expr|
    ensures r.Some? ==> i < r.value.0 <= |expr|
    decreases |expr|, 0, 0
  {
    if expr[i] == '.' then
      var n := NameLength(expr[i + 1..]);
      if n == 0 then None
      else Some((i + 1 + n, host.Lookup(cur, host.text(expr[i + 1..][..n]))))
    else if expr[i] == '[' then
      match CloseBracket(expr, i + 1, 1)
      case None => None
      case Some(j) => Some((j + 1, host.Lookup(cur, Resolve(host, vals, expr[i + 1..j]))))
    else None
  }

  method FindCloseBracket(expr: string, from: nat) returns (depth: int, j: nat)
    requires from <= |expr|
    ensures depth != 0 <==> CloseBracket(expr, from, 1) == None
    ensures depth == 0 ==> CloseBracket(expr, from, 1) == Some(j)
  {
    depth := 1;
    j := from;
    while j < |expr| && depth > 0
      invariant from <= j <= |expr| && depth > 0
      invariant CloseBracket(expr, from, 1) == CloseBracket(expr, j, depth)
    {
      if expr[j] == '[' {
        depth := depth + 1;
      } else if expr[j] == ']' {
        depth := depth - 1;
        if depth == 0 { break; }
      }
      j := j + 1;
    }
  }

  method EvaluateStep<V>(host: Host<V>, vals: V, expr: string, i: nat, cur: V)
    returns (next: Option<(nat, V)>)
    requires i < |expr|
    ensures next == PathStep(host, vals, expr, i, cur)
    decreases |expr|, 0
  {
    if expr[i] == '.' {
      var n := NameLength(expr[i + 1..]);
      if n == 0 { return None; }
      next := Some((i + 1 + n, host.Lookup(cur, host.text(expr[i + 1..][..n]))));
    } else if expr[i] == '[' {
      var depth, j := FindCloseBracket(expr, i + 1);
      if depth != 0 { return None; }
      var key := Evaluate(host, vals, expr[i + 1..j]);
      next := Some((j + 1, host.Lookup(cur, key)));
    } else {
      next := None;
    }
  }

  method EvaluatePath<V>(host: Host<V>, vals: V, expr: string) returns (cur: V)
    ensures cur == ResolvePath(host, vals, expr)
    decreases |expr|, 1
  {
    var i := IdentLength(expr);
    if i == 0 { return host.undefined; }
    cur := host.Lookup(vals, host.text(expr[..i]));
    while i < |expr|
      invariant i <= |expr|
      invariant ResolvePath(host, vals, expr) == WalkPath(host, vals, expr, i, cur)
    {
      var next := EvaluateStep(host, vals, expr, i, cur);
      if next == None { return host.undefined; }
      i, cur := next.value.0, next.value.1;
    }
  }

  method EvaluateOperand<V>(host: Host<V>, vals: V, expr: string) returns (v: V)
    requires expr != ""
    ensures v == ResolveOperand(host, vals, expr)
    decreases |expr|, 2
  {
    if expr[0] == '!' {
      v := Evaluate(host, vals, expr[1..]);
      return host.boolean(!host.truthy(v));
    }
    if expr == "true" { return host.boolean(true); }
    if expr == "false" { return host.boolean(false); }
    if expr == "null" { return host.nul; }
    if expr == "undefined" { return host.undefined; }
    if IsNumber(expr) { return host.number(expr); }
    if IsQuoted(expr) { return host.text(expr[1..|expr| - 1]); }
    v := EvaluatePath(host, vals, expr);
  }

  method EvaluateTrimmed<V>(host: Host<V>, vals: V, expr: string) returns (v: V)
    requires expr != ""
    ensures v == ResolveTrimmed(host, vals, expr)
    decreases |expr|, 3
  {
    hide WrapsWhole, ResolveOperand, FirstOperator, Level, Resolve;
    if expr[0] == '(' && expr[|expr| - 1] == ')' {
      var wraps := ParensWrapWhole(expr);
      if wraps {
        v := Evaluate(host, vals, expr[1..|expr| - 1]);
        return;
      }
    }
    var eq := FindTopLevelEquality(expr);
    if eq == None {
      v := EvaluateOperand(host, vals, expr);
    } else {
      var op := OperatorText(expr, eq.value);
      var l := Evaluate(host, vals, expr[..eq.value]);
      var r := Evaluate(host, vals, expr[eq.value + |op|..]);
      v := host.Compare(op, l, r);
    }
  }

  /** The evaluator as the program runs it, on the loops above. */
  method Evaluate<V>(host: Host<V>, vals: V, src: string) returns (v: V)
    ensures v == Resolve(host, vals, src)
    decreases |src|, 4
  {
    var expr := Trim(src, IsJsSpace);
    if expr == "" {
      v := host.undefined;
    } else {
      v := EvaluateTrimmed(host, vals, expr);
    }
  }

  // ---------- expression trees ----------

  datatype Keyword = True | False | Null | Undefined

  function Spelling(k: Keyword): string {
    match k case True => "true" case False => "false" case Null => "null" case Undefined => "undefined"
  }

  datatype Operator = StrictEq | StrictNe | LooseEq | LooseNe

  function Symbol(op: Operator): string {
    match op case StrictEq => "===" case StrictNe => "!==" case LooseEq => "==" case LooseNe => "!="
  }

  /** Trees of the language, with the blanks a writer may put between tokens.
      Paths lean left: `a.b[c]` is `Key(Dot(Name("a"), "b"), .., Name("c"), ..)`. */
  datatype Expr =
    | Word(keyword: Keyword)
    | Number(digits: string)
    | Quoted(quote: char, content: string)
    | Name(head: string)
    | Dot(base: Expr, name: string)
    | Key(base: Expr, before: string, key: Expr, after: string)
    | Not(before: string, operand: Expr)
    | Paren(before: string, inner: Expr, after: string)
    | Equality(left: Expr, before: string, op: Operator, after: string, right: Expr)

  predicate IsWord(s: string) { exists k: Keyword :: s == Spelling(k) }

  /** Every bracket of `s` is matched inside `s`, whichever kind is counted. */
  ghost predicate Balanced(s: string) {
    && (forall b: Brackets :: Level(b, s) == 0)
    && (forall b: Brackets, k :: 0 <= k <= |s| ==> Level(b, s[..k]) >= 0)
  }

  /** No `=` or `!` of `s` outside its brackets can start an operator, whatever
      follows `s`. */
  predicate Quiet(s: string) {
    forall i :: 0 <= i < |s| && IsEqSign(s[i]) && Level(Both, s[..i]) == 0 ==> i + 1 < |s| && s[i + 1] != '='
  }

  predicate IsQuote(c: char) { c == '"' || c == '\'' }

  /** A character that no bracket or operator scan takes notice of. */
  predicate IsInert(c: char) {
    c != '=' && c != '(' && c != ')' && c != '[' && c != ']'
  }

  predicate IsPath(e: Expr) { e.Name? || e.Dot? || e.Key? }

  /** Trees whose tokens are the language's tokens. A name spelt like a literal
      may only start a longer path: `true.x` is a path, `true` is not. The scans
      read inside quotes as well, so a string literal has to be balanced and quiet. */
  ghost predicate WellFormed(e: Expr) { Shaped(e) && Standalone(e) }

  predicate Standalone(e: Expr) { !(e.Name? && IsWord(e.head)) }

  ghost predicate Shaped(e: Expr) {
    match e
    case Word(_) => true
    case Number(d) => IsNumber(d)
    case Quoted(q, s) => IsQuote(q) && Balanced(Wrapped(q, s, q)) && Quiet(Wrapped(q, s, q))
    case Name(h) => h != "" && IdentLength(h) == |h|
    case Dot(b, n) => IsPath(b) && Shaped(b) && n != "" && NameLength(n) == |n|
    case Key(b, p, k, q) =>
      IsPath(b) && Shaped(b) && Blank(p) && Shaped(k) && Standalone(k) && Blank(q)
    case Not(p, o) => Blank(p) && Shaped(o) && Standalone(o) && !o.Equality?
    case Paren(p, i, q) => Blank(p) && Shaped(i) && Standalone(i) && Blank(q)
    case Equality(l, p, op, q, r) =>
      && Shaped(l) && Standalone(l) && !l.Equality? && Blank(p) && Blank(q)
      && Shaped(r) && Standalone(r)
  }

  function Wrapped(open: char, s: string, close: char): string { [open] + s + [close] }

  function Padded(before: string, s: string, after: string): string { before + s + after }

  function Print(e: Expr): string {
    match e
    case Word(k) => Spelling(k)
    case Number(d) => d
    case Quoted(q, s) => Wrapped(q, s, q)
    case Name(h) => h
    case Dot(b, n) => Print(b) + ("." + n)
    case Key(b, p, k, q) => Print(b) + Wrapped('[', Padded(p, Print(k), q), ']')
    case Not(p, o) => "!" + (p + Print(o))
    case Paren(p, i, q) => Wrapped('(', Padded(p, Print(i), q), ')')
    case Equality(l, p, op, q, r) => (Print(l) + p) + Symbol(op) + (q + Print(r))
  }

  /** What the four operators mean: JavaScript's two equalities and their negations. */
  function Compared<V>(host: Host<V>, op: Operator, l: V, r: V): V {
    match op
    case StrictEq => host.boolean(host.strictEq(l, r))
    case StrictNe => host.boolean(!host.strictEq(l, r))
    case LooseEq => host.boolean(host.looseEq(l, r))
    case LooseNe => host.boolean(!host.looseEq(l, r))
  }

  /** What a tree means, read off its shape. A key of nothing is undefined. */
  function Meaning<V>(host: Host<V>, vals: V, e: Expr): V {
    match e
    case Word(k) =>
      (match k
       case True => host.boolean(true)
       case False => host.boolean(false)
       case Null => host.nul
       case Undefined => host.undefined)
    case Number(d) => host.number(d)
    case Quoted(_, s) => host.text(s)
    case Name(h) => if host.nullish(vals) then host.undefined else host.get(vals, host.text(h))
    case Dot(b, n) =>
      var base := Meaning(host, vals, b);
      if host.nullish(base) then host.undefined else host.get(base, host.text(n))
    case Key(b, _, k, _) =>
      var base := Meaning(host, vals, b);
      if host.nullish(base) then host.undefined else host.get(base, Meaning(host, vals, k))
    case Not(_, o) => host.boolean(!host.truthy(Meaning(host, vals, o)))
    case Paren(_, i, _) => Meaning(host, vals, i)
    case Equality(l, _, op, _, r) =>
      Compared(host, op, Meaning(host, vals, l), Meaning(host, vals, r))
  }
}
