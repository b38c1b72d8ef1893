/** Every well-formed expression tree, printed with any blanks between its
    tokens, is evaluated to its meaning, for every host and every environment. */
module ExpressionRoundTrip {
  import opened Text
  import opened Expressions

  // ---------- levels ----------

  lemma {:induction false} LevelConcat(b: Brackets, s: string, t: string)
    ensures Level(b, s + t) == Level(b, s) + Level(b, t)
  {
    if t == [] {
      assert s + t == s;
    } else {
      assert (s + t)[..|s + t| - 1] == s + t[..|t| - 1];
      LevelConcat(b, s, t[..|t| - 1]);
    }
  }

  lemma {:induction false} BalancedConcat(s: string, t: string)
    requires Balanced(s) && Balanced(t)
    ensures Balanced(s + t)
  {
    var u := s + t;
    forall b: Brackets ensures Level(b, u) == 0 {
      LevelConcat(b, s, t);
    }
    forall b: Brackets, k | 0 <= k <= |u| ensures Level(b, u[..k]) >= 0 {
      if k <= |s| {
        assert u[..k] == s[..k];
      } else {
        assert u[..k] == s + t[..k - |s|];
        LevelConcat(b, s, t[..k - |s|]);
      }
    }
  }

  lemma {:induction false} BalancedInert(s: string)
    requires All(s, IsInert)
    ensures Balanced(s)
  {
    forall b: Brackets, k | 0 <= k <= |s| ensures Level(b, s[..k]) == 0 {
      InertLevel(b, s[..k]);
    }
    assert s[..|s|] == s;
  }

  lemma InertLevel(b: Brackets, s: string)
    requires All(s, IsInert)
    ensures Level(b, s) == 0
  {
  }

  predicate IsPair(open: char, close: char) {
    (open == '(' && close == ')') || (open == '[' && close == ']')
  }

  lemma {:induction false} WrapLevels(open: char, s: string, close: char, k: nat)
    requires IsPair(open, close) && Balanced(s) && k <= |s| + 2
    ensures forall b: Brackets :: Level(b, Wrapped(open, s, close)[..k])
                               == if k == 0 || k == |s| + 2 then 0 else Step(b, open) + Level(b, s[..k - 1])
  {
    var w := Wrapped(open, s, close);
    forall b: Brackets
      ensures Level(b, w[..k]) == if k == 0 || k == |s| + 2 then 0 else Step(b, open) + Level(b, s[..k - 1])
    {
      if 0 < k < |s| + 2 {
        assert w[..k] == [open] + s[..k - 1];
        LevelConcat(b, [open], s[..k - 1]);
      } else if k == |s| + 2 {
        assert w[..k] == [open] + s + [close];
        LevelConcat(b, [open] + s, [close]);
        LevelConcat(b, [open], s);
      }
    }
  }

  lemma {:induction false} BalancedWrap(open: char, s: string, close: char)
    requires IsPair(open, close) && Balanced(s)
    ensures Balanced(Wrapped(open, s, close))
  {
    var w := Wrapped(open, s, close);
    WrapLevels(open, s, close, |w|);
    assert w[..|w|] == w;
    forall b: Brackets, k | 0 <= k <= |w| ensures Level(b, w[..k]) >= 0 {
      WrapLevels(open, s, close, k);
      assert 0 < k < |w| ==> Level(b, s[..k - 1]) >= 0;
    }
  }

  // ---------- no operator at the top level ----------

  lemma {:induction false} QuietPlain(s: string)
    requires s != "" && '=' !in s && !IsEqSign(s[|s| - 1])
    ensures Quiet(s)
  {
  }

  lemma {:induction false} QuietConcat(s: string, t: string)
    requires Quiet(s) && Balanced(s) && Quiet(t)
    ensures Quiet(s + t)
  {
    var u := s + t;
    forall i | 0 <= i < |u| && IsEqSign(u[i]) && Level(Both, u[..i]) == 0
      ensures i + 1 < |u| && u[i + 1] != '='
    {
      if i < |s| {
        assert u[..i] == s[..i];
      } else {
        assert u[..i] == s + t[..i - |s|];
        LevelConcat(Both, s, t[..i - |s|]);
      }
    }
  }

  lemma {:induction false} QuietWrap(open: char, s: string, close: char)
    requires IsPair(open, close) && Balanced(s)
    ensures Quiet(Wrapped(open, s, close))
  {
    var w := Wrapped(open, s, close);
    forall i | 0 <= i < |w| && IsEqSign(w[i]) ensures Level(Both, w[..i]) != 0 {
      WrapLevels(open, s, close, i);
      assert Level(Both, s[..i - 1]) >= 0;
    }
  }

  lemma {:induction false} QuietHasNoOperator(s: string, from: nat)
    requires Quiet(s) && from <= |s|
    ensures FirstOperator(s, from) == None
    decreases |s| - from
  {
  }

  lemma {:induction false} NotAnOperator(l: string, p: string, rest: string, i: nat)
    requires Quiet(l) && Blank(p) && rest != "" && i < |l + p|
    ensures !OperatorAt(l + p + rest, i)
  {
    var s := l + p + rest;
    if i < |l| {
      assert s[..i] == l[..i];
      assert s[i] == l[i] && (i + 1 < |l| ==> s[i + 1] == l[i + 1]);
    } else {
      assert s[i] == p[i - |l|];
    }
  }

  lemma {:induction false} AnOperator(l: string, p: string, rest: string)
    requires Quiet(l) && Balanced(l) && l != "" && !IsJsSpace(l[0])
    requires Blank(p) && |rest| >= 2 && IsEqSign(rest[0]) && rest[1] == '='
    ensures OperatorAt(l + p + rest, |l + p|)
  {
    var s, i := l + p + rest, |l + p|;
    assert s[..i] == l + p;
    LevelConcat(Both, l, p);
    assert All(p, IsInert);
    InertLevel(Both, p);
    assert (l + p)[0] == l[0];
    assert !Blank(s[..i]);
    if p == "" {
      assert s[i - 1] == l[|l| - 1];
      assert l == l[..|l| - 1] + [l[|l| - 1]];
      LevelConcat(Both, l[..|l| - 1], [l[|l| - 1]]);
      assert !IsEqSign(s[i - 1]);
    } else {
      assert s[i - 1] == p[|p| - 1];
    }
  }

  /** After a quiet left operand and blanks, the operator is found where it is. */
  lemma {:induction false} OperatorFound(l: string, p: string, rest: string, from: nat)
    requires Quiet(l) && Balanced(l) && l != "" && !IsJsSpace(l[0])
    requires Blank(p) && |rest| >= 2 && IsEqSign(rest[0]) && rest[1] == '='
    requires from <= |l + p|
    ensures FirstOperator(l + p + rest, from) == Some(|l + p|)
    decreases |l + p| - from
  {
    hide OperatorAt, Balanced, All, Quiet, Blank;
    if from < |l + p| {
      NotAnOperator(l, p, rest, from);
      OperatorFound(l, p, rest, from + 1);
    } else {
      AnOperator(l, p, rest);
    }
  }

  // ---------- lexemes ----------

  predicate IsNumberChar(c: char) { IsDigit(c) || c == '-' || c == '.' }

  lemma {:induction false} DigitsShape(t: string)
    requires IsNumber(t) && t[0] != '-'
    ensures IsDigit(t[0]) && IsDigit(t[|t| - 1]) && All(t, IsNumberChar)
  {
    RunAll(t, IsDigit);
    var n := RunLength(t, IsDigit);
    hide RunLength;
    assert forall i | 0 <= i < n :: t[i] == t[..n][i];
    assert forall i | n < i < |t| :: t[i] == t[n + 1..][i - n - 1];
  }

  lemma {:induction false} NumberShape(s: string)
    requires IsNumber(s)
    ensures s != "" && (IsDigit(s[0]) || s[0] == '-') && IsDigit(s[|s| - 1])
    ensures All(s, IsNumberChar)
  {
    if s[0] == '-' {
      DashedNumber(s);
      DigitsShape(s[1..]);
      hide IsNumber, IsDigit;
      assert forall i | 0 < i < |s| :: s[i] == s[1..][i - 1];
    } else {
      DigitsShape(s);
    }
  }

  lemma {:induction false} DashedNumber(s: string)
    requires IsNumber(s) && s[0] == '-'
    ensures s[1..] != "" && s[1..][0] != '-' && IsNumber(s[1..])
  {
  }

  lemma {:induction false} IdentShape(s: string)
    requires s != "" && IdentLength(s) == |s|
    ensures IsIdentStart(s[0]) && All(s, IsIdentPart)
  {
    RunAll(s, IsIdentPart);
    assert s[..|s|] == s;
  }

  predicate EndsName(rest: string) { rest == "" || !IsIdentPart(rest[0]) }

  lemma {:induction false} IdentExact(s: string, rest: string)
    requires s != "" && IdentLength(s) == |s| && EndsName(rest)
    ensures IdentLength(s + rest) == |s|
  {
    IdentShape(s);
    RunExact(s, rest, IsIdentPart);
  }

  lemma {:induction false} NameExact(s: string, rest: string)
    requires s != "" && NameLength(s) == |s| && EndsName(rest)
    ensures NameLength(s + rest) == |s|
  {
    if IdentLength(s) > 0 {
      IdentExact(s, rest);
    } else {
      RunAll(s, IsDigit);
      assert s[..|s|] == s;
      RunExact(s, rest, IsDigit);
      assert (s + rest)[0] == s[0];
    }
  }

  lemma {:induction false} NameShape(s: string)
    requires s != "" && NameLength(s) == |s|
    ensures All(s, IsIdentPart)
  {
    if IdentLength(s) > 0 { IdentShape(s); } else { RunAll(s, IsDigit); assert s[..|s|] == s; }
  }

  lemma {:induction false} CloseFound(expr: string, from: nat, body: string, m: nat)
    requires Balanced(body) && m <= |body| && from + |body| < |expr|
    requires expr[from..from + |body|] == body && expr[from + |body|] == ']'
    ensures Level(Square, body[..m]) >= 0
    ensures CloseBracket(expr, from + m, 1 + Level(Square, body[..m])) == Some(from + |body|)
    decreases |body| - m
  {
    assert Level(Square, body[..m]) >= 0;
    if m == |body| {
      assert body[..m] == body;
    } else {
      assert expr[from + m] == body[m];
      assert body[..m + 1][..m] == body[..m];
      assert Level(Square, body[..m + 1]) >= 0;
      CloseFound(expr, from, body, m + 1);
    }
  }

  // ---------- the shape of printed trees ----------

  /** The characters a printed tree may start or end with. */
  predicate IsTokenEdge(c: char) { '!' <= c <= '~' && c != '=' }

  lemma {:induction false} FirstOf(s: string, t: string)
    requires s != ""
    ensures (s + t)[0] == s[0]
  {
  }

  /** How a printed tree starts. */
  predicate StartsWell(e: Expr) {
    var s := Print(e);
    && s != "" && IsTokenEdge(s[0])
    && (IsPath(e) ==> IsIdentStart(s[0]))
    && (!e.Equality? ==> (s[0] == '(' <==> e.Paren?) && (s[0] == '!' <==> e.Not?))
  }

  lemma {:induction false} FirstCharacter(e: Expr)
    requires Shaped(e)
    ensures StartsWell(e)
  {
    match e
    case Number(d) => NumberShape(d);
    case Name(h) => IdentShape(h);
    case Dot(b, n) => FirstCharacter(b); FirstOf(Print(b), "." + n);
    case Key(b, p, k, q) => FirstCharacter(b); FirstOf(Print(b), Wrapped('[', Padded(p, Print(k), q), ']'));
    case Equality(l, _, _, _, _) => FirstCharacter(l); FirstOfEquality(e);
    case Word(_) =>
    case Quoted(_, _) =>
    case Not(_, _) =>
    case Paren(_, _, _) =>
  }

  lemma {:induction false} FirstOfEquality(e: Expr)
    requires e.Equality? && StartsWell(e.left)
    ensures StartsWell(e)
  {
  }

  lemma {:induction false} LastOf(s: string, t: string)
    requires t != ""
    ensures (s + t)[|s + t| - 1] == t[|t| - 1]
  {
  }

  /** How a printed tree ends. */
  predicate EndsWell(e: Expr) {
    var s := Print(e);
    && s != "" && IsTokenEdge(s[|s| - 1])
    && (!e.Equality? ==> !IsEqSign(s[|s| - 1]))
    && (e.Paren? ==> s[|s| - 1] == ')')
  }

  lemma {:induction false} LastCharacter(e: Expr)
    requires Shaped(e)
    ensures EndsWell(e)
  {
    hide Balanced, Quiet;
    match e
    case Not(p, o) => LastCharacter(o); LastOfNot(e);
    case Equality(_, _, _, _, r) => LastCharacter(r); LastOfEquality(e);
    case Word(_) =>
    case Number(d) => NumberShape(d);
    case Quoted(_, _) =>
    case Name(h) => IdentShape(h);
    case _ => LastOfBracketed(e);
  }

  lemma {:induction false} LastOfNot(e: Expr)
    requires e.Not? && Shaped(e) && EndsWell(e.operand)
    ensures EndsWell(e)
  {
    LastOf(e.before, Print(e.operand));
    LastOf("!", e.before + Print(e.operand));
  }

  lemma {:induction false} LastOfEquality(e: Expr)
    requires e.Equality? && EndsWell(e.right)
    ensures EndsWell(e)
  {
  }

  lemma {:induction false} LastOfBracketed(e: Expr)
    requires Shaped(e) && (e.Dot? || e.Key? || e.Paren?)
    ensures EndsWell(e)
  {
    match e
    case Dot(b, n) => NameShape(n); LastOf(".", n); LastOf(Print(b), "." + n);
    case Key(b, p, k, q) => LastOf(Print(b), Wrapped('[', Padded(p, Print(k), q), ']'));
    case Paren(p, i, q) => 
  }

  lemma {:induction false} Edges(e: Expr)
    requires Shaped(e)
    ensures var s := Print(e); s != "" && !IsJsSpace(s[0]) && !IsJsSpace(s[|s| - 1]) && s[0] != '='
  {
    hide Shaped, Print, IsPath, IsIdentStart;
    FirstCharacter(e);
    LastCharacter(e);
  }

  lemma {:induction false} BlankInert(p: string)
    requires Blank(p)
    ensures All(p, IsInert) && Balanced(p)
  {
    BalancedInert(p);
  }

  /** Padding and a balanced core. */
  lemma {:induction false} BalancedPadded(p: string, s: string, q: string)
    requires Blank(p) && Balanced(s) && Blank(q)
    ensures Balanced(Padded(p, s, q))
  {
    BlankInert(p);
    BlankInert(q);
    BalancedConcat(p, s);
    BalancedConcat(p + s, q);
  }

  lemma {:induction false} PrintBalanced(e: Expr)
    requires Shaped(e)
    ensures Balanced(Print(e))
  {
    match e
    case Word(k) => BalancedInert(Spelling(k));
    case Number(d) =>
      NumberShape(d);
      assert forall i :: 0 <= i < |d| ==> d[i] in d;
      BalancedInert(d);
    case Quoted(_, _) =>
    case Name(h) => IdentShape(h); BalancedInert(h);
    case Dot(b, n) =>
      PrintBalanced(b);
      NameShape(n);
      BalancedInert("." + n);
      BalancedConcat(Print(b), "." + n);
    case Key(b, p, k, q) =>
      PrintBalanced(b);
      PrintBalanced(k);
      BalancedPadded(p, Print(k), q);
      BalancedWrap('[', Padded(p, Print(k), q), ']');
      BalancedConcat(Print(b), Wrapped('[', Padded(p, Print(k), q), ']'));
    case Not(p, o) =>
      PrintBalanced(o);
      BalancedInert("!");
      BalancedPadded(p, Print(o), "");
      assert p + Print(o) + "" == p + Print(o);
      BalancedConcat("!", p + Print(o));
    case Paren(p, i, q) =>
      PrintBalanced(i);
      BalancedPadded(p, Print(i), q);
      BalancedWrap('(', Padded(p, Print(i), q), ')');
    case Equality(l, p, op, q, r) =>
      EqualityBalanced(e);
  }

  lemma {:induction false} EqualityBalanced(e: Expr)
    requires e.Equality? && Shaped(e)
    ensures Balanced(Print(e))
    decreases e, 0
  {
    PrintBalanced(e.left);
    PrintBalanced(e.right);
    BlankInert(e.before);
    BlankInert(e.after);
    BalancedConcat(Print(e.left), e.before);
    BalancedConcat(e.after, Print(e.right));
    OperatorBalanced(e.op);
    BalancedConcat(Print(e.left) + e.before, Symbol(e.op));
    BalancedConcat((Print(e.left) + e.before) + Symbol(e.op), e.after + Print(e.right));
  }

  lemma {:induction false} OperatorBalanced(o: Operator)
    ensures Balanced(Symbol(o))
  {
    var op := Symbol(o);
    forall b: Brackets, k | 0 <= k <= |op| ensures Level(b, op[..k]) == 0 {
      SignsLevel(b, op[..k]);
    }
    assert op[..|op|] == op;
  }

  lemma SignsLevel(b: Brackets, s: string)
    requires All(s, IsEqSign)
    ensures Level(b, s) == 0
  {
  }

  lemma {:induction false} PrintQuiet(e: Expr)
    requires Shaped(e)
    requires !e.Equality?
    ensures Quiet(Print(e))
  {
    match e
    case Word(k) => QuietPlain(Spelling(k));
    case Number(d) => NumberShape(d); QuietPlain(d);
    case Quoted(_, _) =>
    case Name(h) => IdentShape(h); QuietPlain(h);
    case Dot(b, n) =>
      PrintQuiet(b);
      PrintBalanced(b);
      NameShape(n);
      QuietPlain("." + n);
      QuietConcat(Print(b), "." + n);
    case Key(b, p, k, q) =>
      PrintQuiet(b);
      PrintBalanced(b);
      PrintBalanced(k);
      BalancedPadded(p, Print(k), q);
      QuietWrap('[', Padded(p, Print(k), q), ']');
      QuietConcat(Print(b), Wrapped('[', Padded(p, Print(k), q), ']'));
    case Not(p, o) =>
      PrintQuiet(o);
      NotQuiet(p, o);
    case Paren(p, i, q) =>
      PrintBalanced(i);
      BalancedPadded(p, Print(i), q);
      QuietWrap('(', Padded(p, Print(i), q), ')');
  }

  lemma {:induction false} NotQuiet(p: string, o: Expr)
    requires Blank(p) && Shaped(o) && !o.Equality? && Quiet(Print(o))
    ensures Quiet("!" + (p + Print(o)))
  {
    Edges(o);
    BlankInert(p);
    assert Quiet(p);
    QuietConcat(p, Print(o));
    var t := p + Print(o);
    var s := "!" + t;
    forall i | 0 <= i < |s| && IsEqSign(s[i]) && Level(Both, s[..i]) == 0 ensures i + 1 < |s| && s[i + 1] != '=' {
      if i > 0 {
        assert s[..i] == "!" + t[..i - 1];
        LevelConcat(Both, "!", t[..i - 1]);
        SignsLevel(Both, "!");
      }
    }
  }

  // ---------- one step of the evaluator per shape ----------

  lemma {:induction false} SymbolRead(l: string, op: Operator, rest: string)
    requires rest != "" && rest[0] != '='
    ensures var s := l + Symbol(op) + rest;
            && OperatorText(s, |l|) == Symbol(op)
            && s[..|l|] == l && s[|l| + |Symbol(op)|..] == rest
  {
  }

  /** A printed tree that is not parenthesised is not read as one. */
  lemma {:induction false} NotWrapped(e: Expr)
    requires e.Equality? && Shaped(e) && Print(e)[0] == '('
    ensures !WrapsWhole(Print(e))
  {
    var l := Print(e.left);
    var s := Print(e);
    FirstCharacter(e.left);
    FirstOfEquality(e);
    LastCharacter(e.left);
    PrintBalanced(e.left);
    var k := |l| - 1;
    assert s[..k + 1] == l;
    assert s[k] == ')';
  }

  lemma {:induction false} ReadParen<V>(host: Host<V>, vals: V, body: string)
    requires Balanced(body)
    ensures ResolveTrimmed(host, vals, Wrapped('(', body, ')')) == Resolve(host, vals, body)
  {
    var s := Wrapped('(', body, ')');
    forall k | 0 <= k < |s| - 1 && s[k] == ')' ensures Level(Round, s[..k + 1]) != 0 {
      WrapLevels('(', body, ')', k + 1);
      assert Level(Round, body[..k]) >= 0;
    }
    assert s[1..|s| - 1] == body;
  }

  lemma {:induction false} ReadEquality<V>(host: Host<V>, vals: V, e: Expr)
    requires e.Equality? && Shaped(e) && Print(e) != ""
    ensures ResolveTrimmed(host, vals, Print(e))
         == host.Compare(Symbol(e.op),
                         Resolve(host, vals, Padded("", Print(e.left), e.before)),
                         Resolve(host, vals, Padded(e.after, Print(e.right), "")))
  {
    assert Padded("", Print(e.left), e.before) == Print(e.left) + e.before;
    assert Padded(e.after, Print(e.right), "") == e.after + Print(e.right);
    ReadOperands(host, vals, e);
  }

  lemma {:induction false} ReadOperands<V>(host: Host<V>, vals: V, e: Expr)
    requires e.Equality? && Shaped(e) && Print(e) != ""
    ensures ResolveTrimmed(host, vals, Print(e))
         == host.Compare(Symbol(e.op),
                         Resolve(host, vals, Print(e.left) + e.before),
                         Resolve(host, vals, e.after + Print(e.right)))
  {
    var l, rest := Print(e.left), e.after + Print(e.right);
    OperandsOf(e);
    hide Balanced, Resolve, ResolveTrimmed, Quiet, Blank, IsJsSpace, Print, Symbol, FirstOperator, OperatorText, WrapsWhole, IsEqSign, Shaped;
    SymbolRead(l + e.before, e.op, rest);
    OperatorFound(l, e.before, Symbol(e.op) + rest, 0);
    SplitAtOperator(host, vals, Print(e), l + e.before, e.op, rest);
  }

  /** What the scans meet in a printed equality. */
  lemma {:induction false} OperandsOf(e: Expr)
    requires e.Equality? && Shaped(e)
    ensures var l, rest := Print(e.left), e.after + Print(e.right);
            && Print(e) == l + e.before + (Symbol(e.op) + rest) && rest != "" && rest[0] != '='
            && l != "" && !IsJsSpace(l[0]) && Quiet(l) && Balanced(l) && Blank(e.before)
            && |Symbol(e.op) + rest| >= 2 && IsEqSign((Symbol(e.op) + rest)[0]) && (Symbol(e.op) + rest)[1] == '='
            && !(Print(e)[0] == '(' && Print(e)[|Print(e)| - 1] == ')' && WrapsWhole(Print(e)))
  {
    EqualityParts(e);
    hide Balanced, Quiet, WrapsWhole, Shaped, Print, IsJsSpace, Symbol, IsEqSign;
    Edges(e.left);
    Edges(e.right);
    PrintQuiet(e.left);
    PrintBalanced(e.left);
    EqualityText(e);
    SymbolStarts(e.op, e.after + Print(e.right));
    if Print(e)[0] == '(' { NotWrapped(e); }
    AfterSymbol(e.after, Print(e.right));
  }

  lemma {:induction false} EqualityParts(e: Expr)
    requires e.Equality? && Shaped(e)
    ensures Shaped(e.left) && Shaped(e.right) && !e.left.Equality? && Blank(e.before) && Blank(e.after)
  {
  }

  lemma {:induction false} EqualityText(e: Expr)
    requires e.Equality?
    ensures Print(e) == Print(e.left) + e.before + (Symbol(e.op) + (e.after + Print(e.right)))
  {
  }

  lemma {:induction false} SymbolStarts(op: Operator, rest: string)
    ensures |Symbol(op) + rest| >= 2 && IsEqSign((Symbol(op) + rest)[0]) && (Symbol(op) + rest)[1] == '='
  {
  }

  lemma {:induction false} AfterSymbol(blank: string, t: string)
    requires Blank(blank) && t != "" && t[0] != '='
    ensures blank + t != "" && (blank + t)[0] != '='
  {
    assert (blank + t)[0] == if blank == "" then t[0] else blank[0];
  }

  /** A text whose first operator stands between `l` and `r` compares the two. */
  lemma {:induction false} SplitAtOperator<V>(host: Host<V>, vals: V, s: string, l: string, op: Operator, r: string)
    requires s == l + (Symbol(op) + r) && FirstOperator(s, 0) == Some(|l|) && OperatorText(s, |l|) == Symbol(op)
    requires !(s[0] == '(' && s[|s| - 1] == ')' && WrapsWhole(s))
    ensures ResolveTrimmed(host, vals, s)
         == host.Compare(Symbol(op), Resolve(host, vals, l), Resolve(host, vals, r))
  {
    hide FirstOperator, OperatorText, OperatorAt, WrapsWhole, Resolve, ResolveOperand, Symbol;
    assert s[..|l|] == l && s[|l| + |Symbol(op)|..] == r;
  }

  lemma {:induction false} ReadOperand<V>(host: Host<V>, vals: V, e: Expr)
    requires Shaped(e) && !e.Equality? && !e.Paren? && Print(e) != ""
    ensures ResolveTrimmed(host, vals, Print(e)) == ResolveOperand(host, vals, Print(e))
  {
    FirstCharacter(e);
    PrintQuiet(e);
    QuietHasNoOperator(Print(e), 0);
  }

  /** A text that starts a name, and is neither a literal word nor a number nor
      quoted, is read as a path. */
  lemma {:induction false} ReadPath<V>(host: Host<V>, vals: V, e: Expr)
    requires IsPath(e) && WellFormed(e) && Print(e) != ""
    ensures ResolveOperand(host, vals, Print(e)) == ResolvePath(host, vals, Print(e))
  {
    FirstCharacter(e);
    PathIsNotWord(e);
    hide Shaped, Print, ResolveOperand, ResolvePath, IsWord, WellFormed;
    NameIsPath(host, vals, Print(e));
  }

  lemma {:induction false} NameIsPath<V>(host: Host<V>, vals: V, s: string)
    requires s != "" && IsIdentStart(s[0]) && !IsWord(s)
    ensures ResolveOperand(host, vals, s) == ResolvePath(host, vals, s)
  {
    assert s != Spelling(True) && s != Spelling(False) && s != Spelling(Null) && s != Spelling(Undefined);
    hide ResolvePath, IsWord;
    assert !IsNumber(s) by {
      if IsNumber(s) { NumberShape(s); }
    }
  }

  lemma {:induction false} SpellingLetters(k: Keyword)
    ensures All(Spelling(k), IsIdentPart)
  {
  }

  lemma {:induction false} PathIsNotWord(e: Expr)
    requires IsPath(e) && WellFormed(e)
    ensures !IsWord(Print(e))
  {
    if !e.Name? {
      assert Print(e)[|Print(e.base)|] == if e.Dot? then '.' else '[';
      assert !All(Print(e), IsIdentPart);
    }
    forall k: Keyword ensures Print(e) != Spelling(k) {
      SpellingLetters(k);
    }
  }

  lemma {:induction false} ReadWord<V>(host: Host<V>, vals: V, k: Keyword)
    ensures ResolveOperand(host, vals, Spelling(k)) == Meaning(host, vals, Word(k))
  {
  }

  lemma {:induction false} ReadNumber<V>(host: Host<V>, vals: V, d: string)
    requires IsNumber(d)
    ensures ResolveOperand(host, vals, d) == host.number(d)
  {
  }

  lemma {:induction false} ReadQuoted<V>(host: Host<V>, vals: V, q: char, c: string)
    requires q == '"' || q == '\''
    ensures ResolveOperand(host, vals, Wrapped(q, c, q)) == host.text(c)
  {
  }

  lemma {:induction false} ReadName<V>(host: Host<V>, vals: V, h: string, rest: string)
    requires h != "" && IdentLength(h) == |h| && EndsName(rest)
    ensures ResolvePath(host, vals, h + rest)
         == WalkPath(host, vals, h + rest, |h|, host.Lookup(vals, host.text(h)))
  {
    IdentExact(h, rest);
    assert (h + rest)[..|h|] == h;
  }

  lemma {:induction false} ReadDot<V>(host: Host<V>, vals: V, s: string, n: string, rest: string, cur: V)
    requires n != "" && NameLength(n) == |n| && EndsName(rest)
    ensures WalkPath(host, vals, s + ("." + n) + rest, |s|, cur)
         == WalkPath(host, vals, s + ("." + n) + rest, |s + ("." + n)|, host.Lookup(cur, host.text(n)))
  {
    var t := s + ("." + n) + rest;
    assert t[|s|] == '.';
    assert t[|s| + 1..] == n + rest;
    NameExact(n, rest);
    assert (n + rest)[..|n|] == n;
  }

  lemma {:induction false} ReadKey<V>(host: Host<V>, vals: V, s: string, body: string, rest: string, cur: V)
    requires Balanced(body)
    ensures WalkPath(host, vals, s + Wrapped('[', body, ']') + rest, |s|, cur)
         == WalkPath(host, vals, s + Wrapped('[', body, ']') + rest, |s + Wrapped('[', body, ']')|,
                     host.Lookup(cur, Resolve(host, vals, body)))
  {
    var t := s + Wrapped('[', body, ']') + rest;
    var from := |s| + 1;
    KeySlices(s, body, rest);
    assert body[..0] == "";
    hide Balanced, Level, CloseBracket, Resolve, NameLength, WalkPath, Wrapped;
    CloseFound(t, from, body, 0);
  }

  lemma {:induction false} KeySlices(s: string, body: string, rest: string)
    ensures var t := s + Wrapped('[', body, ']') + rest;
            var from := |s| + 1;
            && t[|s|] == '[' && t[from..from + |body|] == body && t[from + |body|] == ']'
            && |s + Wrapped('[', body, ']')| == from + |body| + 1
  {
  }

  // ---------- the theorem ----------

  /** Reading a path inside a longer path reaches its end with its meaning. */
  lemma {:induction false} PathPrefix<V>(host: Host<V>, vals: V, e: Expr, rest: string)
    requires IsPath(e) && Shaped(e) && EndsName(rest)
    ensures ResolvePath(host, vals, Print(e) + rest)
         == WalkPath(host, vals, Print(e) + rest, |Print(e)|, Meaning(host, vals, e))
    decreases e, 0
  {
    hide ResolvePath, WalkPath, Resolve, Balanced;
    match e
    case Name(h) => ReadName(host, vals, h, rest);
    case Dot(b, n) =>
      PathPrefix(host, vals, b, ("." + n) + rest);
      assert Print(e) + rest == Print(b) + (("." + n) + rest);
      ReadDot(host, vals, Print(b), n, rest, Meaning(host, vals, b));
    case Key(b, p, k, q) =>
      var w := Wrapped('[', Padded(p, Print(k), q), ']');
      PathPrefix(host, vals, b, w + rest);
      assert Print(e) + rest == Print(b) + (w + rest);
      PrintBalanced(k);
      BalancedPadded(p, Print(k), q);
      ReadKey(host, vals, Print(b), Padded(p, Print(k), q), rest, Meaning(host, vals, b));
      RoundTrip(host, vals, p, k, q);
  }

  lemma {:induction false} CoreParen<V>(host: Host<V>, vals: V, e: Expr)
    requires e.Paren? && WellFormed(e)
    ensures Print(e) != "" && ResolveTrimmed(host, vals, Print(e)) == Meaning(host, vals, e)
    decreases e, 0
  {
    var body := Padded(e.before, Print(e.inner), e.after);
    PrintBalanced(e.inner);
    BalancedPadded(e.before, Print(e.inner), e.after);
    ReadParen(host, vals, body);
    RoundTrip(host, vals, e.before, e.inner, e.after);
  }

  /** The operator that is read off the text is the one that the tree has. */
  lemma {:induction false} OperatorMeans<V>(host: Host<V>, op: Operator, l: V, r: V)
    ensures host.Compare(Symbol(op), l, r) == Compared(host, op, l, r)
  {
  }

  lemma {:induction false} CoreEquality<V>(host: Host<V>, vals: V, e: Expr)
    requires e.Equality? && WellFormed(e) && Print(e) != ""
    ensures ResolveTrimmed(host, vals, Print(e)) == Meaning(host, vals, e)
    decreases e, 0
  {
    ReadEquality(host, vals, e);
    OperatorMeans(host, e.op, Meaning(host, vals, e.left), Meaning(host, vals, e.right));
    RoundTrip(host, vals, "", e.left, e.before);
    RoundTrip(host, vals, e.after, e.right, "");
  }

  lemma {:induction false} CoreNot<V>(host: Host<V>, vals: V, e: Expr)
    requires e.Not? && WellFormed(e)
    ensures Print(e) != "" && ResolveOperand(host, vals, Print(e)) == Meaning(host, vals, e)
    decreases e, 0
  {
    RoundTrip(host, vals, e.before, e.operand, "");
    assert Padded(e.before, Print(e.operand), "") == Print(e)[1..];
  }

  lemma {:induction false} CorePath<V>(host: Host<V>, vals: V, e: Expr)
    requires IsPath(e) && WellFormed(e) && Print(e) != ""
    ensures ResolveOperand(host, vals, Print(e)) == Meaning(host, vals, e)
    decreases e, 1
  {
    ReadPath(host, vals, e);
    PathPrefix(host, vals, e, "");
    assert Print(e) + "" == Print(e);
  }

  /** The text of a tree, with no blanks round it. */
  lemma {:induction false} Core<V>(host: Host<V>, vals: V, e: Expr)
    requires WellFormed(e) && Print(e) != ""
    ensures ResolveTrimmed(host, vals, Print(e)) == Meaning(host, vals, e)
    decreases e, 2
  {
    if e.Paren? {
      CoreParen(host, vals, e);
    } else if e.Equality? {
      CoreEquality(host, vals, e);
    } else {
      ReadOperand(host, vals, e);
      match e
      case Not(_, _) => CoreNot(host, vals, e);
      case Word(k) => ReadWord(host, vals, k);
      case Number(d) => ReadNumber(host, vals, d);
      case Quoted(q, c) => ReadQuoted(host, vals, q, c);
      case Name(_) => CorePath(host, vals, e);
      case Dot(_, _) => CorePath(host, vals, e);
      case Key(_, _, _, _) => CorePath(host, vals, e);
    }
  }

  /** Printing a tree, with any blanks before and after it, and evaluating the
      text gives the tree's meaning. */
  lemma {:induction false} RoundTrip<V>(host: Host<V>, vals: V, pre: string, e: Expr, post: string)
    requires WellFormed(e) && Blank(pre) && Blank(post)
    ensures Resolve(host, vals, Padded(pre, Print(e), post)) == Meaning(host, vals, e)
    decreases e, 3
  {
    Edges(e);
    TrimPadded(pre, Print(e), post, IsJsSpace);
    Core(host, vals, e);
  }

  /** A chain of equalities with no parentheses groups to the right. */
  lemma {:induction false} ChainsGroupRight<V>(
    host: Host<V>, vals: V, a: Expr, op1: Operator, b: Expr, op2: Operator, c: Expr, blank: string)
    requires WellFormed(a) && WellFormed(b) && WellFormed(c) && Blank(blank)
    requires !a.Equality? && !b.Equality?
    ensures Resolve(host, vals,
                    Print(a) + blank + Symbol(op1) + (blank + (Print(b) + blank + Symbol(op2) + (blank + Print(c)))))
         == Compared(host, op1, Meaning(host, vals, a),
                     Compared(host, op2, Meaning(host, vals, b), Meaning(host, vals, c)))
  {
    var e := Equality(a, blank, op1, blank, Equality(b, blank, op2, blank, c));
    RoundTrip(host, vals, "", e, "");
    assert Padded("", Print(e), "") == Print(e);
  }

  // ---------- string literals, exactly ----------

  /** What a text with an operator is read as. */
  function Halved<V>(host: Host<V>, vals: V, s: string): V
    requires FirstOperator(s, 0).Some?
  {
    var i := FirstOperator(s, 0).value;
    var op := OperatorText(s, i);
    host.Compare(op, Resolve(host, vals, s[..i]), Resolve(host, vals, s[i + |op|..]))
  }

  /** A literal on its own: its text when the scan finds no operator in it, and
      otherwise the comparison of its two broken halves. */
  lemma {:induction false} LiteralAlone<V>(host: Host<V>, vals: V, q: char, c: string)
    requires IsQuote(q)
    ensures var w := Wrapped(q, c, q);
            Resolve(host, vals, w) == if FirstOperator(w, 0) == None then host.text(c) else Halved(host, vals, w)
  {
    hide ResolveTrimmed, ResolveOperand, FirstOperator, Halved;
    var w := Wrapped(q, c, q);
    assert w[0] == q && w[|w| - 1] == q;
    TrimPadded("", w, "", IsJsSpace);
    assert "" + w + "" == w;
    ResolveIsTrimmed(host, vals, w);
    OperatorOrOperand(host, vals, w);
    ReadQuoted(host, vals, q, c);
  }

  lemma {:induction false} ResolveIsTrimmed<V>(host: Host<V>, vals: V, s: string)
    requires s != "" && Trim(s, IsJsSpace) == s
    ensures Resolve(host, vals, s) == ResolveTrimmed(host, vals, s)
  {
    hide ResolveTrimmed;
  }

  lemma {:induction false} OperatorOrOperand<V>(host: Host<V>, vals: V, s: string)
    requires s != "" && s[0] != '('
    ensures ResolveTrimmed(host, vals, s)
         == if FirstOperator(s, 0) == None then ResolveOperand(host, vals, s) else Halved(host, vals, s)
  {
    hide ResolveOperand, FirstOperator, OperatorAt, WrapsWhole, Resolve;
  }

  /** A literal on its own is read as its text if and only if no operator is found
      inside its quotes; as in JavaScript, no string is a truth value. */
  lemma {:induction false} LiteralReadExactly<V>(host: Host<V>, vals: V, q: char, c: string)
    requires IsQuote(q) && forall b :: host.text(c) != host.boolean(b)
    ensures Resolve(host, vals, Wrapped(q, c, q)) == host.text(c) <==> FirstOperator(Wrapped(q, c, q), 0) == None
  {
    LiteralAlone(host, vals, q, c);
    hide Resolve, FirstOperator, OperatorText;
  }

  /** A literal before an operator: that operator is the one found if and only if
      none is found inside the quotes and the literal closes as many brackets as it
      opens; the literal then counts as its text. */
  lemma {:induction false} LiteralOnTheLeft<V>(host: Host<V>, vals: V, q: char, c: string, op: Operator, r: string)
    requires IsQuote(q) && r != "" && r[0] != '='
    ensures var w := Wrapped(q, c, q);
            FirstOperator(w + (Symbol(op) + r), 0) == Some(|w|) <==> FirstOperator(w, 0) == None && Level(Both, w) == 0
    ensures var w := Wrapped(q, c, q);
            FirstOperator(w, 0) == None && Level(Both, w) == 0 ==>
              ResolveTrimmed(host, vals, w + (Symbol(op) + r)) == Compared(host, op, host.text(c), Resolve(host, vals, r))
  {
    var w := Wrapped(q, c, q);
    var s := w + (Symbol(op) + r);
    assert w[0] == q && w[|w| - 1] == q && s[0] == q;
    OperatorsOfLiteral(w, Symbol(op) + r, 0);
    hide FirstOperator, OperatorAt, Level;
    if FirstOperator(w, 0) == None && Level(Both, w) == 0 {
      assert s == w + Symbol(op) + r;
      SymbolRead(w, op, r);
      SplitAtOperator(host, vals, s, w, op, r);
      OperatorMeans(host, op, host.text(c), Resolve(host, vals, r));
      LiteralAlone(host, vals, q, c);
    }
  }

  lemma {:induction false} OperatorAfterTree(l: Expr, p: string, op: Operator, rest: string)
    requires WellFormed(l) && !l.Equality? && Blank(p) && rest != "" && rest[0] != '='
    ensures var s := Print(l) + p + (Symbol(op) + rest);
            FirstOperator(s, 0) == Some(|Print(l) + p|) && OperatorText(s, |Print(l) + p|) == Symbol(op)
  {
    hide Balanced, Quiet, Shaped, Print, IsJsSpace, Symbol, IsEqSign, FirstOperator, OperatorText, Blank;
    Edges(l);
    PrintQuiet(l);
    PrintBalanced(l);
    SymbolStarts(op, rest);
    OperatorFound(Print(l), p, Symbol(op) + rest, 0);
    SymbolRead(Print(l) + p, op, rest);
    assert Print(l) + p + Symbol(op) + rest == Print(l) + p + (Symbol(op) + rest);
  }

  /** The two sides of the operator that is found, in a text that no blanks and no
      brackets stand around. */
  lemma {:induction false} ComparesSides<V>(host: Host<V>, vals: V, left: string, op: Operator, r: string)
    requires left != "" && !IsJsSpace(left[0]) && r != "" && !IsJsSpace(r[|r| - 1]) && r[|r| - 1] != ')'
    requires var s := left + (Symbol(op) + r); FirstOperator(s, 0) == Some(|left|) && OperatorText(s, |left|) == Symbol(op)
    ensures Resolve(host, vals, left + (Symbol(op) + r)) == host.Compare(Symbol(op), Resolve(host, vals, left), Resolve(host, vals, r))
  {
    var s := left + (Symbol(op) + r);
    assert s[0] == left[0] && s[|s| - 1] == r[|r| - 1];
    hide Resolve, ResolveTrimmed, FirstOperator, OperatorText, WrapsWhole, Symbol;
    TrimPadded("", s, "", IsJsSpace);
    assert "" + s + "" == s;
    ResolveIsTrimmed(host, vals, s);
    SplitAtOperator(host, vals, s, left, op, r);
  }

  /** A literal after blanks. */
  lemma {:induction false} LiteralAfterBlanks(q: string, quote: char, c: string)
    requires Blank(q) && IsQuote(quote)
    ensures var w := Wrapped(quote, c, quote); var t := q + w;
            && t != "" && t[0] != '=' && t[|t| - 1] == quote && Trim(t, IsJsSpace) == w && Trim(w, IsJsSpace) == w
  {
    var w := Wrapped(quote, c, quote);
    assert w[0] == quote && w[|w| - 1] == quote && (q + w)[|q + w| - 1] == quote;
    AfterSymbol(q, w);
    hide Wrapped, Blank;
    TrimPadded(q, w, "", IsJsSpace);
    TrimPadded("", w, "", IsJsSpace);
    assert q + w + "" == q + w && "" + w + "" == w;
  }

  lemma {:induction false} LeftSide<V>(host: Host<V>, vals: V, l: Expr, p: string)
    requires WellFormed(l) && Blank(p)
    ensures var left := Print(l) + p; left != "" && !IsJsSpace(left[0]) && Resolve(host, vals, left) == Meaning(host, vals, l)
  {
    hide Resolve, Shaped, Print, Meaning, IsJsSpace;
    Edges(l);
    RoundTrip(host, vals, "", l, p);
    assert Padded("", Print(l), p) == Print(l) + p;
  }

  /** A literal after an operator, with any blanks: whatever its brackets, it counts as
      its text if and only if no operator is found inside its quotes. */
  lemma {:induction false} LiteralOnTheRight<V>(
    host: Host<V>, vals: V, l: Expr, p: string, op: Operator, q: string, quote: char, c: string)
    requires WellFormed(l) && !l.Equality? && Blank(p) && Blank(q) && IsQuote(quote)
    ensures var w := Wrapped(quote, c, quote);
            var right := if FirstOperator(w, 0) == None then host.text(c) else Halved(host, vals, w);
            Resolve(host, vals, Print(l) + p + (Symbol(op) + (q + w))) == Compared(host, op, Meaning(host, vals, l), right)
  {
    var w := Wrapped(quote, c, quote);
    assert !IsJsSpace(quote) && quote != ')';
    hide Resolve, ResolveTrimmed, FirstOperator, OperatorText, Symbol, Halved, Wrapped, Print, Meaning, WellFormed, Blank, IsJsSpace, Trim, IsQuote;
    LiteralAfterBlanks(q, quote, c);
    LeftSide(host, vals, l, p);
    OperatorAfterTree(l, p, op, q + w);
    ComparesSides(host, vals, Print(l) + p, op, q + w);
    SameTrim(host, vals, q + w, w);
    LiteralAlone(host, vals, quote, c);
    OperatorMeans(host, op, Meaning(host, vals, l), Resolve(host, vals, w));
  }

  lemma {:induction false} SameTrim<V>(host: Host<V>, vals: V, s: string, t: string)
    requires Trim(s, IsJsSpace) == Trim(t, IsJsSpace)
    ensures Resolve(host, vals, s) == Resolve(host, vals, t)
  {
    hide ResolveTrimmed;
  }

  /** The operators found from `from` on, in a literal with an operator after it. */
  lemma {:induction false} OperatorsOfLiteral(w: string, rest: string, from: nat)
    requires |w| >= 2 && IsQuote(w[0]) && IsQuote(w[|w| - 1]) && from <= |w|
    requires |rest| >= 2 && IsEqSign(rest[0]) && rest[1] == '='
    ensures FirstOperator(w + rest, from) == Some(|w|) <==> FirstOperator(w, from) == None && Level(Both, w) == 0
    decreases |w| - from
  {
    hide OperatorAt;
    OperatorsAgree(w, rest, from);
    if from < |w| { OperatorsOfLiteral(w, rest, from + 1); }
  }

  lemma {:induction false} OperatorsAgree(w: string, rest: string, i: nat)
    requires |w| >= 2 && IsQuote(w[0]) && IsQuote(w[|w| - 1]) && i <= |w|
    requires |rest| >= 2 && IsEqSign(rest[0]) && rest[1] == '='
    ensures OperatorAt(w + rest, i) <==> if i < |w| then OperatorAt(w, i) else Level(Both, w) == 0
  {
    var s := w + rest;
    assert s[..i] == w[..i] && w[..|w|] == w;
    assert !IsJsSpace(w[0]);
    assert forall k | 0 <= k < |w| :: s[k] == w[k];
    assert i > 0 ==> s[0] == s[..i][0] && !Blank(s[..i]);
  }

  // ---------- the tokens, and texts that are none ----------

  predicate IsLetter(c: char) { 'A' <= c <= 'Z' || 'a' <= c <= 'z' || c == '_' || c == '$' }

  predicate IsLetterOrDigit(c: char) { IsLetter(c) || '0' <= c <= '9' }

  predicate IsIdent(s: string) { s != "" && IsLetter(s[0]) && All(s, IsLetterOrDigit) }

  predicate IsDigits(s: string) { s != "" && All(s, IsDigit) }

  lemma {:induction false} RunWhole(s: string, p: char -> bool)
    ensures RunLength(s, p) == |s| <==> All(s, p)
  {
    RunAll(s, p);
    assert s[..|s|] == s;
    if All(s, p) {
      RunExact(s, "", p);
      assert s + "" == s;
    }
  }

  /** What a path starts with, and what may follow a dot: a name, or digits. */
  lemma {:induction false} NamesExactly(s: string)
    ensures s != "" && IdentLength(s) == |s| <==> IsIdent(s)
    ensures s != "" && NameLength(s) == |s| <==> IsIdent(s) || IsDigits(s)
  {
    RunWhole(s, IsIdentPart);
    RunWhole(s, IsDigit);
    assert All(s, IsIdentPart) <==> All(s, IsLetterOrDigit);
    if s != "" && IsIdentStart(s[0]) && All(s, IsDigit) { assert IsDigit(s[0]); }
    hide All, RunLength;
  }

  /** A number: an optional minus sign, digits, and an optional point with digits. */
  ghost predicate IsNumeral(s: string) {
    exists minus: bool, whole: string, point: bool, fraction: string ::
      IsDigits(whole) && IsDigits(fraction) && s == Numeral(minus, whole, point, fraction)
  }

  function Numeral(minus: bool, whole: string, point: bool, fraction: string): string {
    (if minus then "-" else "") + (whole + if point then "." + fraction else "")
  }

  lemma {:induction false} DigitsThenPoint(whole: string, fraction: string)
    requires IsDigits(whole) && IsDigits(fraction)
    ensures RunLength(whole + ("." + fraction), IsDigit) == |whole| && RunLength(whole, IsDigit) == |whole|
    ensures whole[0] != '-' && (whole + ("." + fraction))[|whole| + 1..] == fraction
  {
    RunExact(whole, "." + fraction, IsDigit);
    RunExact(whole, "", IsDigit);
    assert whole + "" == whole;
  }

  lemma {:induction false} NumeralsAreNumbers(minus: bool, whole: string, point: bool, fraction: string)
    requires IsDigits(whole) && IsDigits(fraction)
    ensures IsNumber(Numeral(minus, whole, point, fraction))
  {
    DigitsThenPoint(whole, fraction);
    var t := whole + if point then "." + fraction else "";
    assert point ==> t == whole + ("." + fraction) && t[|whole|] == '.';
    assert !point ==> t == whole;
    assert t[0] == whole[0];
    assert minus ==> ("-" + t)[0] == '-' && ("-" + t)[1..] == t;
    assert "" + t == t;
    hide RunLength, All;
  }

  lemma {:induction false} NumberWithoutSign(t: string, minus: bool)
    requires var n := RunLength(t, IsDigit);
             n > 0 && (n == |t| || (t[n] == '.' && n + 1 < |t| && All(t[n + 1..], IsDigit)))
    ensures IsNumeral((if minus then "-" else "") + t)
  {
    var n := RunLength(t, IsDigit);
    RunAll(t, IsDigit);
    var whole, point := t[..n], n < |t|;
    var fraction := if point then t[n + 1..] else "0";
    hide RunLength;
    assert IsDigits(whole) && IsDigits(fraction);
    hide IsDigits;
    assert t == whole + if point then "." + fraction else "";
    assert (if minus then "-" else "") + t == Numeral(minus, whole, point, fraction);
  }

  lemma {:induction false} NumbersExactly(s: string)
    ensures IsNumber(s) <==> IsNumeral(s)
  {
    if IsNumber(s) {
      var minus := s != [] && s[0] == '-';
      var t := if minus then s[1..] else s;
      NumberWithoutSign(t, minus);
      assert s == (if minus then "-" else "") + t;
    }
    hide IsNumber, IsDigits, Numeral;
    if IsNumeral(s) {
      var minus: bool, whole: string, point: bool, fraction: string :|
        IsDigits(whole) && IsDigits(fraction) && s == Numeral(minus, whole, point, fraction);
      NumeralsAreNumbers(minus, whole, point, fraction);
    }
  }

  /** What cannot go on a path: no dot and no bracket, or a dot with no name after it,
      or a bracket that is never closed. */
  predicate BreaksPath(rest: string) {
    && rest != ""
    && if rest[0] == '.' then rest[1..] == "" || !IsLetterOrDigit(rest[1])
       else if rest[0] == '[' then forall k | 1 <= k <= |rest| :: Level(Square, rest[..k]) >= 1
       else !IsLetterOrDigit(rest[0])
  }

  /** A bracket that is never closed is not found closed. */
  lemma {:induction false} NeverFound(expr: string, start: nat, from: nat, depth: nat)
    requires start < from <= |expr| && depth == Level(Square, expr[start..from])
    requires forall k | start < k <= |expr| :: Level(Square, expr[start..k]) >= 1
    ensures CloseBracket(expr, from, depth) == None
    decreases |expr| - from
  {
    if from < |expr| {
      assert expr[start..from + 1][..from - start] == expr[start..from];
      NeverFound(expr, start, from + 1, Level(Square, expr[start..from + 1]));
    }
  }

  lemma {:induction false} PathBreaks<V>(host: Host<V>, vals: V, s: string, rest: string, cur: V)
    requires BreaksPath(rest)
    ensures WalkPath(host, vals, s + rest, |s|, cur) == host.undefined
  {
    var t := s + rest;
    assert t[|s|] == rest[0] && t[|s| + 1..] == rest[1..];
    if rest[0] == '[' {
      forall k | |s| < k <= |t| ensures Level(Square, t[|s|..k]) >= 1 { assert t[|s|..k] == rest[..k - |s|]; }
      assert t[|s|..|s| + 1] == "[" && "["[..0] == "" && Level(Square, "[") == 1;
      NeverFound(t, |s|, |s| + 1, 1);
    }
    hide Level, CloseBracket, Resolve;
  }

  /** A path with anything after it that cannot go on a path is nothing. */
  lemma {:induction false} BrokenPathIsNothing<V>(host: Host<V>, vals: V, e: Expr, rest: string)
    requires IsPath(e) && Shaped(e) && BreaksPath(rest)
    ensures ResolvePath(host, vals, Print(e) + rest) == host.undefined
  {
    assert EndsName(rest);
    hide Shaped, Print, Meaning, ResolvePath, WalkPath, BreaksPath;
    PathPrefix(host, vals, e, rest);
    PathBreaks(host, vals, Print(e), rest, Meaning(host, vals, e));
  }

  /** So is a text with no operator that starts with nothing the language knows. */
  lemma {:induction false} UnknownIsNothing<V>(host: Host<V>, vals: V, s: string)
    requires s != "" && !IsJsSpace(s[0]) && !IsJsSpace(s[|s| - 1]) && FirstOperator(s, 0) == None
    requires s[0] != '(' && s[0] != '!' && !IsIdentStart(s[0]) && !IsNumeral(s) && !IsQuoted(s)
    ensures Resolve(host, vals, s) == host.undefined
  {
    TrimPadded("", s, "", IsJsSpace);
    assert "" + s + "" == s;
    NumbersExactly(s);
    assert IsIdentStart("true"[0]) && IsIdentStart("false"[0]) && IsIdentStart("null"[0]) && IsIdentStart("undefined"[0]);
    hide FirstOperator, WrapsWhole, IsQuoted, Trim, ResolveTrimmed, IsNumeral, IsNumber;
    ResolveIsTrimmed(host, vals, s);
    OperatorOrOperand(host, vals, s);
  }

  /** Blanks alone are nothing. */
  lemma {:induction false} BlankIsNothing<V>(host: Host<V>, vals: V, s: string)
    requires Blank(s)
    ensures Resolve(host, vals, s) == host.undefined
  {
    TrimEmpty(s, IsJsSpace);
  }

  /** Half a literal: a quote with no partner. */
  predicate IsHalf(s: string) {
    && s != "" && s[0] == '\'' && All(s, IsInert) && !IsQuoted(s)
    && !IsEqSign(s[|s| - 1]) && !IsJsSpace(s[|s| - 1])
  }

  /** A text that starts with a quote, is no literal and has no operator is read as
      nothing. */
  lemma {:induction false} BrokenIsNothing<V>(host: Host<V>, vals: V, s: string)
    requires s != "" && IsQuote(s[0]) && !IsQuoted(s) && !IsJsSpace(s[|s| - 1]) && FirstOperator(s, 0) == None
    ensures Resolve(host, vals, s) == host.undefined
  {
    TrimPadded("", s, "", IsJsSpace);
    assert "" + s + "" == s;
    hide FirstOperator, WrapsWhole, IsQuoted, Trim, Level, Resolve, ResolvePath;
    assert Resolve(host, vals, s) == ResolveTrimmed(host, vals, s) by { ResolveIsTrimmed(host, vals, s); }
    hide ResolveTrimmed;
    OperatorOrOperand(host, vals, s);
    assert s[0] != "true"[0] && s[0] != "false"[0] && s[0] != "null"[0] && s[0] != "undefined"[0];
    assert !IsNumber(s) by {
      if IsNumber(s) { NumberShape(s); }
    }
    assert ResolveOperand(host, vals, s) == ResolvePath(host, vals, s);
  }

  lemma {:induction false} HalfIsNothing<V>(host: Host<V>, vals: V, s: string)
    requires IsHalf(s)
    ensures Resolve(host, vals, s) == host.undefined
  {
    QuietPlain(s);
    QuietHasNoOperator(s, 0);
    hide FirstOperator, All, ResolveTrimmed;
    BrokenIsNothing(host, vals, s);
  }

  lemma {:induction false} HalvesCompared<V>(host: Host<V>, vals: V, l: string, r: string)
    requires IsHalf(l) && IsHalf(r)
    ensures ResolveTrimmed(host, vals, l + Symbol(LooseEq) + r)
         == host.Compare("==", Resolve(host, vals, l), Resolve(host, vals, r))
  {
    var s := l + Symbol(LooseEq) + r;
    QuietPlain(l);
    BalancedInert(l);
    OperatorFound(l, "", Symbol(LooseEq) + r, 0);
    assert l + "" == l && l + "" + (Symbol(LooseEq) + r) == s;
    SymbolRead(l, LooseEq, r);
  }

  /** Two halves of a literal with an operator between them, such as 'a==': both
      are read as nothing. */
  lemma {:induction false} OperatorInsideQuotes<V>(host: Host<V>, vals: V, l: string, r: string)
    requires IsHalf(l) && IsHalf(r)
    ensures Resolve(host, vals, l + "==" + r) == host.boolean(host.looseEq(host.undefined, host.undefined))
  {
    hide ResolveTrimmed, All, IsQuoted, IsInert;
    var s := l + Symbol(LooseEq) + r;
    assert s[0] == l[0] && s[|s| - 1] == r[|r| - 1];
    TrimPadded("", s, "", IsJsSpace);
    assert "" + s + "" == s;
    HalvesCompared(host, vals, l, r);
    HalfIsNothing(host, vals, l);
    HalfIsNothing(host, vals, r);
  }

  lemma {:induction false} OperatorInsideQuotesWitness<V>(host: Host<V>, vals: V)
    ensures IsQuoted("'a=='")
    ensures Resolve(host, vals, "'a=='") == host.boolean(host.looseEq(host.undefined, host.undefined))
  {
    OperatorInsideQuotes(host, vals, "'a", "'");
    assert "'a" + "==" + "'" == "'a=='";
  }

  const OPENING := "'('"

  /** Every closing bracket of the text closes one that the text opened. */
  predicate NeverCloses(r: string) { forall k | 0 <= k <= |r| :: Level(Both, r[..k]) >= 0 }

  /** An unmatched bracket inside quotes hides the operator after them: a literal of
      one opening bracket, before an operator and any other side that never closes that
      bracket, is no comparison. The whole is one literal when the other side ends in
      the same quote, and nothing otherwise. */
  lemma {:induction false} BracketInsideQuotes<V>(host: Host<V>, vals: V, r: string, post: string)
    requires NeverCloses(r) && Blank(post) && (r != "" ==> !IsJsSpace(r[|r| - 1]))
    ensures IsQuoted(OPENING)
    ensures var s := OPENING + ("==" + r);
            Resolve(host, vals, s + post) ==
              if r != "" && r[|r| - 1] == '\'' then host.text(s[1..|s| - 1]) else host.undefined
  {
    var s := OPENING + ("==" + r);
    assert s[0] == '\'' && s[|s| - 1] == if r != "" then r[|r| - 1] else '=';
    OpeningHides(r, 0);
    hide FirstOperator, All, Resolve, NeverCloses;
    BlanksAfter(host, vals, s, post);
    if s[|s| - 1] == '\'' {
      var c := s[1..|s| - 1];
      assert s == Wrapped('\'', c, '\'');
      LiteralAlone(host, vals, '\'', c);
    } else {
      BrokenIsNothing(host, vals, s);
    }
  }

  lemma {:induction false} BlanksAfter<V>(host: Host<V>, vals: V, s: string, post: string)
    requires s != "" && !IsJsSpace(s[0]) && !IsJsSpace(s[|s| - 1]) && Blank(post)
    ensures Resolve(host, vals, s + post) == Resolve(host, vals, s)
  {
    hide Resolve;
    TrimPadded("", s, post, IsJsSpace);
    TrimPadded("", s, "", IsJsSpace);
    assert "" + s + post == s + post && "" + s + "" == s;
    SameTrim(host, vals, s + post, s);
  }

  lemma {:induction false} OpeningHides(r: string, from: nat)
    requires NeverCloses(r) && from <= |OPENING + ("==" + r)|
    ensures FirstOperator(OPENING + ("==" + r), from) == None
    decreases |OPENING + ("==" + r)| - from
  {
    var s := OPENING + ("==" + r);
    if from < |s| {
      OpeningLevel(r, from);
      hide Level, NeverCloses;
      OpeningHides(r, from + 1);
    }
  }

  lemma {:induction false} OpeningLevel(r: string, i: nat)
    requires NeverCloses(r) && i < |OPENING + ("==" + r)|
    ensures !OperatorAt(OPENING + ("==" + r), i)
  {
    if i >= 2 { AfterOpening(r, i); }
    hide Level, NeverCloses;
  }

  lemma {:induction false} AfterOpening(r: string, i: nat)
    requires NeverCloses(r) && 2 <= i <= |OPENING + ("==" + r)|
    ensures Level(Both, (OPENING + ("==" + r))[..i]) >= 1
  {
    var s := OPENING + ("==" + r);
    if i == 2 {
      assert s[..2] == "'(" && "'("[..1] == "'" && "'"[..0] == "";
    } else if i <= 5 {
      AfterOpening(r, i - 1);
      assert s[..i][..i - 1] == s[..i - 1];
      assert s[i - 1] == '\'' || s[i - 1] == '=';
    } else {
      AfterOpening(r, 5);
      assert s[..i] == s[..5] + r[..i - 5];
      LevelConcat(Both, s[..5], r[..i - 5]);
    }
  }

  lemma {:induction false} JoinedText()
    ensures OPENING + ("==" + "'x'") + "" == "'('=='x'" && (OPENING + ("==" + "'x'"))[1..7] == "('=='x"
    ensures |OPENING + ("==" + "'x'")| == 8
  {
  }

  lemma {:induction false} NothingToClose()
    ensures NeverCloses("'x'") && "'x'" != "" && "'x'"[|"'x'"| - 1] == '\''
  {
    BalancedInert("'x'");
  }

  /** For one, with `'x'` on the other side the whole is one literal. */
  lemma {:induction false} BracketJoinsLiterals<V>(host: Host<V>, vals: V)
    ensures Resolve(host, vals, "'('=='x'") == host.text("('=='x")
  {
    hide NeverCloses, Resolve, OPENING, Level, IsQuoted;
    NothingToClose();
    JoinedText();
    BracketInsideQuotes(host, vals, "'x'", "");
  }

  // ---------- the operator found, character by character ----------

  /** How often a character occurs. */
  function Count(s: string, c: char): nat { multiset(s)[c] }

  lemma {:induction false} CountLast(s: string, c: char)
    requires s != ""
    ensures Count(s, c) == Count(s[..|s| - 1], c) + if s[|s| - 1] == c then 1 else 0
  {
    assert s == s[..|s| - 1] + [s[|s| - 1]];
  }

  /** A bracket level is a number of openings minus a number of closings. */
  lemma {:induction false} LevelCounts(s: string)
    ensures Level(Round, s) == Count(s, '(') - Count(s, ')')
    ensures Level(Square, s) == Count(s, '[') - Count(s, ']')
    ensures Level(Both, s) == Level(Round, s) + Level(Square, s)
  {
    if s != "" {
      LevelCounts(s[..|s| - 1]);
      CountLast(s, '(');
      CountLast(s, ')');
      CountLast(s, '[');
      CountLast(s, ']');
      hide Count;
    }
  }

  /** An operator starts at `i`: `==` or `!=`, not the tail of another one, behind text
      that is not blank and in which as many brackets close as open. */
  ghost predicate StartsOperator(expr: string, i: int) {
    && 0 <= i && i + 1 < |expr| && (expr[i] == '=' || expr[i] == '!') && expr[i + 1] == '='
    && (i > 0 ==> expr[i - 1] != '=' && expr[i - 1] != '!')
    && (exists k | 0 <= k < i :: !IsJsSpace(expr[k]))
    && Count(expr[..i], '(') + Count(expr[..i], '[') == Count(expr[..i], ')') + Count(expr[..i], ']')
  }

  lemma {:induction false} StartsWhereAccepted(expr: string, i: nat)
    requires i < |expr|
    ensures OperatorAt(expr, i) <==> StartsOperator(expr, i)
  {
    LevelCounts(expr[..i]);
    hide Count, Level, IsJsSpace;
    if exists k | 0 <= k < i :: !IsJsSpace(expr[k]) {
      var k :| 0 <= k < i && !IsJsSpace(expr[k]);
      assert expr[..i][k] == expr[k];
    }
  }

  /** The search finds the first place where an operator starts, and it is three
      characters long when another equals sign follows. */
  lemma {:induction false} OperatorsExactly(expr: string, i: nat)
    ensures FirstOperator(expr, 0) == Some(i) <==> StartsOperator(expr, i) && forall k | 0 <= k < i :: !StartsOperator(expr, k)
    ensures StartsOperator(expr, i) ==>
      OperatorText(expr, i) == expr[i..i + if i + 2 < |expr| && expr[i + 2] == '=' then 3 else 2]
  {
    var found := FirstOperator(expr, 0);
    if StartsOperator(expr, i) { OperatorSigns(expr, i); }
    hide OperatorAt, StartsOperator, FirstOperator, OperatorText;
    forall k: nat | k < |expr| ensures OperatorAt(expr, k) <==> StartsOperator(expr, k) { StartsWhereAccepted(expr, k); }
    if StartsOperator(expr, i) { assert i < |expr| && OperatorAt(expr, i); }
  }

  lemma {:induction false} OperatorSigns(expr: string, i: nat)
    requires StartsOperator(expr, i)
    ensures i + 1 < |expr|
    ensures OperatorText(expr, i) == expr[i..i + if i + 2 < |expr| && expr[i + 2] == '=' then 3 else 2]
  {
    hide Count;
  }
}
