/** The mutant name patterns of the mutation gate, spelled out from the path of the file,
    the class and the name of the function. */
module MutationPatterns {
  import opened Text
  import opened MutationScope
  import opened MutationScopeProofs

  // ---------- the module of a path ----------

  /** Dots for slashes. */
  function Dotted(s: string): string {
    if s == "" then "" else [if s[0] == '/' then '.' else s[0]] + Dotted(s[1..])
  }

  lemma {:induction false} DottedIsDots(s: string)
    ensures Dots(s) == Dotted(s)
  {
    if s != "" {
      DottedIsDots(s[1..]);
      assert Dots(s) == [if s[0] == '/' then '.' else s[0]] + Dots(s[1..]);
    }
  }

  predicate EndsPy(s: string) { |s| >= 3 && s[|s| - 3..] == ".py" }

  lemma {:induction false} PyComesOff(core: string)
    ensures EndsPy(core + ".py") && (core + ".py")[..|core + ".py"| - 3] == core
  {
    assert (core + ".py")[|core|..] == ".py";
  }

  lemma {:induction false} SrcComesOff(s: string)
    ensures "src/" <= "src/" + s && ("src/" + s)[4..] == s
  {
  }

  /** The module of a path that has no `src/` before it. */
  lemma {:induction false} ModuleOf(s: string)
    requires !("src/" <= s)
    ensures ModuleName(s) == Dotted(if EndsPy(s) then s[..|s| - 3] else s)
    ensures ModuleName("src/" + s) == ModuleName(s)
  {
    DottedIsDots(if EndsPy(s) then s[..|s| - 3] else s);
    SrcComesOff(s);
    hide Dots, Dotted;
  }

  lemma {:induction false} ModuleUnderSrc(s: string)
    ensures ModuleName("src/" + s) == Dotted(if EndsPy(s) then s[..|s| - 3] else s)
  {
    DottedIsDots(if EndsPy(s) then s[..|s| - 3] else s);
    SrcComesOff(s);
    hide Dots, Dotted;
  }

  /** The module of a path: without `src/` before it and `.py` after it, if they are
      there, and with dots for slashes. */
  lemma {:induction false} ModuleExactly(core: string)
    ensures ModuleName("src/" + (core + ".py")) == Dotted(core)
    ensures !EndsPy(core) ==> ModuleName("src/" + core) == Dotted(core)
    ensures !("src/" <= core + ".py") ==> ModuleName(core + ".py") == Dotted(core)
    ensures !("src/" <= core) && !EndsPy(core) ==> ModuleName(core) == Dotted(core)
  {
    PyComesOff(core);
    ModuleUnderSrc(core + ".py");
    ModuleUnderSrc(core);
    if !("src/" <= core + ".py") { ModuleOf(core + ".py"); }
    if !("src/" <= core) { ModuleOf(core); }
    hide ModuleName, Dotted, EndsPy;
  }

  // ---------- the two patterns of a function ----------

  /** The innermost class that the function stands in, if any. */
  function InnerClass(m: Member): Option<string> {
    if m.chain == [] then None else Some(m.chain[|m.chain| - 1].name)
  }

  /** How the tool names the copies of a function. */
  function CopyName(cls: Option<string>, name: string): string {
    match cls
    case None => "x_" + name
    case Some(c) => "x\U{01C1}" + c + "\U{01C1}" + name
  }

  function MutantPattern(mod: string, cls: Option<string>, name: string): string {
    mod + "." + CopyName(cls, name) + "__mutmut_*"
  }

  function OriginalPattern(mod: string, cls: Option<string>, name: string): string {
    "*" + mod + "." + CopyName(cls, name)
  }

  /** A function in a class that has a name. */
  predicate HasNames(m: Member) { InnerClass(m) != Some("") }

  lemma {:induction false} PairExactly(m: Member, mod: string)
    requires HasNames(m)
    ensures PairOf(m, mod) == [MutantPattern(mod, InnerClass(m), m.def.name), OriginalPattern(mod, InnerClass(m), m.def.name)]
  {
    var c := InnerClass(m);
    if c.Some? { assert "x\U{01C1}" + c.value + "\U{01C1}" + m.def.name == "x" + BAR + c.value + BAR + m.def.name; }
    var copy := CopyName(c, m.def.name);
    assert mod + "." + copy + "__mutmut_*" == mod + "." + MutantName(m.Class(), m.def) + "__mutmut_*";
    assert "*" + mod + "." + copy == "*" + (mod + "." + MutantName(m.Class(), m.def));
  }

  /** The functions of a file that the gate names. */
  ghost predicate NamedIn(c: Change, commit: Commit, m: Member) {
    Walked(c, commit) && m in MembersOf(TreeOf(c, commit)) && Named(m, c.lines)
  }

  /** Every class that a named function stands in has a name. */
  ghost predicate NamesGiven(changes: seq<Change>, commit: Commit) {
    forall c <- changes, m | NamedIn(c, commit, m) :: HasNames(m)
  }

  predicate Spells(c: Change, m: Member, g: string) {
    g == MutantPattern(ModuleName(c.path), InnerClass(m), m.def.name) || g == OriginalPattern(ModuleName(c.path), InnerClass(m), m.def.name)
  }

  lemma {:induction false} SpelledIn(c: Change, commit: Commit, g: string)
    requires forall m | NamedIn(c, commit, m) :: HasNames(m)
    ensures Walked(c, commit) && g in PatternsOf(c, commit) <==> exists m :: NamedIn(c, commit, m) && Spells(c, m, g)
  {
    hide ModuleName, Named, MembersOf, HasNames, PairOf, Spells;
    forall m | NamedIn(c, commit, m) ensures g in PairOf(m, ModuleName(c.path)) <==> Spells(c, m, g) { PairSpells(c, m, g); }
  }

  lemma {:induction false} PairSpells(c: Change, m: Member, g: string)
    requires HasNames(m)
    ensures g in PairOf(m, ModuleName(c.path)) <==> Spells(c, m, g)
  {
    PairExactly(m, ModuleName(c.path));
    hide PairOf, ModuleName, MutantPattern, OriginalPattern;
  }

  /** The patterns of a diff are those of its named functions, spelled out: a pattern
      for the mutants of each, and one for its original. */
  lemma {:induction false} PatternsSpelled(changes: seq<Change>, commit: Commit)
    requires NamesGiven(changes, commit)
    ensures forall g :: g in Patterns(changes, commit) <==> exists c <- changes, m :: NamedIn(c, commit, m) && Spells(c, m, g)
  {
    DiffIsAccounted(changes, commit);
    hide Patterns, Spells, NamedIn, Walked, PatternsOf, HasNames;
    forall g ensures g in Patterns(changes, commit) <==> exists c <- changes, m :: NamedIn(c, commit, m) && Spells(c, m, g) {
      forall c | c in changes ensures Walked(c, commit) && g in PatternsOf(c, commit) <==> exists m :: NamedIn(c, commit, m) && Spells(c, m, g) {
        SpelledIn(c, commit, g);
      }
    }
  }

  // ---------- patterns tell functions apart ----------

  predicate NoBar(s: string) { '\U{01C1}' !in s }

  lemma {:induction false} CopiesDiffer(c: Option<string>, name: string, d: Option<string>, other: string)
    requires CopyName(c, name) == CopyName(d, other)
    requires (c.Some? ==> NoBar(c.value)) && (d.Some? ==> NoBar(d.value))
    ensures c == d && name == other
  {
    var s, t := CopyName(c, name), CopyName(d, other);
    assert s[1] == (if c.Some? then '\U{01C1}' else '_') && t[1] == (if d.Some? then '\U{01C1}' else '_');
    if c == None {
      assert s[2..] == name && t[2..] == other;
    } else {
      assert s[2..] == c.value + ("\U{01C1}" + name) && t[2..] == d.value + ("\U{01C1}" + other);
      BarSplits(c.value, name, d.value, other);
    }
  }

  predicate IsNoBar(c: char) { c != '\U{01C1}' }

  lemma {:induction false} BarSplits(a: string, x: string, b: string, y: string)
    requires NoBar(a) && NoBar(b) && a + ("\U{01C1}" + x) == b + ("\U{01C1}" + y)
    ensures a == b && x == y
  {
    var s, t := a + ("\U{01C1}" + x), b + ("\U{01C1}" + y);
    assert All(a, IsNoBar) && All(b, IsNoBar);
    RunExact(a, "\U{01C1}" + x, IsNoBar);
    RunExact(b, "\U{01C1}" + y, IsNoBar);
    assert s[..|a|] == a && t[..|b|] == b && s[|a| + 1..] == x && t[|b| + 1..] == y;
  }

  /** In one module two functions share a pattern only if they have the same class and
      the same name. */
  lemma {:induction false} PatternsTellApart(mod: string, c: Option<string>, name: string, d: Option<string>, other: string)
    requires (c.Some? ==> NoBar(c.value)) && (d.Some? ==> NoBar(d.value))
    ensures MutantPattern(mod, c, name) == MutantPattern(mod, d, other) ==> c == d && name == other
    ensures OriginalPattern(mod, c, name) == OriginalPattern(mod, d, other) ==> c == d && name == other
    ensures mod != "" && mod[0] != '*' ==> MutantPattern(mod, c, name) != OriginalPattern(mod, d, other)
  {
    var s, t := CopyName(c, name), CopyName(d, other);
    if MutantPattern(mod, c, name) == MutantPattern(mod, d, other) {
      SamePieces(mod + ".", s, t, "__mutmut_*");
      CopiesDiffer(c, name, d, other);
    }
    if OriginalPattern(mod, c, name) == OriginalPattern(mod, d, other) {
      SamePieces("*" + mod + ".", s, t, "");
      assert "*" + mod + "." + s + "" == OriginalPattern(mod, c, name) && "*" + mod + "." + t + "" == OriginalPattern(mod, d, other);
      CopiesDiffer(c, name, d, other);
    }
    if mod != "" { assert MutantPattern(mod, c, name)[0] == mod[0] && OriginalPattern(mod, d, other)[0] == '*'; }
  }

  lemma {:induction false} SamePieces(pre: string, s: string, t: string, post: string)
    ensures pre + s + post == pre + t + post ==> s == t
  {
    if pre + s + post == pre + t + post {
      assert |s| == |t|;
      assert (pre + s + post)[|pre|..|pre| + |s|] == s && (pre + t + post)[|pre|..|pre| + |t|] == t;
    }
  }

  // ---------- which functions count ----------

  /** A changed line touches a function when it lies between its first and last line. */
  lemma {:induction false} TouchedExactly(m: Member, changed: set<nat>)
    ensures m.Touched(changed) <==>
      exists n <- changed :: m.def.line <= n && n <= match m.def.endLine case None => m.def.line case Some(end) => if end == 0 then m.def.line else end
  {
    if n :| n in changed && n in m.Span() { assert n in changed * m.Span(); }
  }

  /** A decorated function is skipped whole, but for a lone bare `staticmethod` or
      `classmethod`. */
  lemma {:induction false} SkippedWhole(f: Function)
    ensures Unmutatable(f) <==>
      f.decorators != [] && f.decorators != [Name("staticmethod")] && f.decorators != [Name("classmethod")]
  {
    if |f.decorators| == 1 { assert f.decorators == [f.decorators[0]]; }
  }
}
