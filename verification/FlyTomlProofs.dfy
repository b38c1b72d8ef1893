/** What `set_flag_false` does to the flag it edits and to the other flag. */
module FlyTomlProofs {
  import opened Text
  import opened FlyToml

  // ---------- heads ----------

  predicate IsHeadChar(c: char) { c != '\n' && c != '"' && c != '\\' }

  lemma {:induction false} KeyChars(s: string, key: string)
    requires KeyAt(s, key) && IsKey(key)
    ensures All(s[..|key|], IsHeadChar)
  {
    forall i | 0 <= i < |key| ensures IsHeadChar(s[i]) {
      assert FoldsTo(s[i], key[i]) && key[i] in key;
    }
  }

  lemma {:induction false} HeadBounds(h: string, key: string)
    requires IsHead(h, key)
    ensures var i := RunLength(h, IsTab);
            && i + |key| <= |h| && KeyAt(h[i..], key)
            && var k := RunLength(h[i + |key|..], IsTab);
               i + |key| + k < |h| && h[i + |key|..][k] == '=' && All(h[i + |key|..][k + 1..], IsTab)
  {
  }

  /** A head is blanks, the key's characters, blanks, an equals sign, blanks. */
  lemma {:induction false} HeadParts(h: string, key: string) returns (a: string, name: string, b: string, c: string)
    requires IsHead(h, key) && IsKey(key)
    ensures h == a + (name + (b + ("=" + c)))
    ensures All(a, IsTab) && All(name, IsHeadChar) && All(b, IsTab) && All(c, IsTab)
  {
    HeadBounds(h, key);
    hide IsTab, KeyAt, RunLength, IsKey, IsHeadChar, IsHead, All;
    var i := RunLength(h, IsTab);
    RunAll(h, IsTab);
    KeyChars(h[i..], key);
    var rest := h[i + |key|..];
    var k := RunLength(rest, IsTab);
    RunAll(rest, IsTab);
    a, name, b, c := h[..i], h[i..][..|key|], rest[..k], rest[k + 1..];
    HeadCut(h, i, |key|, rest, k);
  }

  lemma {:induction false} HeadCut(h: string, i: nat, n: nat, rest: string, k: nat)
    requires i + n <= |h| && rest == h[i + n..] && k < |rest| && rest[k] == '='
    ensures h == h[..i] + (h[i..][..n] + (rest[..k] + ("=" + rest[k + 1..])))
  {
  }

  lemma {:induction false} HeadChars(h: string, key: string)
    requires IsHead(h, key) && IsKey(key)
    ensures All(h, IsHeadChar) && h != ""
  {
    var a, name, b, c := HeadParts(h, key);
    assert All("=", IsHeadChar);
    hide IsTab, IsKey, IsHead, All, IsHeadChar;
    AllConcat("=", c, IsHeadChar);
    AllConcat(b, "=" + c, IsHeadChar);
    AllConcat(name, b + ("=" + c), IsHeadChar);
    AllConcat(a, name + (b + ("=" + c)), IsHeadChar);
  }

  lemma {:induction false} AllConcat(s: string, t: string, ok: char -> bool)
    requires All(s, ok) && All(t, ok)
    ensures All(s + t, ok)
  {
  }

  predicate Disjoint(a: string, b: string)
    requires a != "" && b != ""
  {
    forall c: char :: !(FoldsTo(c, a[0]) && FoldsTo(c, b[0]))
  }

  lemma {:induction false} HeadOfOneKey(h: string, a: string, b: string)
    requires IsKey(a) && IsKey(b) && Disjoint(a, b) && IsHead(h, b)
    ensures !IsHead(h, a)
  {
    var t := h[RunLength(h, IsTab)..];
    assert FoldsTo(t[0], b[0]);
    assert !FoldsTo(t[0], a[0]);
  }

  lemma {:induction false} OffHead(indent: string, key: string)
    requires All(indent, IsTab) && IsKey(key)
    ensures IsHead(indent + key + " = ", key) && RunLength(indent + key + " = ", IsTab) == |indent|
  {
    var h := indent + key + " = ";
    assert h == indent + (key + " = ");
    assert key[0] in key;
    RunExact(indent, key + " = ", IsTab);
    assert h[|indent|..] == key + " = ";
    assert h[|indent| + |key|..] == " = ";
    assert " = "[1..] == "= ";
    assert RunLength(" = ", IsTab) == 1;
  }

  // ---------- a match that starts before a replaced piece ----------

  /** `x` goes on with `n` characters of any quoted value, then a quote. */
  predicate Opens(x: string, n: nat) {
    n < |x| && x[n] == '"' && All(x[..n], IsValueChar)
  }

  lemma {:induction false} FlagSplit(h: string, t: string, key: string)
    requires All(h, NotQuote)
    ensures FlagHere(h + "\"" + t, key) == if IsHead(h, key) then FlagTail(h, t) else None
  {
    var s := h + "\"" + t;
    assert s == h + ("\"" + t);
    RunExact(h, "\"" + t, NotQuote);
    assert s[..|h|] == h && s[|h| + 1..] == t;
  }

  /** What the text up to a line start tells of a match that starts in it: none,
      one that ends in it, or one whose value runs past it. */
  datatype Reach = No | Inside(flag: Flag) | Across

  function TailReach(h: string, t: string): Reach {
    if RunLength(t, IsValueChar) == |t| then Across
    else if FlagTail(h, t) == None then No
    else Inside(FlagTail(h, t).value)
  }

  function ReachOf(p: string, key: string): Reach {
    var q := RunLength(p, NotQuote);
    if q == |p| || !IsHead(p[..q], key) then No else TailReach(p[..q], p[q + 1..])
  }

  predicate Agrees(r: Reach, found: Option<Flag>, limit: nat) {
    match r
    case No => found == None
    case Inside(f) => found == Some(f) && f.length <= limit
    case Across => found.Some? && found.value.length > limit
  }

  lemma {:induction false} TailDecides(h: string, t: string, x: string, n: nat)
    requires Opens(x, n)
    ensures Agrees(TailReach(h, t), FlagTail(h, t + x), |h| + 1 + |t|)
  {
    var v := RunLength(t, IsValueChar);
    RunConcat(t, x, IsValueChar);
    if v < |t| {
      assert (t + x)[..v] == t[..v];
    } else {
      assert x == x[..n] + x[n..];
      RunExact(x[..n], x[n..], IsValueChar);
    }
  }

  lemma {:induction false} NoHeadPastLineEnd(p: string, x: string, key: string)
    requires IsKey(key) && p != "" && p[|p| - 1] == '\n' && RunLength(p, NotQuote) == |p|
    ensures FlagHere(p + x, key) == None
  {
    RunConcat(p, x, NotQuote);
    var q := RunLength(p + x, NotQuote);
    assert (p + x)[..q][|p| - 1] == '\n';
    if IsHead((p + x)[..q], key) {
      HeadChars((p + x)[..q], key);
      assert false;
    }
  }

  lemma {:induction false} ReachDecides(p: string, x: string, n: nat, key: string)
    requires IsKey(key) && p != "" && p[|p| - 1] == '\n' && Opens(x, n)
    ensures Agrees(ReachOf(p, key), FlagHere(p + x, key), |p|)
  {
    var q := RunLength(p, NotQuote);
    if q == |p| {
      NoHeadPastLineEnd(p, x, key);
    } else {
      var h, t := p[..q], p[q + 1..];
      RunAll(p, NotQuote);
      assert p + x == h + "\"" + (t + x);
      FlagSplit(h, t + x, key);
      TailDecides(h, t, x, n);
    }
  }

  lemma {:induction false} PrefixAgree(pre: string, x: string, nx: nat, y: string, ny: nat, key: string, i: nat)
    requires IsKey(key) && i < |pre| && pre[|pre| - 1] == '\n' && Opens(x, nx) && Opens(y, ny)
    ensures FlagAt(pre + x, key, i).Some? <==> FlagAt(pre + y, key, i).Some?
    ensures FlagAt(pre + x, key, i).Some? && i + FlagAt(pre + x, key, i).value.length <= |pre| ==>
            FlagAt(pre + y, key, i) == FlagAt(pre + x, key, i)
    ensures FlagAt(pre + x, key, i).Some? && i + FlagAt(pre + x, key, i).value.length > |pre| ==>
            i + FlagAt(pre + y, key, i).value.length > |pre|
  {
    var p := pre[i..];
    assert (pre + x)[i..] == p + x && (pre + y)[i..] == p + y;
    ReachDecides(p, x, nx, key);
    ReachDecides(p, y, ny, key);
  }

  lemma {:induction false} SuffixAgree(a: string, b: string, rest: string, key: string, j: nat)
    requires a != "" && b != "" && a[|a| - 1] == '"' && b[|b| - 1] == '"' && j <= |rest|
    ensures FlagAt(a + rest, key, |a| + j) == FlagAt(b + rest, key, |b| + j)
  {
    assert (a + rest)[|a| + j..] == rest[j..] == (b + rest)[|b| + j..];
  }

  // ---------- exactly one match ----------

  ghost predicate NoFlag(text: string, key: string, from: nat, to: int) {
    forall i :: from <= i < to ==> FlagAt(text, key, i) == None
  }

  /** The only match, at `s`. */
  ghost predicate Single(text: string, key: string, s: nat) {
    && FlagAt(text, key, s).Some?
    && NoFlag(text, key, 0, s)
    && NoFlag(text, key, s + FlagAt(text, key, s).value.length, |text| + 1)
  }

  lemma {:induction false} FlagsEmpty(text: string, key: string, from: nat)
    requires from <= |text|
    ensures Flags(text, key, from) == [] <==> NoFlag(text, key, from, |text| + 1)
    decreases |text| - from
  {
    hide FlagAt;
    if from == |text| {
    } else if FlagAt(text, key, from) == None {
      FlagsEmpty(text, key, from + 1);
    }
  }

  lemma {:induction false} FlagsSingle(text: string, key: string, from: nat, s: nat)
    requires from <= s <= |text|
    ensures Flags(text, key, from) == [s] <==>
            && FlagAt(text, key, s).Some? && NoFlag(text, key, from, s)
            && NoFlag(text, key, s + FlagAt(text, key, s).value.length, |text| + 1)
    decreases |text| - from
  {
    hide FlagAt;
    if from == |text| {
    } else if FlagAt(text, key, from).Some? {
      var next := from + FlagAt(text, key, from).value.length;
      FlagsEmpty(text, key, next);
      assert Flags(text, key, from) == [from] + Flags(text, key, next);
      assert Flags(text, key, from)[0] == from;
    } else if from < s {
      FlagsSingle(text, key, from + 1, s);
    } else {
      assert s !in Flags(text, key, from + 1);
    }
  }

  lemma {:induction false} SingleFlags(text: string, key: string, s: nat)
    requires s <= |text|
    ensures Flags(text, key, 0) == [s] <==> Single(text, key, s)
  {
    FlagsSingle(text, key, 0, s);
  }

  // ---------- replacing one flag line ----------

  /** A match cut out of its text. */
  lemma {:induction false} FlagShape(text: string, key: string, s: nat)
    requires IsKey(key) && s <= |text| && FlagAt(text, key, s).Some?
    ensures var f := FlagAt(text, key, s).value;
            var x := text[s..s + f.length];
            var q := RunLength(text[s..], NotQuote);
            && Opens(x, q) && x[|x| - 1] == '"' && IsHead(x[..q], key) && All(f.indent, IsTab)
            && q + 2 <= |x| && LineStart(text, s)
  {
    var rest := text[s..];
    var q := RunLength(rest, NotQuote);
    HeadChars(rest[..q], key);
    RunAll(rest, NotQuote);
    RunAll(rest[..q], IsTab);
    var f := FlagAt(text, key, s).value;
    assert text[s..s + f.length] == rest[..f.length];
    assert rest[..f.length][..q] == rest[..q];
    assert rest[..f.length][f.length - 1] == rest[f.length - 1];
  }

  lemma {:induction false} OffLineShape(indent: string, key: string)
    requires All(indent, IsTab) && IsKey(key)
    ensures var y := OffLine(indent, key);
            && Opens(y, |indent| + |key| + 3) && y[|y| - 1] == '"' && '\n' !in y
            && y[..|indent| + |key| + 3] == indent + key + " = "
            && |y| == |indent| + |key| + 10
  {
    var y := OffLine(indent, key);
    var n := |indent| + |key| + 3;
    assert y == (indent + key + " = ") + "\"false\"";
    OffHead(indent, key);
    HeadChars(indent + key + " = ", key);
    assert y[..n] == indent + key + " = ";
    assert forall i :: n <= i < |y| ==> y[i] == "\"false\""[i - n];
  }

  /** The replaced line is itself read as the flag, off, and never as the other flag. */
  lemma {:induction false} OffLineRead(indent: string, key: string, rest: string)
    requires All(indent, IsTab) && IsKey(key)
    ensures FlagHere(OffLine(indent, key) + rest, key) == Some(Flag(indent, "false", |OffLine(indent, key)|))
    ensures forall other :: IsKey(other) && Disjoint(other, key) ==> FlagHere(OffLine(indent, key) + rest, other) == None
  {
    hide FlagHere, IsHead;
    var h := indent + key + " = ";
    var t := "false" + ("\"" + rest);
    OffHead(indent, key);
    HeadChars(h, key);
    assert h[..|indent|] == indent;
    assert OffLine(indent, key) + rest == h + "\"" + t;
    FlagSplit(h, t, key);
    RunExact("false", "\"" + rest, IsValueChar);
    assert t[..5] == "false";
    forall other | IsKey(other) && Disjoint(other, key) ensures FlagHere(OffLine(indent, key) + rest, other) == None {
      FlagSplit(h, t, other);
      HeadOfOneKey(h, other, key);
    }
  }

  /** An edit as a text before the line, the old line, and a text after it. */
  datatype Cut = Cut(pre: string, was: string, nWas: nat, line: string, nLine: nat, rest: string)

  /** The two lines open a quoted value in the same place of the same text. */
  predicate GoodCut(c: Cut) {
    && (c.pre == "" || c.pre[|c.pre| - 1] == '\n')
    && Opens(c.was, c.nWas) && Opens(c.line, c.nLine)
    && c.was[|c.was| - 1] == '"' && c.line[|c.line| - 1] == '"' && '\n' !in c.line
  }

  function CutFrom(c: Cut): string { c.pre + c.was + c.rest }
  function CutTo(c: Cut): string { c.pre + c.line + c.rest }

  lemma {:induction false} CutBefore(c: Cut, key: string, i: nat)
    requires GoodCut(c) && IsKey(key) && i < |c.pre|
    ensures FlagAt(CutFrom(c), key, i).Some? <==> FlagAt(CutTo(c), key, i).Some?
    ensures FlagAt(CutFrom(c), key, i).Some? && i + FlagAt(CutFrom(c), key, i).value.length <= |c.pre| ==>
            FlagAt(CutTo(c), key, i) == FlagAt(CutFrom(c), key, i)
    ensures FlagAt(CutFrom(c), key, i).Some? && i + FlagAt(CutFrom(c), key, i).value.length > |c.pre| ==>
            i + FlagAt(CutTo(c), key, i).value.length > |c.pre|
  {
    assert CutFrom(c) == c.pre + (c.was + c.rest) && CutTo(c) == c.pre + (c.line + c.rest);
    PrefixAgree(c.pre, c.was + c.rest, c.nWas, c.line + c.rest, c.nLine, key, i);
  }

  lemma {:induction false} CutAfter(c: Cut, key: string, j: nat)
    requires GoodCut(c) && j <= |c.rest|
    ensures FlagAt(CutFrom(c), key, |c.pre + c.was| + j) == FlagAt(CutTo(c), key, |c.pre + c.line| + j)
  {
    SuffixAgree(c.pre + c.was, c.pre + c.line, c.rest, key, j);
  }

  lemma {:induction false} CutInside(c: Cut, key: string, i: nat)
    requires GoodCut(c) && |c.pre| < i < |c.pre + c.line|
    ensures FlagAt(CutTo(c), key, i) == None
  {
  }

  /** After the line, the two texts hold the same matches. */
  lemma {:induction false} CutRest(c: Cut, key: string, from: nat, to: nat)
    requires GoodCut(c) && from <= to <= |c.rest| + 1
    ensures NoFlag(CutFrom(c), key, |c.pre + c.was| + from, |c.pre + c.was| + to)
       <==> NoFlag(CutTo(c), key, |c.pre + c.line| + from, |c.pre + c.line| + to)
  {
    hide FlagAt;
    var a, b := |c.pre + c.was|, |c.pre + c.line|;
    if NoFlag(CutFrom(c), key, a + from, a + to) {
      forall i | b + from <= i < b + to ensures FlagAt(CutTo(c), key, i) == None {
        CutAfter(c, key, i - b);
      }
    }
    if NoFlag(CutTo(c), key, b + from, b + to) {
      forall i | a + from <= i < a + to ensures FlagAt(CutFrom(c), key, i) == None {
        CutAfter(c, key, i - a);
      }
    }
  }

  /** The cut that an edit of `key` at its only match makes. */
  function CutOf(text: string, key: string, s: nat): Cut
    requires s <= |text| && FlagAt(text, key, s).Some?
  {
    var f := FlagAt(text, key, s).value;
    Cut(text[..s], text[s..s + f.length], RunLength(text[s..], NotQuote),
        OffLine(f.indent, key), |f.indent| + |key| + 3, text[s + f.length..])
  }

  lemma {:induction false} CutOfEdit(text: string, key: string, s: nat)
    requires IsKey(key) && s <= |text| && FlagAt(text, key, s).Some?
    ensures var c := CutOf(text, key, s);
            && GoodCut(c) && CutFrom(c) == text && |c.pre| == s
            && |c.pre + c.was| == s + FlagAt(text, key, s).value.length
            && FlagAt(CutTo(c), key, s) == Some(Flag(FlagAt(text, key, s).value.indent, "false", |c.line|))
  {
    hide FlagAt, OffLine, RunLength, IsHead;
    var f := FlagAt(text, key, s).value;
    FlagShape(text, key, s);
    OffLineShape(f.indent, key);
    CutOfRead(text, key, s);
  }

  /** A piece replaced from `s` on: the same place starts a line, and what is read
      there is the new piece. */
  lemma {:induction false} ReplacedFrom(text: string, line: string, rest: string, key: string, s: nat)
    requires s <= |text|
    ensures var t := text[..s] + line + rest;
            FlagAt(t, key, s) == if LineStart(text, s) then FlagHere(line + rest, key) else None
  {
    hide FlagHere;
    var t := text[..s] + line + rest;
    assert t[s..] == line + rest && (s > 0 ==> t[s - 1] == text[s - 1]);
  }

  lemma {:induction false} CutOfRead(text: string, key: string, s: nat)
    requires IsKey(key) && s <= |text| && FlagAt(text, key, s).Some?
    ensures var c := CutOf(text, key, s);
            FlagAt(CutTo(c), key, s) == Some(Flag(FlagAt(text, key, s).value.indent, "false", |c.line|))
  {
    hide IsKey, All, IsHead, Opens, FlagHere, OffLine, FlagAt, LineStart, RunLength;
    FlagShape(text, key, s);
    var c := CutOf(text, key, s);
    OffLineRead(FlagAt(text, key, s).value.indent, key, c.rest);
    ReplacedFrom(text, c.line, c.rest, key, s);
  }

  lemma {:induction false} FalseIsOff()
    ensures IsOff("false")
  {
  }

  lemma {:induction false} CutKeepsSingle(text: string, key: string, s: nat)
    requires IsKey(key) && s <= |text| && Single(text, key, s)
    ensures Single(CutTo(CutOf(text, key, s)), key, s)
  {
    hide FlagAt;
    CutOfEdit(text, key, s);
    var c := CutOf(text, key, s);
    forall i | 0 <= i < s ensures FlagAt(CutTo(c), key, i) == None {
      CutBefore(c, key, i);
    }
    CutRest(c, key, 0, |c.rest| + 1);
  }

  /** After an edit that succeeds, the flag is declared once and reads off. */
  lemma {:induction false} EditTurnsOff(text: string, key: string)
    requires IsKey(key) && SetFlagFalse(text, key).Edited?
    ensures Unedited(SetFlagFalse(text, key).text, key)
  {
    hide FlagAt, IsOff;
    var s := Flags(text, key, 0)[0];
    assert s in Flags(text, key, 0) && Flags(text, key, 0) == [s];
    SingleFlags(text, key, s);
    if !IsOff(FlagAt(text, key, s).value.value) {
      CutOfEdit(text, key, s);
      CutKeepsSingle(text, key, s);
      var c := CutOf(text, key, s);
      SingleFlags(CutTo(c), key, s);
      FalseIsOff();
    }
  }

  // ---------- the other flag ----------

  /** The edited flag's quoted value runs on over the other flag's line. */
  predicate Swallows(text: string, edited: string, other: string) {
    |Flags(text, edited, 0)| == 1 && |Flags(text, other, 0)| == 1 &&
    var s, a := Flags(text, edited, 0)[0], Flags(text, other, 0)[0];
    s < a && FlagAt(text, edited, s).Some? && a < s + FlagAt(text, edited, s).value.length
  }

  lemma {:induction false} OffHasNoEquals(value: string)
    requires IsOff(value)
    ensures '=' !in value
  {
    TrimParts(value, IsPySpace);
    var w := Strip(value);
    forall i | 0 <= i < |w| ensures w[i] != '=' {
      assert Lower(w)[i] == LowerChar(w[i]);
    }
    assert value == Text.Before(value, IsPySpace) + w + Text.After(value, IsPySpace);
  }

  /** A match in absolute positions: its head, its opening quote and its value. */
  lemma {:induction false} FlagSpan(text: string, key: string, s: nat) returns (open: nat, eq: nat)
    requires IsKey(key) && s <= |text| && FlagAt(text, key, s).Some?
    ensures var f := FlagAt(text, key, s).value;
            && s <= eq < open < s + f.length - 1 < |text|
            && text[eq] == '=' && text[open] == '"' && text[s + f.length - 1] == '"'
            && f.value == text[open + 1..s + f.length - 1]
    ensures forall i :: s <= i < open ==> IsHeadChar(text[i])
    ensures forall i :: open < i < s + FlagAt(text, key, s).value.length - 1 ==> IsValueChar(text[i])
  {
    hide *;
    var q, v := FlagParts(text, key, s);
    open := s + q;
    var close := open + 1 + v;
    assert close == s + FlagAt(text, key, s).value.length - 1;
    eq := HeadSpan(text, s, open, key);
    assert FlagAt(text, key, s).value.value == text[open + 1..close];
    AllAbsolute(text, open + 1, close, IsValueChar);
  }

  lemma {:induction false} HeadSpan(text: string, s: nat, open: nat, key: string) returns (eq: nat)
    requires IsKey(key) && s <= open <= |text| && IsHead(text[s..open], key)
    ensures s <= eq < open && text[eq] == '='
    ensures forall i :: s <= i < open ==> IsHeadChar(text[i])
  {
    var h := text[s..open];
    HeadChars(h, key);
    hide *;
    AllAbsolute(text, s, open, IsHeadChar);
    var k :| 0 <= k < |h| && h[k] == '=';
    eq := s + k;
  }

  lemma {:induction false} AllAbsolute(text: string, from: nat, to: nat, p: char -> bool)
    requires from <= to <= |text| && All(text[from..to], p)
    ensures forall i :: from <= i < to ==> p(text[i])
  {
  }

  lemma {:induction false} FlagParts(text: string, key: string, s: nat) returns (q: nat, v: nat)
    requires s <= |text| && FlagAt(text, key, s).Some?
    ensures var f := FlagAt(text, key, s).value;
            && f.length == q + v + 2 && s + f.length <= |text|
            && IsHead(text[s..s + q], key) && text[s + q] == '"' && text[s + q + 1 + v] == '"'
            && f.value == text[s + q + 1..s + q + 1 + v] && All(f.value, IsValueChar)
  {
    var t := text[s..];
    q := RunLength(t, NotQuote);
    v := RunLength(t[q + 1..], IsValueChar);
    RunAll(t, NotQuote);
    RunAll(t[q + 1..], IsValueChar);
    hide IsHead, RunLength;
    assert t[..q] == text[s..s + q] && t[q + 1..][..v] == text[s + q + 1..s + q + 1 + v];
  }

  /** An off word does not run past the start of another flag line. */
  lemma {:induction false} OffValueEnds(text: string, a: nat, other: string, s: nat, edited: string)
    requires IsKey(edited) && IsKey(other) && a < s <= |text|
    requires FlagAt(text, other, a).Some? && IsOff(FlagAt(text, other, a).value.value)
    requires FlagAt(text, edited, s).Some?
    ensures a + FlagAt(text, other, a).value.length <= s
  {
    var open, _ := FlagSpan(text, other, a);
    var _, eq := FlagSpan(text, edited, s);
    OffHasNoEquals(FlagAt(text, other, a).value.value);
  }

  /** The two keys of a cut in which the edited flag stands once. */
  ghost predicate EditsOne(text: string, edited: string, s: nat, other: string) {
    && IsKey(edited) && IsKey(other) && Disjoint(other, edited) && s <= |text|
    && Single(text, edited, s)
  }

  lemma {:induction false} OtherNotAtEdit(text: string, edited: string, s: nat, other: string)
    requires EditsOne(text, edited, s, other)
    ensures FlagAt(text, other, s) == None && FlagAt(CutTo(CutOf(text, edited, s)), other, s) == None
  {
    OtherNotThere(text, edited, s, other);
    hide IsHead, IsKey, All, Opens, OffLine, RunLength, FlagHere, LineStart, FlagAt, Disjoint;
    FlagShape(text, edited, s);
    var c := CutOf(text, edited, s);
    OffLineRead(FlagAt(text, edited, s).value.indent, edited, c.rest);
    ReplacedFrom(text, c.line, c.rest, other, s);
  }

  lemma {:induction false} OtherNotThere(text: string, edited: string, s: nat, other: string)
    requires EditsOne(text, edited, s, other)
    ensures FlagAt(text, other, s) == None
  {
    hide IsHead, IsKey, Disjoint, FlagTail;
    HeadOfOneKey(text[s..][..RunLength(text[s..], NotQuote)], other, edited);
  }

  /** Nothing of the other flag in the new text before or in the edited line,
      if there was nothing before it in the old text. */
  lemma {:induction false} NothingUpToEdit(text: string, edited: string, s: nat, other: string)
    requires EditsOne(text, edited, s, other) && NoFlag(text, other, 0, s)
    ensures var c := CutOf(text, edited, s); NoFlag(CutTo(c), other, 0, |c.pre + c.line|)
  {
    hide FlagAt;
    CutOfEdit(text, edited, s);
    var c := CutOf(text, edited, s);
    OtherNotAtEdit(text, edited, s, other);
    forall i | 0 <= i < |c.pre + c.line| ensures FlagAt(CutTo(c), other, i) == None {
      if i < s {
        CutBefore(c, other, i);
      } else if i > s {
        CutInside(c, other, i);
      }
    }
  }

  /** The other flag stands before the edited line. */
  lemma {:induction false} OtherBefore(text: string, edited: string, s: nat, other: string, a: nat)
    requires EditsOne(text, edited, s, other) && Single(text, other, a) && a < s
    requires IsOff(FlagAt(text, other, a).value.value)
    ensures Unedited(CutTo(CutOf(text, edited, s)), other)
  {
    hide FlagAt;
    CutOfEdit(text, edited, s);
    var c := CutOf(text, edited, s);
    OffValueEnds(text, a, other, s, edited);
    OtherNotAtEdit(text, edited, s, other);
    CutBefore(c, other, a);
    var end := a + FlagAt(text, other, a).value.length;
    forall i | 0 <= i < a || end <= i < |c.pre + c.line| ensures FlagAt(CutTo(c), other, i) == None {
      if i < s {
        CutBefore(c, other, i);
      } else if i > s {
        CutInside(c, other, i);
      }
    }
    CutRest(c, other, 0, |c.rest| + 1);
    SingleFlags(CutTo(c), other, a);
  }

  /** The other flag stands after the edited line. */
  lemma {:induction false} OtherAfter(text: string, edited: string, s: nat, other: string, a: nat)
    requires EditsOne(text, edited, s, other) && Single(text, other, a)
    requires s + FlagAt(text, edited, s).value.length <= a <= |text|
    requires IsOff(FlagAt(text, other, a).value.value)
    ensures Unedited(CutTo(CutOf(text, edited, s)), other)
  {
    hide FlagAt;
    CutOfEdit(text, edited, s);
    var c := CutOf(text, edited, s);
    var j := a - |c.pre + c.was|;
    var b := |c.pre + c.line| + j;
    NothingUpToEdit(text, edited, s, other);
    CutAfter(c, other, j);
    CutRest(c, other, 0, j);
    CutRest(c, other, j + FlagAt(text, other, a).value.length, |c.rest| + 1);
    assert Single(CutTo(c), other, b);
    SingleFlags(CutTo(c), other, b);
  }

  /** The other flag's line starts inside the edited value: it is gone. */
  lemma {:induction false} OtherInside(text: string, edited: string, s: nat, other: string, a: nat)
    requires EditsOne(text, edited, s, other) && Single(text, other, a)
    requires s < a < s + FlagAt(text, edited, s).value.length
    requires IsOff(FlagAt(text, other, a).value.value)
    ensures SetFlagFalse(CutTo(CutOf(text, edited, s)), other) == Missing
  {
    hide FlagAt;
    CutOfEdit(text, edited, s);
    var c := CutOf(text, edited, s);
    NothingUpToEdit(text, edited, s, other);
    forall i | a < i < |text| + 1 ensures FlagAt(text, other, i) == None {
      if FlagAt(text, other, i).Some? {
        OffValueEnds(text, a, other, i, other);
      }
    }
    CutRest(c, other, 0, |c.rest| + 1);
    FlagsEmpty(CutTo(c), other, 0);
  }

  /** An edit leaves the other flag off exactly when it does not swallow it;
      when it does, the other flag's line is gone. */
  lemma {:induction false} EditAndOtherFlag(text: string, edited: string, other: string)
    requires IsKey(edited) && IsKey(other) && Disjoint(other, edited)
    requires Unedited(text, other) && SetFlagFalse(text, edited).Edited?
    ensures var e := SetFlagFalse(text, edited);
            && (Unedited(e.text, other) <==> !Swallows(text, edited, other))
            && (!Unedited(e.text, other) ==> SetFlagFalse(e.text, other) == Missing)
  {
    hide FlagAt;
    var s, a := Flags(text, edited, 0)[0], Flags(text, other, 0)[0];
    assert s in Flags(text, edited, 0) && a in Flags(text, other, 0);
    assert Flags(text, edited, 0) == [s] && Flags(text, other, 0) == [a];
    SingleFlags(text, edited, s);
    SingleFlags(text, other, a);
    OtherNotAtEdit(text, edited, s, other);
    if IsOff(FlagAt(text, edited, s).value.value) {
      if s < a {
        OffValueEnds(text, s, edited, a, other);
      }
    } else {
      if a < s {
        OtherBefore(text, edited, s, other, a);
      } else if a < s + FlagAt(text, edited, s).value.length {
        OtherInside(text, edited, s, other, a);
      } else {
        OtherAfter(text, edited, s, other, a);
      }
    }
  }
}
