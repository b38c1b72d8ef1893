/** Strings as sequences of characters, and the few library operations on them
    that several components share: trimming, splitting at a character, joining,
    lower-casing and searching. */
module Text {

  datatype Option<+T> = None | Some(value: T)

  /** White space in Python: str.isspace, str.strip and the class \s. */
  predicate IsPySpace(c: char) {
    || '\t' <= c <= '\r'
    || '\U{1c}' <= c <= ' '
    || c == '\U{85}' || c == '\U{a0}' || c == '\U{1680}'
    || '\U{2000}' <= c <= '\U{200a}'
    || c == '\U{2028}' || c == '\U{2029}' || c == '\U{202f}' || c == '\U{205f}' || c == '\U{3000}'
  }

  /** White space in JavaScript: String.prototype.trim. */
  predicate IsJsSpace(c: char) {
    || '\t' <= c <= '\r' || c == ' ' || c == '\U{a0}' || c == '\U{1680}'
    || '\U{2000}' <= c <= '\U{200a}'
    || c == '\U{2028}' || c == '\U{2029}' || c == '\U{202f}' || c == '\U{205f}' || c == '\U{3000}'
    || c == '\U{feff}'
  }

  predicate IsSolid(c: char) { !IsPySpace(c) }

  predicate IsDigit(c: char) { '0' <= c <= '9' }

  predicate All(s: string, p: char -> bool) {
    forall i :: 0 <= i < |s| ==> p(s[i])
  }

  function TrimStart(s: string, drop: char -> bool): (r: string)
    ensures |r| <= |s|
    ensures r != [] ==> !drop(r[0])
  {
    if s == [] || !drop(s[0]) then s else TrimStart(s[1..], drop)
  }

  function TrimEnd(s: string, drop: char -> bool): (r: string)
    ensures |r| <= |s|
    ensures r != [] ==> r[0] == s[0] && !drop(r[|r| - 1])
  {
    if s == [] || !drop(s[|s| - 1]) then s else TrimEnd(s[..|s| - 1], drop)
  }

  function Trim(s: string, drop: char -> bool): (r: string)
    ensures |r| <= |s|
    ensures r != [] ==> !drop(r[0]) && !drop(r[|r| - 1])
  {
    TrimEnd(TrimStart(s, drop), drop)
  }

  function Strip(s: string): (r: string)
    ensures |r| <= |s|
    ensures r != [] ==> !IsPySpace(r[0]) && !IsPySpace(r[|r| - 1])
  {
    Trim(s, IsPySpace)
  }

  lemma {:induction false} TrimStartUnique(pre: string, core: string, drop: char -> bool)
    requires All(pre, drop)
    requires core == [] || !drop(core[0])
    ensures TrimStart(pre + core, drop) == core
  {
    if pre == [] {
      assert pre + core == core;
    } else {
      assert (pre + core)[1..] == pre[1..] + core;
      TrimStartUnique(pre[1..], core, drop);
    }
  }

  lemma {:induction false} TrimEndUnique(core: string, post: string, drop: char -> bool)
    requires All(post, drop)
    requires core == [] || !drop(core[|core| - 1])
    ensures TrimEnd(core + post, drop) == core
  {
    if post == [] {
      assert core + post == core;
    } else {
      var s := core + post;
      assert s[..|s| - 1] == core + post[..|post| - 1];
      TrimEndUnique(core, post[..|post| - 1], drop);
    }
  }

  /** Trimming removes exactly the padding round a core that neither starts nor
      ends with a trimmed character. */
  lemma {:induction false} TrimPadded(pre: string, core: string, post: string, drop: char -> bool)
    requires All(pre, drop) && All(post, drop)
    requires core == [] || (!drop(core[0]) && !drop(core[|core| - 1]))
    ensures Trim(pre + core + post, drop) == core
  {
    if core == [] {
      assert All(pre + post, drop);
      assert pre + core + post == (pre + post) + [];
      TrimStartUnique(pre + post, [], drop);
    } else {
      assert pre + core + post == pre + (core + post);
      TrimStartUnique(pre, core + post, drop);
      TrimEndUnique(core, post, drop);
    }
  }

  function Before(s: string, drop: char -> bool): string {
    s[..|s| - |TrimStart(s, drop)|]
  }

  function After(s: string, drop: char -> bool): string {
    TrimStart(s, drop)[|Trim(s, drop)|..]
  }

  lemma {:induction false} TrimParts(s: string, drop: char -> bool)
    ensures s == Before(s, drop) + Trim(s, drop) + After(s, drop)
    ensures All(Before(s, drop), drop) && All(After(s, drop), drop)
  {
    EndParts(TrimStart(s, drop), drop);
    StartParts(s, drop);
  }

  lemma {:induction false} StartParts(s: string, drop: char -> bool)
    ensures s == Before(s, drop) + TrimStart(s, drop) && All(Before(s, drop), drop)
  {
    if s != [] && drop(s[0]) {
      StartParts(s[1..], drop);
      assert s == [s[0]] + s[1..];
      assert Before(s, drop) == [s[0]] + Before(s[1..], drop);
    }
  }

  lemma {:induction false} EndParts(s: string, drop: char -> bool)
    ensures var r := TrimEnd(s, drop); s == r + s[|r|..] && All(s[|r|..], drop)
  {
    if s != [] && drop(s[|s| - 1]) {
      EndParts(s[..|s| - 1], drop);
      assert s == s[..|s| - 1] + [s[|s| - 1]];
    }
  }

  lemma {:induction false} TrimEmpty(s: string, drop: char -> bool)
    ensures Trim(s, drop) == [] <==> All(s, drop)
  {
    TrimParts(s, drop);
    if All(s, drop) {
      TrimPadded(s, [], [], drop);
      assert s + [] + [] == s;
    }
  }

  // ---------- runs and lines ----------

  /** Length of the longest prefix of characters that satisfy `p`. */
  function RunLength(s: string, p: char -> bool): (n: nat)
    ensures n <= |s|
  {
    if s == [] || !p(s[0]) then 0 else 1 + RunLength(s[1..], p)
  }

  lemma {:induction false} RunExact(s: string, rest: string, p: char -> bool)
    requires All(s, p) && (rest == "" || !p(rest[0]))
    ensures RunLength(s + rest, p) == |s|
  {
    if s == "" {
      assert s + rest == rest;
    } else {
      assert (s + rest)[1..] == s[1..] + rest;
      RunExact(s[1..], rest, p);
    }
  }

  lemma {:induction false} RunAll(s: string, p: char -> bool)
    ensures All(s[..RunLength(s, p)], p)
    ensures RunLength(s, p) < |s| ==> !p(s[RunLength(s, p)])
  {
    if s != [] && p(s[0]) {
      RunAll(s[1..], p);
      assert s[..RunLength(s, p)] == [s[0]] + s[1..][..RunLength(s[1..], p)];
    }
  }

  lemma {:induction false} RunConcat(s: string, t: string, p: char -> bool)
    ensures RunLength(s + t, p) == if RunLength(s, p) < |s| then RunLength(s, p) else |s| + RunLength(t, p)
  {
    if s == "" {
      assert s + t == t;
    } else {
      assert (s + t)[1..] == s[1..] + t;
      if p(s[0]) { RunConcat(s[1..], t, p); }
    }
  }

  /** The characters at which str.splitlines ends a line. */
  predicate IsBreak(c: char) {
    || '\n' <= c <= '\r' || '\U{1c}' <= c <= '\U{1e}' || c == '\U{85}'
    || c == '\U{2028}' || c == '\U{2029}'
  }

  predicate NotBreak(c: char) { !IsBreak(c) }

  /** The length of the first line without its line end. */
  function ContentLength(s: string): (n: nat)
    ensures n <= |s|
  {
    RunLength(s, NotBreak)
  }

  /** The length of the first line with its line end; CR LF is one line end. */
  function LineLength(s: string): (n: nat)
    ensures ContentLength(s) <= n <= |s|
    ensures s != "" ==> n > 0
  {
    var n := ContentLength(s);
    if n == |s| then n
    else if s[n] == '\r' && n + 1 < |s| && s[n + 1] == '\n' then n + 2
    else n + 1
  }

  /** `text.splitlines(keepends=True)` */
  function SplitKeep(text: string): seq<string>
    decreases |text|
  {
    if text == "" then [] else
    var n := LineLength(text);
    [text[..n]] + SplitKeep(text[n..])
  }

  /** `text.splitlines()` */
  function SplitLines(text: string): seq<string>
    decreases |text|
  {
    if text == "" then [] else
    var n := LineLength(text);
    [text[..ContentLength(text)]] + SplitLines(text[n..])
  }

  // ---------- positions ----------

  /** A half-open span of positions. */
  datatype Span = Span(start: nat, end: nat)
  {
    predicate Covers(i: nat) { start <= i < end }
  }

  /** The markers of an HTML comment. */
  const OPEN := "<!--"
  const CLOSE := "-->"

  // ---------- searching ----------

  predicate OccursAt(text: string, part: string, i: nat) {
    i + |part| <= |text| && text[i..i + |part|] == part
  }

  /** `part in text` */
  predicate Contains(text: string, part: string) {
    exists i: nat :: i <= |text| && OccursAt(text, part, i)
  }

  /** `s.find(part, from)` */
  function Find(s: string, part: string, from: nat): (r: Option<nat>)
    requires from <= |s|
    ensures r.Some? ==> from <= r.value <= |s| && OccursAt(s, part, r.value)
    ensures forall i | from <= i < (if r.Some? then r.value else |s| + 1) :: !OccursAt(s, part, i)
    decreases |s| - from
  {
    if OccursAt(s, part, from) then Some(from)
    else if from == |s| then None
    else Find(s, part, from + 1)
  }

  // ---------- order ----------

  /** Python's order of strings, by code point. */
  predicate StringLess(a: string, b: string) {
    b != "" && (a == "" || a[0] < b[0] || (a[0] == b[0] && StringLess(a[1..], b[1..])))
  }

  lemma {:induction false} StringOrder(a: string, b: string, c: string)
    ensures a == b || StringLess(a, b) || StringLess(b, a)
    ensures !(StringLess(a, b) && StringLess(b, a))
    ensures StringLess(a, b) && StringLess(b, c) ==> StringLess(a, c)
    decreases |a| + |b| + |c|
  {
    if a != "" && b != "" {
      assert a == [a[0]] + a[1..] && b == [b[0]] + b[1..];
      StringOrder(a[1..], b[1..], if c == "" then c else c[1..]);
    }
  }

  /** The first text comes first: at the first character in which they differ it has the
      smaller one, or it ends there. */
  ghost predicate Alphabetical(a: string, b: string) { exists k: nat :: DiffersAt(a, b, k) }

  /** The texts agree before `k`, and there the first one ends or has the smaller
      character. */
  predicate DiffersAt(a: string, b: string, k: nat) {
    k <= |a| && k < |b| && a[..k] == b[..k] && (k == |a| || a[k] < b[k])
  }

  lemma {:induction false} FirstOfPrefix(a: string, k: nat)
    requires 0 < k <= |a|
    ensures a[..k] == [a[0]] + a[1..][..k - 1]
  {
  }

  lemma {:induction false} DiffersLater(a: string, b: string, k: nat)
    requires a != "" && b != "" && a[0] == b[0]
    ensures DiffersAt(a[1..], b[1..], k) <==> DiffersAt(a, b, k + 1)
  {
    if k + 1 <= |a| && k + 1 <= |b| {
      FirstOfPrefix(a, k + 1);
      FirstOfPrefix(b, k + 1);
      assert a[1..][..k] == a[..k + 1][1..] && b[1..][..k] == b[..k + 1][1..];
    }
  }

  lemma {:induction false} DiffersFirst(a: string, b: string, k: nat)
    requires a == "" || b == "" || a[0] != b[0]
    ensures DiffersAt(a, b, k) <==> k == 0 && b != "" && (a == "" || a[0] < b[0])
  {
    if 0 < k <= |a| && k < |b| { assert a[..k][0] == a[0] && b[..k][0] == b[0]; }
    if a != "" && b != "" { assert a[..0] == b[..0]; }
  }

  lemma {:induction false} AlphabeticalIsOrder(a: string, b: string)
    ensures StringLess(a, b) <==> Alphabetical(a, b)
  {
    if a != "" && b != "" && a[0] == b[0] {
      AlphabeticalIsOrder(a[1..], b[1..]);
      forall k: nat ensures DiffersAt(a[1..], b[1..], k) <==> DiffersAt(a, b, k + 1) { DiffersLater(a, b, k); }
      if k: nat :| DiffersAt(a, b, k) { assert k > 0 && DiffersAt(a[1..], b[1..], k - 1); }
    } else {
      forall k: nat ensures DiffersAt(a, b, k) <==> k == 0 && b != "" && (a == "" || a[0] < b[0]) { DiffersFirst(a, b, k); }
      assert DiffersAt(a, b, 0) <==> b != "" && (a == "" || a[0] < b[0]);
    }
  }

  // ---------- splitting and joining ----------

  /** `s.split(sep)` for one character; never empty. */
  function Split(s: string, sep: char): (r: seq<string>)
    ensures r != []
  {
    if s == "" then [""]
    else
      var rest := Split(s[1..], sep);
      if s[0] == sep then [""] + rest else [[s[0]] + rest[0]] + rest[1..]
  }

  /** `sep.join(parts)` */
  function Join(parts: seq<string>, sep: char): string
    requires parts != []
  {
    if |parts| == 1 then parts[0] else parts[0] + [sep] + Join(parts[1..], sep)
  }

  function Concat(parts: seq<string>): string {
    if parts == [] then "" else parts[0] + Concat(parts[1..])
  }

  lemma {:induction false} JoinSplit(s: string, sep: char)
    ensures Join(Split(s, sep), sep) == s
    ensures forall p <- Split(s, sep) :: sep !in p
  {
    if s != "" {
      JoinSplit(s[1..], sep);
      var rest := Split(s[1..], sep);
      if s[0] == sep {
        assert Split(s, sep)[1..] == rest;
      } else {
        assert Split(s, sep)[1..] == rest[1..];
        assert rest[0] in rest;
      }
    }
  }

  lemma {:induction false} SplitPart(p: string, rest: string, sep: char)
    requires sep !in p
    ensures Split(p + [sep] + rest, sep) == [p] + Split(rest, sep)
    ensures Split(p, sep) == [p]
  {
    if p == "" {
      assert p + [sep] + rest == [sep] + rest;
    } else {
      assert (p + [sep] + rest)[1..] == p[1..] + [sep] + rest;
      SplitPart(p[1..], rest, sep);
      assert p == [p[0]] + p[1..] && p[0] in p;
      assert ([p[1..]] + Split(rest, sep))[1..] == Split(rest, sep);
    }
  }

  /** Text with no separator goes to the first part. */
  lemma {:induction false} SplitPrefix(p: string, s: string, sep: char)
    requires sep !in p
    ensures Split(p + s, sep) == [p + Split(s, sep)[0]] + Split(s, sep)[1..]
  {
    var parts := Split(s, sep);
    if p == "" {
      assert p + s == s && p + parts[0] == parts[0];
    } else {
      assert (p + s)[1..] == p[1..] + s;
      SplitPrefix(p[1..], s, sep);
      assert p[0] in p && [p[0]] + (p[1..] + parts[0]) == p + parts[0];
      assert ([p[1..] + parts[0]] + parts[1..])[1..] == parts[1..];
    }
  }

  lemma {:induction false} SplitJoin(parts: seq<string>, sep: char)
    requires parts != [] && forall p <- parts :: sep !in p
    ensures Split(Join(parts, sep), sep) == parts
  {
    assert parts[0] in parts;
    if |parts| == 1 {
      SplitPart(parts[0], "", sep);
    } else {
      SplitPart(parts[0], Join(parts[1..], sep), sep);
      SplitJoin(parts[1..], sep);
    }
  }

  /** Text with no separator goes to the last part. */
  lemma {:induction false} SplitAppend(s: string, t: string, sep: char)
    requires sep !in t
    ensures var parts := Split(s, sep);
            var n := |parts| - 1;
            Split(s + t, sep) == parts[n := parts[n] + t]
  {
    if s == "" {
      assert s + t == t;
      SplitPart(t, "", sep);
    } else {
      assert (s + t)[1..] == s[1..] + t;
      SplitAppend(s[1..], t, sep);
      var rest := Split(s[1..], sep);
      hide Split;
      if s[0] != sep { MoreInFirst(rest, s[0], t); }
    }
  }

  /** A character put before the first part and text put after the last. */
  lemma {:induction false} MoreInFirst(rest: seq<string>, c: char, t: string)
    requires rest != []
    ensures var n := |rest| - 1;
            var more := rest[n := rest[n] + t];
            [[c] + more[0]] + more[1..] == ([[c] + rest[0]] + rest[1..])[n := ([[c] + rest[0]] + rest[1..])[n] + t]
  {
    var n := |rest| - 1;
    if n == 0 {
      assert [c] + (rest[0] + t) == [c] + rest[0] + t;
    }
  }

  lemma {:induction false} JoinAppend(parts: seq<string>, t: string, sep: char)
    requires parts != []
    ensures var n := |parts| - 1;
            Join(parts[n := parts[n] + t], sep) == Join(parts, sep) + t
  {
    if |parts| > 1 {
      var n := |parts| - 1;
      JoinAppend(parts[1..], t, sep);
      assert parts[n := parts[n] + t][1..] == parts[1..][n - 1 := parts[n] + t];
    }
  }

  lemma {:induction false} JoinChars(parts: seq<string>, sep: char, ok: char -> bool)
    requires parts != [] && ok(sep) && forall p <- parts :: All(p, ok)
    ensures All(Join(parts, sep), ok)
  {
    assert parts[0] in parts;
    if |parts| > 1 { JoinChars(parts[1..], sep, ok); }
  }

  lemma {:induction false} SplitChars(s: string, sep: char, ok: char -> bool)
    requires All(s, ok)
    ensures forall p <- Split(s, sep) :: All(p, ok)
  {
    if s != "" {
      SplitChars(s[1..], sep, ok);
      var rest := Split(s[1..], sep);
      assert rest[0] in rest;
    }
  }

  // ---------- lines ----------

  function Content(line: string): string { line[..ContentLength(line)] }

  function LineEnd(line: string): string { line[ContentLength(line)..] }

  predicate IsLineEnd(e: string) {
    (|e| == 1 && IsBreak(e[0])) || e == "\r\n"
  }

  /** A list that splitting some text gives: each line ends with one line end,
      the last may have none, and no CR is cut off its LF. */
  predicate GoodLines(lines: seq<string>) {
    forall i :: 0 <= i < |lines| ==>
      && lines[i] != ""
      && (IsLineEnd(LineEnd(lines[i])) || (i == |lines| - 1 && LineEnd(lines[i]) == ""))
      && (LineEnd(lines[i]) == "\r" && i + 1 < |lines| ==> lines[i + 1] != "" && lines[i + 1][0] != '\n')
  }

  lemma {:induction false} ContentOf(c: string, e: string)
    requires All(c, NotBreak) && (e == "" || IsBreak(e[0]))
    ensures Content(c + e) == c && LineEnd(c + e) == e
  {
    RunExact(c, e, NotBreak);
  }

  lemma {:induction false} FirstLine(text: string)
    requires text != ""
    ensures var line := text[..LineLength(text)];
            && line != "" && All(Content(line), NotBreak)
            && Content(line) == text[..ContentLength(text)]
            && (IsLineEnd(LineEnd(line)) || (LineEnd(line) == "" && line == text))
            && (LineEnd(line) == "\r" && LineLength(text) < |text| ==> text[LineLength(text)] != '\n')
  {
    var n, m := ContentLength(text), LineLength(text);
    RunAll(text, NotBreak);
    assert text[..m] == text[..n] + text[n..m];
    ContentOf(text[..n], text[n..m]);
  }

  lemma {:induction false} GoodCons(line: string, rest: seq<string>)
    requires line != "" && GoodLines(rest)
    requires IsLineEnd(LineEnd(line)) || (LineEnd(line) == "" && rest == [])
    requires LineEnd(line) == "\r" && rest != [] ==> rest[0] != "" && rest[0][0] != '\n'
    ensures GoodLines([line] + rest)
  {
  }

  lemma {:induction false} KeepUnfold(text: string)
    requires text != ""
    ensures var m := LineLength(text);
            0 < m <= |text| && SplitKeep(text) == [text[..m]] + SplitKeep(text[m..])
    ensures SplitKeep(text)[0] != "" && SplitKeep(text)[0][0] == text[0]
  {
  }

  lemma {:induction false} SplitKeepGood(text: string)
    ensures GoodLines(SplitKeep(text)) && Concat(SplitKeep(text)) == text
  {
    KeepConcat(text);
    KeepGood(text);
  }

  lemma {:induction false} KeepConcat(text: string)
    ensures Concat(SplitKeep(text)) == text
    decreases |text|
  {
    if text != "" {
      hide LineLength, SplitKeep;
      KeepUnfold(text);
      var m := LineLength(text);
      KeepConcat(text[m..]);
      assert ([text[..m]] + SplitKeep(text[m..]))[1..] == SplitKeep(text[m..]);
    }
  }

  lemma {:induction false} KeepGood(text: string)
    ensures GoodLines(SplitKeep(text))
    decreases |text|
  {
    if text == "" {
      NothingKept(text);
    } else {
      hide LineEnd, IsLineEnd, Content, GoodLines, LineLength, SplitKeep, NotBreak, All, ContentLength;
      var m := LineLength(text);
      FirstLine(text);
      KeepUnfold(text);
      KeepGood(text[m..]);
      if m < |text| {
        KeepUnfold(text[m..]);
      } else {
        NothingKept(text[m..]);
      }
      GoodCons(text[..m], SplitKeep(text[m..]));
    }
  }

  lemma {:induction false} NothingKept(text: string)
    requires text == ""
    ensures SplitKeep(text) == []
  {
  }

  /** The lines with their ends cut off are the lines without. */
  lemma {:induction false} SplitContents(text: string)
    ensures |SplitLines(text)| == |SplitKeep(text)|
    ensures forall i :: 0 <= i < |SplitKeep(text)| ==>
      All(Content(SplitKeep(text)[i]), NotBreak) && SplitLines(text)[i] == Content(SplitKeep(text)[i])
    decreases |text|
  {
    if text != "" {
      hide LineEnd, IsLineEnd, Content;
      var m := LineLength(text);
      FirstLine(text);
      SplitContents(text[m..]);
      var keep, lines := SplitKeep(text[m..]), SplitLines(text[m..]);
      assert SplitKeep(text) == [text[..m]] + keep && SplitLines(text) == [text[..ContentLength(text)]] + lines;
    }
  }

  lemma {:induction false} LineOfGood(line: string, rest: string)
    requires line != "" && All(Content(line), NotBreak)
    requires IsLineEnd(LineEnd(line)) || (LineEnd(line) == "" && rest == "")
    requires LineEnd(line) == "\r" && rest != "" ==> rest[0] != '\n'
    ensures LineLength(line + rest) == |line|
  {
    var c, e := Content(line), LineEnd(line);
    assert line == c + e && line + rest == c + (e + rest);
    RunExact(c, e + rest, NotBreak);
  }

  /** Splitting the text of such a list gives the list. */
  lemma {:induction false} Resplit(lines: seq<string>)
    requires GoodLines(lines) && forall l <- lines :: All(Content(l), NotBreak)
    ensures SplitKeep(Concat(lines)) == lines
  {
    if lines != [] {
      var rest := Concat(lines[1..]);
      assert lines[0] in lines && GoodLines(lines[1..]);
      if |lines| > 1 { assert lines[1] in lines && rest[0] == lines[1][0]; }
      LineOfGood(lines[0], rest);
      Resplit(lines[1..]);
      assert (lines[0] + rest)[|lines[0]|..] == rest;
    }
  }

  lemma {:induction false} LinesAreUnbroken(text: string)
    ensures forall l <- SplitLines(text) :: All(l, NotBreak)
  {
    SplitContents(text);
    hide SplitLines, SplitKeep, Content;
  }

  lemma {:induction false} SplitFirst(line: string, rest: string)
    requires All(line, NotBreak)
    ensures SplitLines(line + "\n" + rest) == [line] + SplitLines(rest)
    ensures SplitLines(line) == if line == "" then [] else [line]
  {
    var s := line + "\n" + rest;
    RunExact(line, "\n" + rest, NotBreak);
    assert s == line + ("\n" + rest);
    assert ContentLength(s) == |line| && LineLength(s) == |line| + 1;
    assert s[..|line|] == line && s[|line| + 1..] == rest;
    RunExact(line, "", NotBreak);
    assert line + "" == line && line[..|line|] == line && line[|line|..] == "";
  }

  /** Joined with newlines and split again, the lines come back, but for a last line
      that is empty. */
  lemma {:induction false} SplitJoined(lines: seq<string>)
    requires lines != [] && forall l <- lines :: All(l, NotBreak)
    ensures var n := |lines| - 1;
            SplitLines(Join(lines, '\n')) == if lines[n] == "" then lines[..n] else lines
  {
    hide SplitLines;
    assert lines[0] in lines && ['\n'] == "\n";
    if |lines| == 1 {
      SplitFirst(lines[0], "");
    } else {
      SplitJoined(lines[1..]);
      SplitFirst(lines[0], Join(lines[1..], '\n'));
      var n := |lines| - 1;
      assert [lines[0]] + lines[1..] == lines && [lines[0]] + lines[1..][..n - 1] == lines[..n];
    }
  }
}
