/** The close-keyword guard, scripts/check_close_keywords.py: whether the words
    before a close verb say that nothing is closed. */
module CloseKeywords {
  import opened Text

  const CLAUSE_BOUNDARY := {'.', '!', '?', ';', ':', ','}
  const EMPHASIS := {'*', '_', '`', '~'}
  const NEGATIONS := {"not", "no", "never", "nothing", "none", "neither", "nor", "cannot"}
  const LOOKBACK_WORDS := 3

  predicate IsBoundary(c: char) { c in CLAUSE_BOUNDARY }
  predicate IsEmphasis(c: char) { c in EMPHASIS }

  // ---------- what the scanner looks for ----------

  /** Only white space, if anything, stands strictly between two positions. */
  predicate BlankBetween(text: string, i: nat, j: nat)
    requires j <= |text|
  {
    forall k | i < k < j :: IsPySpace(text[k])
  }

  /** A clause mark, or the newline that starts a blank line before `end`. */
  predicate StopAt(text: string, i: nat, end: nat)
    requires i < end <= |text|
  {
    || IsBoundary(text[i])
    || (text[i] == '\n' && exists j | i < j < end :: text[j] == '\n' && BlankBetween(text, i, j))
  }

  /** Where the clause that ends at `end` starts: after its latest stop. */
  function ClauseStart(text: string, end: nat, from: nat): (s: nat)
    requires from <= end <= |text|
    ensures s <= from
    ensures forall i | s <= i < from :: !StopAt(text, i, end)
    ensures s > 0 ==> StopAt(text, s - 1, end)
  {
    if from == 0 || StopAt(text, from - 1, end) then from else ClauseStart(text, end, from - 1)
  }

  function Clause(text: string, end: nat): string
    requires end <= |text|
  {
    text[ClauseStart(text, end, end)..end]
  }

  /** Emphasis marks are not there. */
  function Plain(s: string): string {
    if s == "" then "" else (if IsEmphasis(s[0]) then "" else [s[0]]) + Plain(s[1..])
  }

  /** `s.split()` */
  function Words(s: string): seq<string>
    decreases |s|
  {
    if s == "" then []
    else if IsPySpace(s[0]) then Words(s[1..])
    else
      var n := RunLength(s, IsSolid);
      if n == 0 then [] else [s[..n]] + Words(s[n..])
  }

  function Reversed<T>(s: seq<T>): seq<T> {
    if s == [] then [] else Reversed(s[1..]) + [s[0]]
  }

  function Take<T>(s: seq<T>, n: nat): seq<T> { if |s| < n then s else s[..n] }

  predicate IsBracket(c: char) { c in "()[]{}\"'" }

  function Bare(word: string, lower: string -> string): string { Trim(lower(word), IsBracket) }

  predicate IsNegation(word: string) {
    word in NEGATIONS || (|word| >= 3 && word[|word| - 3..] == "n't")
  }

  function FirstNegation(words: seq<string>, lower: string -> string): Option<string> {
    if words == [] then None
    else if IsNegation(Bare(words[0], lower)) then Some(Bare(words[0], lower))
    else FirstNegation(words[1..], lower)
  }

  /** The last three words of the clause before the verb, nearest first. */
  function NearestWords(text: string, end: nat): seq<string>
    requires end <= |text|
  {
    Take(Reversed(Words(Plain(Clause(text, end)))), LOOKBACK_WORDS)
  }

  /** The negation attached to the verb at `end`: the nearest one among those words. */
  function Negation(text: string, end: nat, lower: string -> string): Option<string>
    requires end <= |text|
  {
    FirstNegation(NearestWords(text, end), lower)
  }

  // ---------- the walk ----------

  /** What reading `s` backwards leaves: the words finished, nearest first, and the
      letters of the word being read. */
  function Gathered(s: string): (seq<string>, string) {
    if s == "" then ([], "") else
    var (words, letters) := Gathered(s[1..]);
    if IsPySpace(s[0]) then if letters != "" then (words + [letters], "") else (words, "")
    else if IsEmphasis(s[0]) then (words, letters)
    else (words, [s[0]] + letters)
  }

  function AllGathered(s: string): seq<string> {
    var (words, letters) := Gathered(s);
    if letters != "" then words + [letters] else words
  }

  lemma {:induction false} WordsSolid(c: char, t: string)
    requires !IsPySpace(c)
    ensures Words([c] + t) == if t == "" || IsPySpace(t[0]) then [[c]] + Words(t)
                              else [[c] + Words(t)[0]] + Words(t)[1..]
    ensures t != "" && !IsPySpace(t[0]) ==> Words(t) != []
  {
    var s := [c] + t;
    assert s[1..] == t;
    var n := RunLength(t, IsSolid);
    assert RunLength(s, IsSolid) == n + 1;
    assert s[..n + 1] == [c] + t[..n] && s[n + 1..] == t[n..];
    if t == "" || IsPySpace(t[0]) { assert t[..0] == "" && t[0..] == t; }
  }

  /** Reading backwards gathers exactly the words, last word first. */
  lemma {:induction false} GatheredWords(s: string)
    ensures AllGathered(s) == Reversed(Words(Plain(s)))
    ensures Gathered(s).1 == "" <==> Plain(s) == "" || IsPySpace(Plain(s)[0])
  {
    if s != "" {
      GatheredWords(s[1..]);
      var t := Plain(s[1..]);
      var (words, letters) := Gathered(s[1..]);
      if IsPySpace(s[0]) {
        assert !IsEmphasis(s[0]);
        hide Words;
      } else if !IsEmphasis(s[0]) {
        WordsSolid(s[0], t);
        hide Words;
        assert Plain(s) == [s[0]] + t && [s[0]] + "" == [s[0]];
        assert ([[s[0]]] + Words(t))[1..] == Words(t);
        if letters != "" { ReversedFirst(Words(t), words, letters, s[0]); }
      } else {
        assert Plain(s) == "" + t == t;
      }
    }
  }

  lemma {:induction false} ReversedFirst(all: seq<string>, words: seq<string>, letters: string, c: char)
    requires all != [] && words + [letters] == Reversed(all)
    ensures Reversed([[c] + all[0]] + all[1..]) == words + [[c] + letters]
  {
    assert (words + [letters])[|words|] == letters == all[0];
    assert (words + [letters])[..|words|] == words == Reversed(all[1..]);
    assert ([[c] + all[0]] + all[1..])[1..] == all[1..];
  }

  lemma {:induction false} GatheredMore(s: string, n: nat)
    requires n <= |s|
    ensures Gathered(s[n..]).0 <= Gathered(s).0
    decreases n
  {
    if n > 0 {
      GatheredMore(s[1..], n - 1);
      assert s[1..][n - 1..] == s[n..];
    } else {
      assert s[0..] == s;
    }
  }

  /** A newline before `index` that only white space separates from `end`'s side. */
  predicate NewlineAhead(text: string, index: nat, end: nat)
    requires index <= end <= |text|
  {
    exists j | index <= j < end :: text[j] == '\n' && forall k | index <= k < j :: IsPySpace(text[k])
  }

  /** What the walk has gathered from `at` on, with no stop on the way. */
  ghost predicate Found(text: string, end: nat, at: nat, words: seq<string>, letters: string)
    requires at <= end <= |text|
  {
    && (words, letters) == Gathered(text[at..end])
    && forall i | at <= i < end :: !StopAt(text, i, end)
  }

  /** The same, and the count of newlines with nothing but white space since. */
  ghost predicate Walked(text: string, end: nat, at: nat, words: seq<string>, letters: string, newlines: nat)
    requires at <= end <= |text|
  {
    && Found(text, end, at, words, letters)
    && newlines == if NewlineAhead(text, at, end) then 1 else 0
  }

  /** The walk is at the start of the clause. */
  lemma {:induction false} WalkStops(text: string, end: nat, at: nat)
    requires at <= end <= |text| && forall i | at <= i < end :: !StopAt(text, i, end)
    requires at == 0 || StopAt(text, at - 1, end)
    ensures Clause(text, end) == text[at..end]
  {
  }

  /** The walk has gathered its three words before the clause starts. */
  lemma {:induction false} WalkIsFull(text: string, end: nat, at: nat, words: seq<string>)
    requires at <= end <= |text| && forall i | at <= i < end :: !StopAt(text, i, end)
    requires words == Gathered(text[at..end]).0 && |words| == LOOKBACK_WORDS
    ensures NearestWords(text, end) == words
  {
    hide StopAt;
    var s := ClauseStart(text, end, end);
    assert s <= at;
    var clause := text[s..end];
    assert clause[at - s..] == text[at..end];
    GatheredMore(clause, at - s);
    GatheredWords(clause);
    hide Gathered, Words, Plain, ClauseStart;
    assert words <= AllGathered(clause);
  }

  lemma {:induction false} WalkEnds(text: string, end: nat, at: nat, words: seq<string>, letters: string)
    requires at <= end <= |text| && Clause(text, end) == text[at..end]
    requires (words, letters) == Gathered(text[at..end]) && |words| <= LOOKBACK_WORDS
    ensures NearestWords(text, end)
         == if letters != "" && |words| < LOOKBACK_WORDS then words + [letters] else words
  {
    GatheredWords(text[at..end]);
    hide Gathered, Words, Plain, Clause;
  }

  lemma {:induction false} WalkStarts(text: string, end: nat)
    requires end <= |text|
    ensures Walked(text, end, end, [], "", 0)
  {
  }

  /** One character back. */
  lemma {:induction false} WalkStep(text: string, end: nat, at: nat, words: seq<string>, letters: string, newlines: nat)
    requires at < end <= |text| && Walked(text, end, at + 1, words, letters, newlines)
    ensures StopAt(text, at, end) <==> IsBoundary(text[at]) || (text[at] == '\n' && newlines == 1)
    ensures var c := text[at];
            !StopAt(text, at, end) ==>
              Walked(text, end, at,
                     if IsPySpace(c) && letters != "" then words + [letters] else words,
                     if IsPySpace(c) then "" else if IsEmphasis(c) then letters else [c] + letters,
                     if c == '\n' then newlines + 1 else if !IsPySpace(c) then 0 else newlines)
  {
  }

  /** However the walk ends, it has the nearest words. */
  lemma {:induction false} WalkResult(text: string, end: nat, at: nat, words: seq<string>, letters: string)
    requires at <= end <= |text| && Found(text, end, at, words, letters) && |words| <= LOOKBACK_WORDS
    requires |words| == LOOKBACK_WORDS || at == 0 || StopAt(text, at - 1, end)
    ensures NearestWords(text, end)
         == if letters != "" && |words| < LOOKBACK_WORDS then words + [letters] else words
  {
    hide NearestWords, Clause, Gathered, StopAt;
    if |words| == LOOKBACK_WORDS {
      WalkIsFull(text, end, at, words);
    } else {
      WalkStops(text, end, at);
      WalkEnds(text, end, at, words, letters);
    }
  }

  lemma {:induction false} NegationIs(text: string, end: nat, lower: string -> string)
    requires end <= |text|
    ensures Negation(text, end, lower) == FirstNegation(NearestWords(text, end), lower)
  {
  }

  method Choose(words: seq<string>, lower: string -> string) returns (found: Option<string>)
    ensures found == FirstNegation(words, lower)
  {
    assert words[0..] == words;
    for i := 0 to |words|
      invariant FirstNegation(words, lower) == FirstNegation(words[i..], lower)
    {
      var bare := Bare(words[i], lower);
      if IsNegation(bare) { return Some(bare); }
      assert words[i..][1..] == words[i + 1..];
    }
    return None;
  }

  /** `_preceding_negation` */
  method PrecedingNegation(text: string, keywordStart: nat, lower: string -> string) returns (found: Option<string>)
    requires keywordStart <= |text|
    ensures found == Negation(text, keywordStart, lower)
  {
    hide Walked, Found, StopAt, NearestWords, Negation, FirstNegation, IsBoundary, IsEmphasis, IsPySpace;
    var words: seq<string> := [];
    var letters := "";
    var index: int := keywordStart - 1;
    var newlines := 0;
    WalkStarts(text, keywordStart);
    while index >= 0 && |words| < LOOKBACK_WORDS
      invariant -1 <= index < keywordStart && |words| <= LOOKBACK_WORDS
      invariant Walked(text, keywordStart, index + 1, words, letters, newlines)
      invariant Found(text, keywordStart, index + 1, words, letters)
    {
      var c := text[index];
      WalkStep(text, keywordStart, index, words, letters, newlines);
      if IsBoundary(c) { break; }
      if c == '\n' {
        newlines := newlines + 1;
        if newlines >= 2 { break; }
      } else if !IsPySpace(c) {
        newlines := 0;
      }
      if IsPySpace(c) {
        if letters != "" {
          words := words + [letters];
          letters := "";
        }
      } else if !IsEmphasis(c) {
        letters := [c] + letters;
      }
      index := index - 1;
    }
    WalkResult(text, keywordStart, index + 1, words, letters);
    if letters != "" && |words| < LOOKBACK_WORDS { words := words + [letters]; }
    found := Choose(words, lower);
    NegationIs(text, keywordStart, lower);
  }

  // ---------- references ----------

  /** A close reference as the pattern finds it. */
  datatype Reference = Reference(keyword: string, issue: nat, offset: nat)

  /** What the two patterns find in a text: they are not modelled. */
  datatype Patterns = Patterns(references: string -> seq<Reference>, fences: string -> seq<Span>, inline: string -> seq<Span>)

  function Masked(text: string, spans: seq<Span>): string {
    seq(|text|, i requires 0 <= i < |text| =>
      if text[i] != '\n' && exists k | 0 <= k < |spans| :: spans[k].Covers(i) then ' ' else text[i])
  }

  /** Blanks the spans in place; line ends stay. */
  method Mask(masked: array<char>, spans: seq<Span>)
    requires forall k | 0 <= k < |spans| :: spans[k].start <= spans[k].end <= masked.Length
    modifies masked
    ensures masked[..] == Masked(old(masked[..]), spans)
  {
    ghost var text := masked[..];
    for n := 0 to |spans|
      invariant masked[..] == Masked(text, spans[..n])
    {
      var span := spans[n];
      for index := span.start to span.end
        invariant forall i | 0 <= i < masked.Length ::
          masked[i] == if span.start <= i < index && text[i] != '\n' then ' ' else Masked(text, spans[..n])[i]
      {
        if masked[index] != '\n' { masked[index] := ' '; }
      }
      assert spans[..n + 1] == spans[..n] + [span];
      forall i | 0 <= i < |text| ensures masked[i] == Masked(text, spans[..n + 1])[i] {
      }
      assert masked[..] == Masked(text, spans[..n + 1]);
    }
    assert spans[..|spans|] == spans;
  }

  function CodeSpans(text: string, p: Patterns): seq<Span> {
    p.fences(text) + p.inline(Masked(text, p.fences(text)))
  }

  /** `_code_spans`: the fences, then the inline spans of the text with the fences
      blanked. */
  method FindCodeSpans(text: string, p: Patterns) returns (spans: seq<Span>)
    requires SpansFit(text, p)
    ensures spans == CodeSpans(text, p)
  {
    spans := p.fences(text);
    var masked := new char[|text|](i requires 0 <= i < |text| => text[i]);
    assert masked[..] == text;
    Mask(masked, spans);
    spans := spans + p.inline(masked[..]);
  }

  /** The spans of a text lie inside it, and so do its references. */
  predicate SpansFit(text: string, p: Patterns) {
    forall k | 0 <= k < |p.fences(text)| :: p.fences(text)[k].start <= p.fences(text)[k].end <= |text|
  }

  predicate ReferencesFit(text: string, p: Patterns) {
    forall k | 0 <= k < |p.references(text)| :: p.references(text)[k].offset <= |text|
  }

  predicate InSpans(spans: seq<Span>, i: nat) {
    exists k | 0 <= k < |spans| :: spans[k].Covers(i)
  }

  /** The references, of the first `n`, that are not in code. */
  function CloseReferences(text: string, p: Patterns, n: nat): (r: seq<Reference>)
    requires n <= |p.references(text)|
    ensures ReferencesFit(text, p) ==> forall k | 0 <= k < |r| :: r[k].offset <= |text|
  {
    if n == 0 then [] else
    var r := p.references(text)[n - 1];
    CloseReferences(text, p, n - 1) + if InSpans(CodeSpans(text, p), r.offset) then [] else [r]
  }

  function AllReferences(text: string, p: Patterns): seq<Reference> {
    CloseReferences(text, p, |p.references(text)|)
  }

  /** `close_references` */
  method FindReferences(text: string, p: Patterns) returns (found: seq<Reference>)
    requires SpansFit(text, p)
    ensures found == AllReferences(text, p)
  {
    var spans := FindCodeSpans(text, p);
    found := [];
    var all := p.references(text);
    for n := 0 to |all|
      invariant found == CloseReferences(text, p, n)
    {
      if !InSpans(spans, all[n].offset) { found := found + [all[n]]; }
    }
  }

  datatype Finding = Finding(issue: nat, keyword: string, negation: string)

  function FindingOf(text: string, r: Reference, lower: string -> string): seq<Finding>
    requires r.offset <= |text|
  {
    var negation := Negation(text, r.offset, lower);
    if negation.Some? then [Finding(r.issue, lower(r.keyword), negation.value)] else []
  }

  function Findings(text: string, references: seq<Reference>, lower: string -> string): seq<Finding>
    requires forall k | 0 <= k < |references| :: references[k].offset <= |text|
  {
    if references == [] then [] else
    var n := |references| - 1;
    Findings(text, references[..n], lower) + FindingOf(text, references[n], lower)
  }

  /** `negated_closes` */
  method NegatedCloses(text: string, p: Patterns, lower: string -> string) returns (findings: seq<Finding>)
    requires SpansFit(text, p) && ReferencesFit(text, p)
    ensures findings == Findings(text, AllReferences(text, p), lower)
  {
    var references := FindReferences(text, p);
    findings := [];
    for i := 0 to |references|
      invariant findings == Findings(text, references[..i], lower)
    {
      hide Negation;
      var r := references[i];
      assert references[..i + 1][..i] == references[..i];
      var negation := PrecedingNegation(text, r.offset, lower);
      if negation.Some? { findings := findings + [Finding(r.issue, lower(r.keyword), negation.value)]; }
    }
    assert references[..|references|] == references;
  }

  // ---------- wrapping a line ----------

  /** One text differs from the other in white space only. */
  predicate SameButSpace(a: string, b: string) {
    |a| == |b| && forall i | 0 <= i < |a| :: a[i] == b[i] || (IsPySpace(a[i]) && IsPySpace(b[i]))
  }

  lemma {:induction false} SameGathered(a: string, b: string)
    requires SameButSpace(a, b)
    ensures Gathered(a) == Gathered(b)
  {
    if a != "" {
      SameGathered(a[1..], b[1..]);
      hide Gathered, IsPySpace;
    }
  }

  /** A newline at `p` would stand next to another, with only white space between. */
  predicate MakesBlankLine(text: string, p: nat, end: nat)
    requires p < end <= |text|
  {
    exists q | 0 <= q < end && q != p :: text[q] == '\n' && BlankBetween(text, q, p) && BlankBetween(text, p, q)
  }

  lemma {:induction false} SameStops(text: string, p: nat, end: nat, i: nat)
    requires p < end <= |text| && text[p] == ' ' && !MakesBlankLine(text, p, end) && i < end
    ensures StopAt(text[p := '\n'], i, end) == StopAt(text, i, end)
  {
    var wrapped := text[p := '\n'];
    assert forall k, l | 0 <= k < end && 0 <= l < end :: BlankBetween(wrapped, k, l) == BlankBetween(text, k, l) by {
      forall k, l | 0 <= k < end && 0 <= l < end ensures BlankBetween(wrapped, k, l) == BlankBetween(text, k, l) {
        SameBlanks(text, p, k, l);
      }
    }
    assert forall k, l | 0 <= l <= k < end :: BlankBetween(text, k, l);
    hide IsPySpace, BlankBetween;
  }

  lemma {:induction false} SameBlanks(text: string, p: nat, k: nat, l: nat)
    requires p < |text| && text[p] == ' ' && l <= |text|
    ensures BlankBetween(text[p := '\n'], k, l) == BlankBetween(text, k, l)
  {
    var wrapped := text[p := '\n'];
    assert IsPySpace(wrapped[p]) && IsPySpace(text[p]);
    hide IsPySpace;
    assert forall m | k < m < l :: IsPySpace(wrapped[m]) == IsPySpace(text[m]);
  }

  lemma {:induction false} SameClauseStart(text: string, p: nat, end: nat, from: nat)
    requires p < end <= |text| && text[p] == ' ' && !MakesBlankLine(text, p, end) && from <= end
    ensures ClauseStart(text[p := '\n'], end, from) == ClauseStart(text, end, from)
  {
    hide MakesBlankLine, StopAt;
    if from > 0 {
      SameStops(text, p, end, from - 1);
      SameClauseStart(text, p, end, from - 1);
    }
  }

  /** Turning one space before the verb into a line end, without making a blank line,
      never changes the negation found. */
  lemma {:induction false} RewrapKeepsNegation(text: string, p: nat, end: nat, lower: string -> string)
    requires p < end <= |text| && text[p] == ' ' && !MakesBlankLine(text, p, end)
    ensures Negation(text[p := '\n'], end, lower) == Negation(text, end, lower)
  {
    hide NearestWords, MakesBlankLine, FirstNegation;
    RewrapKeepsWords(text, p, end);
  }

  lemma {:induction false} RewrapKeepsWords(text: string, p: nat, end: nat)
    requires p < end <= |text| && text[p] == ' ' && !MakesBlankLine(text, p, end)
    ensures NearestWords(text[p := '\n'], end) == NearestWords(text, end)
  {
    var wrapped := text[p := '\n'];
    SameClauseStart(text, p, end, end);
    assert IsPySpace(' ') && IsPySpace('\n');
    hide ClauseStart, MakesBlankLine, FirstNegation, IsPySpace, Gathered, Words, Plain, AllGathered, Reversed;
    assert SameButSpace(Clause(wrapped, end), Clause(text, end));
    SameGathered(Clause(wrapped, end), Clause(text, end));
    GatheredWords(Clause(wrapped, end));
    GatheredWords(Clause(text, end));
  }

  lemma {:induction false} LaterStops(text: string, other: string, end: nat, i: nat)
    requires i < end <= |text| && end <= |other| && text[..end] == other[..end]
    ensures StopAt(text, i, end) == StopAt(other, i, end)
  {
    assert forall k | 0 <= k < end :: text[k] == text[..end][k] == other[k];
    assert forall k, l | 0 <= k < end && 0 <= l < end :: BlankBetween(text, k, l) == BlankBetween(other, k, l);
  }

  lemma {:induction false} LaterStart(text: string, other: string, end: nat, from: nat)
    requires from <= end <= |text| && end <= |other| && text[..end] == other[..end]
    ensures ClauseStart(text, end, from) == ClauseStart(other, end, from)
  {
    hide StopAt;
    if from > 0 {
      LaterStops(text, other, end, from - 1);
      LaterStart(text, other, end, from - 1);
    }
  }

  /** Nothing from the verb on matters. */
  lemma {:induction false} OnlyTheTextBefore(text: string, other: string, end: nat, lower: string -> string)
    requires end <= |text| && end <= |other| && text[..end] == other[..end]
    ensures Negation(text, end, lower) == Negation(other, end, lower)
  {
    LaterStart(text, other, end, end);
    hide ClauseStart, Words, Plain, FirstNegation;
    var s := ClauseStart(text, end, end);
    assert text[s..end] == text[..end][s..] == other[s..end];
  }

  /** One reference, at its place in both texts, is reported for both or for neither. */
  lemma {:induction false} RewrapKeepsFinding(text: string, at: nat, r: Reference, lower: string -> string)
    requires at < |text| && text[at] == ' ' && r.offset <= |text|
    requires at < r.offset ==> !MakesBlankLine(text, at, r.offset)
    ensures FindingOf(text[at := '\n'], r, lower) == FindingOf(text, r, lower)
  {
    if at < r.offset {
      RewrapKeepsNegation(text, at, r.offset, lower);
    } else {
      OnlyTheTextBefore(text[at := '\n'], text, r.offset, lower);
    }
  }

  /** Turning a space into a line end that makes no blank line before any reference
      leaves the findings as they are, when it leaves the references that are not in
      code where they are. */
  lemma {:induction false} RewrapKeepsFindings(text: string, at: nat, p: Patterns, lower: string -> string)
    requires at < |text| && text[at] == ' ' && ReferencesFit(text, p)
    requires AllReferences(text[at := '\n'], p) == AllReferences(text, p)
    requires forall k | 0 <= k < |AllReferences(text, p)| && at < AllReferences(text, p)[k].offset ::
      !MakesBlankLine(text, at, AllReferences(text, p)[k].offset)
    ensures Findings(text[at := '\n'], AllReferences(text[at := '\n'], p), lower)
         == Findings(text, AllReferences(text, p), lower)
  {
    hide FindingOf, MakesBlankLine, CloseReferences;
    RewrapKeepsList(text, at, AllReferences(text, p), lower);
  }

  lemma {:induction false} RewrapKeepsList(text: string, at: nat, rs: seq<Reference>, lower: string -> string)
    requires at < |text| && text[at] == ' ' && forall k | 0 <= k < |rs| :: rs[k].offset <= |text|
    requires forall k | 0 <= k < |rs| && at < rs[k].offset :: !MakesBlankLine(text, at, rs[k].offset)
    ensures Findings(text[at := '\n'], rs, lower) == Findings(text, rs, lower)
  {
    hide FindingOf, MakesBlankLine;
    if rs != [] {
      var n := |rs| - 1;
      RewrapKeepsList(text, at, rs[..n], lower);
      RewrapKeepsFinding(text, at, rs[n], lower);
    }
  }

  // ---------- wrapping that makes a blank line ----------

  /** The nearest words that stand after position `p`. */
  function WordsAfter(text: string, p: nat, end: nat): seq<string>
    requires p < end <= |text|
  {
    Take(Reversed(Words(Plain(text[p + 1..end]))), LOOKBACK_WORDS)
  }

  /** Wrapping at `p` cuts the clause there: it makes a blank line, and no later stop
      has cut it already. */
  predicate WrapCuts(text: string, p: nat, end: nat)
    requires p < end <= |text|
  {
    MakesBlankLine(text, p, end) && ClauseStart(text, end, end) <= p
  }

  /** After the wrapped place nothing changes. */
  lemma {:induction false} StopsAfter(text: string, p: nat, end: nat, i: nat)
    requires p < i < end <= |text| && text[p] == ' '
    ensures StopAt(text[p := '\n'], i, end) == StopAt(text, i, end)
  {
    var wrapped := text[p := '\n'];
    assert forall j | i < j < end :: wrapped[j] == text[j];
    forall j | i < j < end ensures BlankBetween(wrapped, i, j) == BlankBetween(text, i, j) {
      SameBlanks(text, p, i, j);
    }
    hide BlankBetween, IsBoundary;
  }

  /** A later stop keeps the clause out of reach of the wrapping. */
  lemma {:induction false} LaterStopKeeps(text: string, p: nat, end: nat)
    requires p < end <= |text| && text[p] == ' ' && ClauseStart(text, end, end) > p
    ensures NearestWords(text[p := '\n'], end) == NearestWords(text, end)
  {
    var c, wrapped := ClauseStart(text, end, end), text[p := '\n'];
    assert !StopAt(text, p, end);
    hide StopAt, Clause, Words, Plain, Reversed;
    forall i | p < i < end ensures StopAt(wrapped, i, end) == StopAt(text, i, end) { StopsAfter(text, p, end, i); }
    assert c - 1 > p;
    assert forall i | c <= i < end :: !StopAt(text, i, end) && !StopAt(wrapped, i, end);
    WalkStops(wrapped, end, c);
    WalkStops(text, end, c);
    assert wrapped[c..end] == text[c..end];
  }

  /** The blank line starts the new clause, and only white space stands in it up to
      the wrapped place. */
  lemma {:induction false} ClauseOfCut(text: string, p: nat, end: nat) returns (s: nat)
    requires p < end <= |text| && text[p] == ' ' && WrapCuts(text, p, end)
    ensures s <= p + 1 && Clause(text[p := '\n'], end) == text[p := '\n'][s..end]
    ensures All(text[p := '\n'][s..p + 1], IsPySpace)
  {
    var wrapped := text[p := '\n'];
    s := ClauseStart(wrapped, end, end);
    forall i | p < i < end ensures !StopAt(wrapped, i, end) { StopsAfter(text, p, end, i); }
    var q :| 0 <= q < end && q != p && text[q] == '\n' && BlankBetween(text, q, p) && BlankBetween(text, p, q);
    BlankLineCuts(text, p, q, end);
    assert IsPySpace('\n');
    assert forall k | s <= k < p :: wrapped[k] == text[k];
    hide StopAt, ClauseStart;
  }

  lemma {:induction false} LeadingSpace(s: string, n: nat)
    requires n <= |s| && forall k | 0 <= k < n :: IsPySpace(s[k])
    ensures AllGathered(s) == AllGathered(s[n..])
    decreases n
  {
    if n > 0 {
      LeadingSpace(s[1..], n - 1);
      hide IsPySpace;
      assert s[1..][n - 1..] == s[n..] && IsPySpace(s[0]);
    } else {
      assert s[0..] == s;
    }
  }

  lemma {:induction false} NearestGathered(text: string, end: nat)
    requires end <= |text|
    ensures NearestWords(text, end) == Take(AllGathered(Clause(text, end)), LOOKBACK_WORDS)
  {
    hide Clause;
    GatheredWords(Clause(text, end));
  }

  lemma {:induction false} GatheredAfter(text: string, p: nat, end: nat)
    requires p < end <= |text|
    ensures WordsAfter(text, p, end) == Take(AllGathered(text[p + 1..end]), LOOKBACK_WORDS)
  {
    GatheredWords(text[p + 1..end]);
  }

  /** Cut there, the clause has the nearest words after the wrapped place. */
  lemma {:induction false} CutKeepsWordsAfter(text: string, p: nat, end: nat)
    requires p < end <= |text| && text[p] == ' ' && WrapCuts(text, p, end)
    ensures NearestWords(text[p := '\n'], end) == WordsAfter(text, p, end)
  {
    var wrapped := text[p := '\n'];
    var s := ClauseOfCut(text, p, end);
    hide Clause, WrapCuts, NearestWords, WordsAfter, AllGathered, IsPySpace;
    var clause := wrapped[s..end];
    assert clause[p + 1 - s..] == text[p + 1..end];
    assert forall k | 0 <= k < p + 1 - s :: clause[k] == wrapped[s..p + 1][k];
    LeadingSpace(clause, p + 1 - s);
    NearestGathered(wrapped, end);
    GatheredAfter(text, p, end);
  }

  /** The words after a space of the clause are the first of its nearest words. */
  lemma {:induction false} WordsAfterAreNearest(text: string, p: nat, end: nat)
    requires p < end <= |text| && text[p] == ' ' && ClauseStart(text, end, end) <= p
    ensures WordsAfter(text, p, end) <= NearestWords(text, end)
  {
    var c := ClauseStart(text, end, end);
    var clause := text[c..end];
    assert clause[p - c..] == text[p..end] && text[p..end][1..] == text[p + 1..end] && text[p..end][0] == ' ';
    assert IsPySpace(' ');
    assert Gathered(text[p..end]).0 == AllGathered(text[p + 1..end]);
    GatheredMore(clause, p - c);
    hide Gathered, ClauseStart;
    assert AllGathered(text[p + 1..end]) <= AllGathered(clause);
    NearestGathered(text, end);
    GatheredAfter(text, p, end);
  }

  lemma {:induction false} FewerWords(few: seq<string>, all: seq<string>, lower: string -> string)
    requires few <= all
    ensures FirstNegation(few, lower) == FirstNegation(all, lower) || FirstNegation(few, lower) == None
  {
    if few != [] {
      assert few[0] == all[0] && few[1..] <= all[1..];
      FewerWords(few[1..], all[1..], lower);
    }
  }

  /** Wrapping never brings a word nearer or a new one in: the nearest words after it
      are the first of those before. */
  lemma {:induction false} WrapKeepsPrefix(text: string, p: nat, end: nat)
    requires p < end <= |text| && text[p] == ' '
    ensures NearestWords(text[p := '\n'], end)
         == if WrapCuts(text, p, end) then WordsAfter(text, p, end) else NearestWords(text, end)
    ensures NearestWords(text[p := '\n'], end) <= NearestWords(text, end)
  {
    if WrapCuts(text, p, end) {
      CutKeepsWordsAfter(text, p, end);
      WordsAfterAreNearest(text, p, end);
    } else if MakesBlankLine(text, p, end) {
      LaterStopKeeps(text, p, end);
    } else {
      RewrapKeepsWords(text, p, end);
    }
    hide NearestWords, WordsAfter, MakesBlankLine, ClauseStart;
  }

  /** What wrapping at any space does to the negation: it keeps it or loses it, and
      never brings in or changes one. It is lost if and only if there was one, the
      wrapping cuts the clause, and none of the nearest words after it negates. */
  lemma {:induction false} WrapLosesExactly(text: string, p: nat, end: nat, lower: string -> string)
    requires p < end <= |text| && text[p] == ' '
    ensures var before, after := Negation(text, end, lower), Negation(text[p := '\n'], end, lower);
            && (after == before || after == None)
            && (after != before <==>
                  before.Some? && WrapCuts(text, p, end) && FirstNegation(WordsAfter(text, p, end), lower) == None)
  {
    WrapKeepsPrefix(text, p, end);
    NegationIs(text, end, lower);
    NegationIs(text[p := '\n'], end, lower);
    hide NearestWords, WordsAfter, WrapCuts, Negation, FirstNegation;
    FewerWords(NearestWords(text[p := '\n'], end), NearestWords(text, end), lower);
  }

  /** A blank line that wrapping makes starts a new clause. */
  lemma {:induction false} BlankLineCuts(text: string, p: nat, q: nat, end: nat)
    requires p < end <= |text| && text[p] == ' '
    requires q < end && q != p && text[q] == '\n' && BlankBetween(text, q, p) && BlankBetween(text, p, q)
    ensures MakesBlankLine(text, p, end)
    ensures ClauseStart(text[p := '\n'], end, end) > if p < q then p else q
  {
    var wrapped := text[p := '\n'];
    var first, second := if p < q then p else q, if p < q then q else p;
    SameBlanks(text, p, first, second);
    assert StopAt(wrapped, first, end);
    hide StopAt, BlankBetween;
  }

  const UNWRAPPED := "not\n "

  /** So wrapping can change the answer: before a verb, it turns the line end and the
      space here into a paragraph break, and "not" no longer belongs to the verb. */
  lemma {:induction false} BlankLineCutsNegation(lower: string -> string)
    requires lower("not") == "not"
    ensures MakesBlankLine(UNWRAPPED, 4, 5)
    ensures Negation(UNWRAPPED, 5, lower) == Some("not")
    ensures Negation(UNWRAPPED[4 := '\n'], 5, lower) == None
  {
    BeforeWrapping(lower);
    AfterWrapping(lower);
  }

  lemma {:induction false} BeforeWrapping(lower: string -> string)
    requires lower("not") == "not"
    ensures Negation(UNWRAPPED, 5, lower) == Some("not")
  {
    ClauseBefore();
    NearNot();
    BareNot(lower);
    hide Clause, Plain, Words, Bare;
    assert Reversed(["not"]) == ["not"];
  }

  lemma {:induction false} AfterWrapping(lower: string -> string)
    ensures MakesBlankLine(UNWRAPPED, 4, 5)
    ensures Negation(UNWRAPPED[4 := '\n'], 5, lower) == None
  {
    var a, b := UNWRAPPED, UNWRAPPED[4 := '\n'];
    assert a[3] == '\n' && a[4] == ' ' && b[4] == '\n';
    BlankLineCuts(a, 4, 3, 5);
    NearNot();
    assert b[4..5] == [b[4]] == "\n" && b[5..5] == "";
    hide ClauseStart, Plain, Words, MakesBlankLine;
    var s := ClauseStart(b, 5, 5);
    assert s == 4 || s == 5;
  }

  lemma {:induction false} BareNot(lower: string -> string)
    requires lower("not") == "not"
    ensures Bare("not", lower) == "not"
  {
  }

  lemma {:induction false} ClauseBefore()
    ensures Clause(UNWRAPPED, 5) == "not\n "
  {
  }

  lemma {:induction false} NearNot()
    ensures Words(Plain("not\n ")) == ["not"] && Words(Plain("\n")) == [] && Words(Plain("")) == []
  {
    PlainKeeps("not\n ");
    PlainKeeps("\n");
    assert "not\n "[..3] == "not" && "not\n "[3..] == "\n ";
    assert RunLength("not\n ", IsSolid) == 3 by {
      RunExact("not", "\n ", IsSolid);
      assert "not" + "\n " == "not\n ";
    }
    hide Plain;
    assert Words("") == [] && Words(" ") == [] && Words("\n ") == [];
  }

  lemma {:induction false} PlainKeeps(s: string)
    requires forall i | 0 <= i < |s| :: !IsEmphasis(s[i])
    ensures Plain(s) == s
  {
    if s != "" { PlainKeeps(s[1..]); }
  }
}
