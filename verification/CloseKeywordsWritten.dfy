/** The words before a close verb as they are written, and which of them negate it. */
module CloseKeywordsWritten {
  import opened Text
  import opened CloseKeywords

  // ---------- a clause as it is written ----------

  /** A word, with emphasis marks anywhere in it, and the blanks behind it. */
  datatype Piece = Piece(word: string, blank: string)

  predicate IsMark(c: char) { c == '.' || c == '!' || c == '?' || c == ';' || c == ':' || c == ',' }

  predicate IsStar(c: char) { c == '*' || c == '_' || c == '`' || c == '~' }

  predicate NoMark(c: char) { !IsMark(c) }

  predicate IsInked(c: char) { !IsMark(c) && !IsPySpace(c) }

  /** White space with no blank line in it. */
  predicate IsBlank(s: string) {
    All(s, IsPySpace) && forall i, j | 0 <= i < j < |s| :: !(s[i] == '\n' && s[j] == '\n')
  }

  predicate IsPiece(p: Piece) {
    && All(p.word, IsInked) && (exists k | 0 <= k < |p.word| :: !IsStar(p.word[k]))
    && p.blank != "" && IsBlank(p.blank)
  }

  function Written(pieces: seq<Piece>): string {
    if pieces == [] then "" else pieces[0].word + (pieces[0].blank + Written(pieces[1..]))
  }

  /** The word without its emphasis marks. */
  function Unmarked(word: string): string {
    if word == "" then "" else (if IsStar(word[0]) then "" else [word[0]]) + Unmarked(word[1..])
  }

  function WordsOf(pieces: seq<Piece>): seq<string> {
    if pieces == [] then [] else [Unmarked(pieces[0].word)] + WordsOf(pieces[1..])
  }

  // ---------- emphasis ----------

  lemma {:induction false} MarksAgree(c: char)
    ensures IsMark(c) <==> IsBoundary(c)
    ensures IsStar(c) <==> IsEmphasis(c)
    ensures IsPySpace(c) ==> !IsStar(c)
  {
  }

  lemma {:induction false} PlainConcat(a: string, b: string)
    ensures Plain(a + b) == Plain(a) + Plain(b)
  {
    if a == "" {
      assert a + b == b;
    } else {
      assert (a + b)[1..] == a[1..] + b;
      PlainConcat(a[1..], b);
    }
  }

  lemma {:induction false} PlainIsUnmarked(s: string)
    ensures Plain(s) == Unmarked(s)
  {
    if s != "" {
      MarksAgree(s[0]);
      PlainIsUnmarked(s[1..]);
      hide IsStar, IsEmphasis;
    }
  }

  lemma {:induction false} BlankIsPlain(s: string)
    requires All(s, IsPySpace)
    ensures Plain(s) == s
  {
    if s != "" {
      BlankIsPlain(s[1..]);
      MarksAgree(s[0]);
      assert s == [s[0]] + s[1..];
    }
  }

  lemma {:induction false} UnmarkedIsSolid(word: string)
    requires All(word, IsInked)
    ensures All(Unmarked(word), IsSolid)
    ensures (exists k | 0 <= k < |word| :: !IsStar(word[k])) ==> Unmarked(word) != ""
  {
    if word != "" { UnmarkedIsSolid(word[1..]); }
  }

  // ---------- words ----------

  lemma {:induction false} BlanksComeOff(blank: string, rest: string)
    requires All(blank, IsPySpace)
    ensures Words(blank + rest) == Words(rest)
  {
    if blank == "" {
      assert blank + rest == rest;
    } else {
      assert (blank + rest)[1..] == blank[1..] + rest;
      BlanksComeOff(blank[1..], rest);
    }
  }

  lemma {:induction false} WordComesOff(word: string, blank: string, rest: string)
    requires word != "" && All(word, IsSolid) && blank != "" && All(blank, IsPySpace)
    ensures Words(word + (blank + rest)) == [word] + Words(rest)
  {
    var s := word + (blank + rest);
    RunExact(word, blank + rest, IsSolid);
    assert s[..|word|] == word && s[|word|..] == blank + rest;
    BlanksComeOff(blank, rest);
    hide RunLength;
  }

  /** A written clause has its words. */
  lemma {:induction false} WordsAreRead(lead: string, pieces: seq<Piece>)
    requires All(lead, IsPySpace) && forall p <- pieces :: IsPiece(p)
    ensures Words(Plain(lead + Written(pieces))) == WordsOf(pieces)
    decreases pieces
  {
    PlainConcat(lead, Written(pieces));
    BlankIsPlain(lead);
    hide Plain, Words, All;
    BlanksComeOff(lead, Plain(Written(pieces)));
    if pieces == [] {
      NoWords();
    } else {
      var p, rest := pieces[0], Written(pieces[1..]);
      assert p in pieces && IsPiece(p);
      PlainConcat(p.word, p.blank + rest);
      PlainConcat(p.blank, rest);
      PlainIsUnmarked(p.word);
      UnmarkedIsSolid(p.word);
      BlankIsPlain(p.blank);
      WordComesOff(Unmarked(p.word), p.blank, Plain(rest));
      WordsAreRead("", pieces[1..]);
      assert "" + rest == rest;
    }
  }

  lemma {:induction false} NoWords()
    ensures Plain("") == "" && Words("") == [] && All("", IsPySpace)
  {
  }

  // ---------- where the clause starts ----------

  /** Between any two line ends something is written. */
  ghost predicate NoBlankLine(s: string) {
    forall i, j | 0 <= i < j < |s| && s[i] == '\n' && s[j] == '\n' :: exists k | i < k < j :: !IsPySpace(s[k])
  }

  /** White space, and behind it nothing or a text that starts with ink. */
  lemma {:induction false} LeadingBlank(blank: string, rest: string)
    requires IsBlank(blank) && NoBlankLine(rest) && (rest == "" || !IsPySpace(rest[0]))
    ensures NoBlankLine(blank + rest)
  {
    hide IsPySpace;
    var s, n := blank + rest, |blank|;
    forall i, j | 0 <= i < j < |s| && s[i] == '\n' && s[j] == '\n' ensures exists k | i < k < j :: !IsPySpace(s[k]) {
      if i >= n {
        var k :| i - n < k < j - n && !IsPySpace(rest[k]);
        assert s[k + n] == rest[k];
      } else if j >= n {
        assert s[n] == rest[0] && !IsPySpace(s[n]);
        assert IsPySpace('\n') by { NewlineIsBlank(); }
        assert j > n;
      }
    }
  }

  lemma {:induction false} NewlineIsBlank()
    ensures IsPySpace('\n')
  {
  }

  lemma {:induction false} LeadingWord(word: string, rest: string)
    requires word != "" && All(word, IsSolid) && NoBlankLine(rest)
    ensures NoBlankLine(word + rest) && !IsPySpace((word + rest)[0])
  {
    NewlineIsBlank();
    hide IsPySpace;
    var s, n := word + rest, |word|;
    forall i, j | 0 <= i < j < |s| && s[i] == '\n' && s[j] == '\n' ensures exists k | i < k < j :: !IsPySpace(s[k]) {
      assert i < n ==> IsSolid(word[i]);
      var k :| i - n < k < j - n && !IsPySpace(rest[k]);
      assert s[k + n] == rest[k];
    }
  }

  lemma {:induction false} InkIsSolid(word: string)
    requires All(word, IsInked)
    ensures All(word, IsSolid) && All(word, NoMark)
  {
  }

  lemma {:induction false} BlankHasNoMark(s: string)
    requires All(s, IsPySpace)
    ensures All(s, NoMark)
  {
  }

  /** A written clause has no stop in it. */
  lemma {:induction false} WrittenRunsOn(pieces: seq<Piece>)
    requires forall p <- pieces :: IsPiece(p)
    ensures NoBlankLine(Written(pieces)) && All(Written(pieces), NoMark)
    ensures Written(pieces) == "" || !IsPySpace(Written(pieces)[0])
  {
    if pieces != [] {
      var p, rest := pieces[0], Written(pieces[1..]);
      assert p in pieces && IsPiece(p);
      WrittenRunsOn(pieces[1..]);
      InkIsSolid(p.word);
      BlankHasNoMark(p.blank);
      LeadingBlank(p.blank, rest);
      LeadingWord(p.word, p.blank + rest);
      hide NoBlankLine, IsPySpace, NoMark, Written;
      WrittenFirst(pieces);
    }
  }

  lemma {:induction false} WrittenFirst(pieces: seq<Piece>)
    requires pieces != []
    ensures Written(pieces) == pieces[0].word + (pieces[0].blank + Written(pieces[1..]))
  {
  }

  lemma {:induction false} NoStop(before: string, clause: string, i: nat)
    requires NoBlankLine(clause) && All(clause, NoMark) && |before| <= i < |before + clause|
    ensures !StopAt(before + clause, i, |before + clause|)
  {
    var text, n := before + clause, |before|;
    assert text[i] == clause[i - n] && NoMark(clause[i - n]);
    MarksAgree(text[i]);
    hide IsMark, IsBoundary, IsPySpace, NoMark;
    forall j | i < j < |text| && text[i] == '\n' && text[j] == '\n' ensures !BlankBetween(text, i, j) {
      assert clause[j - n] == '\n';
      var k :| i - n < k < j - n && !IsPySpace(clause[k]);
      assert text[k + n] == clause[k];
    }
  }

  lemma {:induction false} StartIs(text: string, n: nat, from: nat)
    requires n <= from <= |text| && (forall i | n <= i < from :: !StopAt(text, i, |text|))
    requires n > 0 ==> StopAt(text, n - 1, |text|)
    ensures ClauseStart(text, |text|, from) == n
  {
    hide StopAt;
    if from > n { StartIs(text, n, from - 1); }
  }

  /** The clause starts behind the text before it, when that ends in a clause mark. */
  lemma {:induction false} ClauseIs(before: string, clause: string)
    requires before == "" || IsMark(before[|before| - 1])
    requires NoBlankLine(clause) && All(clause, NoMark)
    ensures Clause(before + clause, |before + clause|) == clause
  {
    var text, n := before + clause, |before|;
    if n > 0 { MarksAgree(text[n - 1]); }
    assert n > 0 ==> StopAt(text, n - 1, |text|);
    hide IsMark, IsBoundary, NoBlankLine, IsPySpace, StopAt, ClauseStart, All;
    forall i | n <= i < |text| ensures !StopAt(text, i, |text|) { NoStop(before, clause, i); }
    StartIs(text, n, |text|);
    assert text[n..] == clause;
  }

  // ---------- which word negates ----------

  predicate IsQuoteOrBracket(c: char) {
    c == '(' || c == ')' || c == '[' || c == ']' || c == '{' || c == '}' || c == '"' || c == '\''
  }

  /** The text inside the brackets and quotes round it. */
  ghost predicate IsInside(word: string, inside: string) {
    exists a: string, b: string ::
      && All(a, IsQuoteOrBracket) && All(b, IsQuoteOrBracket) && word == a + inside + b
      && (inside == "" || (!IsQuoteOrBracket(inside[0]) && !IsQuoteOrBracket(inside[|inside| - 1])))
  }

  ghost predicate Negates(word: string) {
    || word == "not" || word == "no" || word == "never" || word == "nothing" || word == "none" || word == "neither"
    || word == "nor" || word == "cannot" || exists stem :: word == stem + "n't"
  }

  ghost predicate WordNegates(word: string, lower: string -> string) {
    exists inside :: IsInside(lower(word), inside) && Negates(inside)
  }

  lemma {:induction false} BracketsAgree(c: char)
    ensures IsBracket(c) <==> IsQuoteOrBracket(c)
  {
  }

  lemma {:induction false} AllBrackets(s: string)
    ensures All(s, IsBracket) <==> All(s, IsQuoteOrBracket)
  {
    forall i | 0 <= i < |s| ensures IsBracket(s[i]) <==> IsQuoteOrBracket(s[i]) { BracketsAgree(s[i]); }
    hide IsBracket, IsQuoteOrBracket;
  }

  lemma {:induction false} InsideIsBare(word: string, inside: string, lower: string -> string)
    ensures IsInside(lower(word), inside) <==> inside == Bare(word, lower)
  {
    var w := lower(word);
    if IsInside(w, inside) {
      var a: string, b: string :|
        && All(a, IsQuoteOrBracket) && All(b, IsQuoteOrBracket) && w == a + inside + b
        && (inside == "" || (!IsQuoteOrBracket(inside[0]) && !IsQuoteOrBracket(inside[|inside| - 1])));
      AllBrackets(a);
      AllBrackets(b);
      if inside != "" {
        BracketsAgree(inside[0]);
        BracketsAgree(inside[|inside| - 1]);
      }
      hide IsBracket, IsQuoteOrBracket, All;
      TrimPadded(a, inside, b, IsBracket);
    }
    if inside == Bare(word, lower) {
      TrimParts(w, IsBracket);
      AllBrackets(Before(w, IsBracket));
      AllBrackets(After(w, IsBracket));
      if inside != "" {
        BracketsAgree(inside[0]);
        BracketsAgree(inside[|inside| - 1]);
      }
      hide IsBracket, IsQuoteOrBracket, All, Before, After;
    }
  }

  lemma {:induction false} NegationsAgree(word: string)
    ensures IsNegation(word) <==> Negates(word)
  {
    if |word| >= 3 && word[|word| - 3..] == "n't" { assert word == word[..|word| - 3] + "n't"; }
  }

  lemma {:induction false} NegatingWord(word: string, lower: string -> string)
    ensures IsNegation(Bare(word, lower)) <==> WordNegates(word, lower)
  {
    var bare := Bare(word, lower);
    InsideIsBare(word, bare, lower);
    NegationsAgree(bare);
    hide IsNegation, Negates, IsInside, Bare;
    if inside :| IsInside(lower(word), inside) && Negates(inside) { InsideIsBare(word, inside, lower); }
  }

  /** The word at `k` is the last of the last three that negates. */
  ghost predicate Attached(words: seq<string>, lower: string -> string, k: int) {
    && 0 <= k < |words| <= k + 3 && WordNegates(words[k], lower)
    && forall j | k < j < |words| :: !WordNegates(words[j], lower)
  }

  lemma {:induction false} FromTheEnd<T>(s: seq<T>, k: nat)
    requires k < |s|
    ensures |Reversed(s)| == |s| && Reversed(s)[k] == s[|s| - 1 - k]
  {
    if |s| > 1 { FromTheEnd(s[1..], if k < |s| - 1 then k else 0); }
  }

  lemma {:induction false} FirstIs(words: seq<string>, lower: string -> string, i: nat)
    requires i < |words| && IsNegation(Bare(words[i], lower)) && forall j | 0 <= j < i :: !IsNegation(Bare(words[j], lower))
    ensures FirstNegation(words, lower) == Some(Bare(words[i], lower))
  {
    hide IsNegation, Bare;
    if i > 0 { FirstIs(words[1..], lower, i - 1); }
  }

  lemma {:induction false} FirstIsNone(words: seq<string>, lower: string -> string)
    ensures FirstNegation(words, lower) == None <==> forall word <- words :: !IsNegation(Bare(word, lower))
  {
    hide IsNegation, Bare;
    if words != [] {
      FirstIsNone(words[1..], lower);
      assert forall word :: word in words <==> word == words[0] || word in words[1..];
    }
  }

  lemma {:induction false} NearestAt(words: seq<string>, i: nat)
    requires i < |Take(Reversed(words), 3)|
    ensures i < 3 && i < |words| && Take(Reversed(words), 3)[i] == words[|words| - 1 - i]
  {
    if words != [] { FromTheEnd(words, if i < |words| then i else 0); }
  }

  lemma {:induction false} NearestCount(words: seq<string>)
    ensures |Take(Reversed(words), 3)| == if |words| < 3 then |words| else 3
  {
    if words != [] { FromTheEnd(words, 0); }
  }

  /** The negation found among the last three words is that of the attached word, and
      there is none when no word is attached. */
  lemma {:induction false} NearestNegation(words: seq<string>, lower: string -> string)
    ensures var found := FirstNegation(Take(Reversed(words), 3), lower);
            && (forall k | Attached(words, lower, k) :: found.Some? && IsInside(lower(words[k]), found.value))
            && (found.Some? ==> exists k :: Attached(words, lower, k))
  {
    var near := Take(Reversed(words), 3);
    NearestCount(words);
    forall i | 0 <= i < |near| ensures near[i] == words[|words| - 1 - i] { NearestAt(words, i); }
    forall word ensures IsNegation(Bare(word, lower)) <==> WordNegates(word, lower) { NegatingWord(word, lower); }
    hide Reversed, Take, IsNegation, Bare, WordNegates, FirstNegation, IsInside;
    forall k | Attached(words, lower, k)
      ensures var found := FirstNegation(near, lower); found.Some? && IsInside(lower(words[k]), found.value)
    {
      var i := |words| - 1 - k;
      assert near[i] == words[k];
      forall j | 0 <= j < i ensures !WordNegates(near[j], lower) { assert near[j] == words[|words| - 1 - j]; }
      FirstIs(near, lower, i);
      InsideIsBare(words[k], Bare(words[k], lower), lower);
    }
    FirstIsNone(near, lower);
    if FirstNegation(near, lower).Some? {
      var i := FirstAmong(near, lower);
      AttachedAt(words, near, lower, i);
    }
  }

  lemma {:induction false} FirstAmong(near: seq<string>, lower: string -> string) returns (i: nat)
    requires exists word <- near :: WordNegates(word, lower)
    ensures i < |near| && WordNegates(near[i], lower) && forall j | 0 <= j < i :: !WordNegates(near[j], lower)
  {
    hide WordNegates;
    if WordNegates(near[0], lower) {
      i := 0;
    } else {
      i := FirstAmong(near[1..], lower);
      i := i + 1;
    }
  }

  lemma {:induction false} AttachedAt(words: seq<string>, near: seq<string>, lower: string -> string, i: nat)
    requires i < |near| <= |words| && |near| <= 3 && forall j | 0 <= j < |near| :: near[j] == words[|words| - 1 - j]
    requires WordNegates(near[i], lower) && forall j | 0 <= j < i :: !WordNegates(near[j], lower)
    ensures Attached(words, lower, |words| - 1 - i)
  {
    hide WordNegates;
    forall j | |words| - 1 - i < j < |words| ensures !WordNegates(words[j], lower) { assert near[|words| - 1 - j] == words[j]; }
  }

  /** A clause written behind a clause mark, or at the start of the text, and before a
      close verb: the verb is negated exactly when one of the last three words negates,
      and the last such word is the negation reported. */
  lemma {:induction false} WrittenNegation(before: string, lead: string, pieces: seq<Piece>, after: string, lower: string -> string)
    requires before == "" || IsMark(before[|before| - 1])
    requires IsBlank(lead) && forall p <- pieces :: IsPiece(p)
    ensures var clause := before + (lead + Written(pieces));
            var found := Negation(clause + after, |clause|, lower);
            var words := WordsOf(pieces);
            && (found.Some? <==> exists k :: Attached(words, lower, k))
            && (forall k | Attached(words, lower, k) :: IsInside(lower(words[k]), found.value))
  {
    var body := lead + Written(pieces);
    var clause := before + body;
    var words := WordsOf(pieces);
    WrittenRunsOn(pieces);
    LeadingBlank(lead, Written(pieces));
    BlankHasNoMark(lead);
    hide NoBlankLine, IsMark, Negation, Clause, Words, Plain, IsInside, WordNegates, WordsOf, Written, IsPiece, IsPySpace, NoMark;
    ClauseIs(before, body);
    WordsAreRead(lead, pieces);
    NearestNegation(words, lower);
    NegationIs(clause, |clause|, lower);
    assert (clause + after)[..|clause|] == clause[..|clause|];
    OnlyTheTextBefore(clause + after, clause, |clause|, lower);
    hide Attached, FirstNegation, Take, Reversed;
  }

  // ---------- what is reported ----------

  /** The text with the spans blanked and its line ends kept. */
  ghost predicate IsBlanked(text: string, spans: seq<Span>, blanked: string) {
    && |blanked| == |text|
    && forall i | 0 <= i < |text| :: blanked[i] == if text[i] != '\n' && Inside(spans, i) then ' ' else text[i]
  }

  ghost predicate Inside(spans: seq<Span>, i: int) { exists span <- spans :: span.start <= i < span.end }

  /** The references outside code whose verb is negated, in order. */
  ghost function Reported(text: string, references: seq<Reference>, code: seq<Span>, lower: string -> string): seq<Finding>
    requires forall k | 0 <= k < |references| :: references[k].offset <= |text|
  {
    if references == [] then [] else
    var r := references[0];
    var negation := Negation(text, r.offset, lower);
    (if !Inside(code, r.offset) && negation.Some? then [Finding(r.issue, lower(r.keyword), negation.value)] else [])
    + Reported(text, references[1..], code, lower)
  }

  lemma {:induction false} InsideAgrees(spans: seq<Span>, i: nat)
    ensures InSpans(spans, i) <==> Inside(spans, i)
  {
    if span :| span in spans && span.start <= i < span.end {
      var k :| 0 <= k < |spans| && spans[k] == span;
      assert spans[k].Covers(i);
    }
    if k :| 0 <= k < |spans| && spans[k].Covers(i) { assert spans[k] in spans; }
  }

  lemma {:induction false} BlankedIs(text: string, spans: seq<Span>, blanked: string)
    requires IsBlanked(text, spans, blanked)
    ensures blanked == Masked(text, spans)
  {
    forall i: nat | i < |text| ensures blanked[i] == Masked(text, spans)[i] { InsideAgrees(spans, i); }
    hide Inside;
  }

  ghost function Outside(references: seq<Reference>, code: seq<Span>): seq<Reference> {
    if references == [] then []
    else (if Inside(code, references[0].offset) then [] else [references[0]]) + Outside(references[1..], code)
  }

  lemma {:induction false} OutsideFirst(r: Reference, rest: seq<Reference>, code: seq<Span>)
    ensures Outside([r] + rest, code) == (if Inside(code, r.offset) then [] else [r]) + Outside(rest, code)
  {
    hide Inside;
    assert ([r] + rest)[1..] == rest;
  }

  lemma {:induction false} OutsideLast(references: seq<Reference>, r: Reference, code: seq<Span>)
    ensures Outside(references + [r], code) == Outside(references, code) + if Inside(code, r.offset) then [] else [r]
  {
    hide Inside, Outside;
    if references == [] {
      NoneOutside(code);
      OutsideFirst(r, [], code);
      assert references + [r] == [r] + [];
    } else {
      var first, rest := references[0], references[1..];
      OutsideLast(rest, r, code);
      OutsideFirst(first, rest, code);
      OutsideFirst(first, rest + [r], code);
      assert references == [first] + rest && references + [r] == [first] + (rest + [r]);
    }
  }

  lemma {:induction false} CloseIsOutside(text: string, p: Patterns, n: nat)
    requires n <= |p.references(text)|
    ensures CloseReferences(text, p, n) == Outside(p.references(text)[..n], CodeSpans(text, p))
  {
    hide CodeSpans, Inside, InSpans, Outside;
    if n == 0 {
      NoneOutside(CodeSpans(text, p));
      assert p.references(text)[..0] == [];
    } else {
      var r := p.references(text)[n - 1];
      CloseIsOutside(text, p, n - 1);
      OutsideLast(p.references(text)[..n - 1], r, CodeSpans(text, p));
      InsideAgrees(CodeSpans(text, p), r.offset);
      assert p.references(text)[..n] == p.references(text)[..n - 1] + [r];
    }
  }

  lemma {:induction false} NoneOutside(code: seq<Span>)
    ensures Outside([], code) == []
  {
  }

  lemma {:induction false} FirstFinding(text: string, r: Reference, rest: seq<Reference>, lower: string -> string)
    requires r.offset <= |text| && forall k | 0 <= k < |rest| :: rest[k].offset <= |text|
    ensures Findings(text, [r] + rest, lower) == FindingOf(text, r, lower) + Findings(text, rest, lower)
  {
    hide FindingOf;
    var all := [r] + rest;
    if rest == [] {
      assert all == [r] && all[..0] == [];
    } else {
      var n := |rest| - 1;
      FirstFinding(text, r, rest[..n], lower);
      assert all[..n + 1] == [r] + rest[..n] && all[n + 1] == rest[n];
    }
  }

  lemma {:induction false} OutsideFits(references: seq<Reference>, code: seq<Span>, limit: nat)
    requires forall k | 0 <= k < |references| :: references[k].offset <= limit
    ensures forall k | 0 <= k < |Outside(references, code)| :: Outside(references, code)[k].offset <= limit
  {
    hide Inside;
    if references != [] { OutsideFits(references[1..], code, limit); }
  }

  lemma {:induction false} ReportedFirst(text: string, r: Reference, rest: seq<Reference>, code: seq<Span>, lower: string -> string)
    requires r.offset <= |text| && forall k | 0 <= k < |rest| :: rest[k].offset <= |text|
    ensures Reported(text, [r] + rest, code, lower)
         == (if Inside(code, r.offset) then [] else FindingOf(text, r, lower)) + Reported(text, rest, code, lower)
  {
    hide Inside, Negation;
    assert ([r] + rest)[1..] == rest;
  }

  lemma {:induction false} OutsideFindings(text: string, references: seq<Reference>, code: seq<Span>, lower: string -> string)
    requires forall k | 0 <= k < |references| :: references[k].offset <= |text|
    ensures forall k | 0 <= k < |Outside(references, code)| :: Outside(references, code)[k].offset <= |text|
    ensures Findings(text, Outside(references, code), lower) == Reported(text, references, code, lower)
  {
    OutsideFits(references, code, |text|);
    if references == [] {
      hide Negation, Inside;
      NoFindings(text, lower);
    } else {
      hide Inside, Negation, Findings, Outside, Reported, FindingOf;
      var r, others := references[0], references[1..];
      OutsideFindings(text, others, code, lower);
      OutsideFirst(r, others, code);
      ReportedFirst(text, r, others, code, lower);
      assert references == [r] + others;
      FirstFinding(text, r, Outside(others, code), lower);
      assert [] + Outside(others, code) == Outside(others, code);
    }
  }

  lemma {:induction false} NoFindings(text: string, lower: string -> string)
    ensures Findings(text, [], lower) == []
  {
  }

  /** Code is what stands in a fence, or in an inline span of the text with the fences
      blanked; the findings are the references outside it whose verb is negated, each
      with its issue, its verb and the negation, in the order of the text. */
  lemma {:induction false} FindingsExactly(text: string, p: Patterns, blanked: string, lower: string -> string)
    requires ReferencesFit(text, p) && IsBlanked(text, p.fences(text), blanked)
    ensures Findings(text, AllReferences(text, p), lower)
         == Reported(text, p.references(text), p.fences(text) + p.inline(blanked), lower)
  {
    BlankedIs(text, p.fences(text), blanked);
    CloseIsOutside(text, p, |p.references(text)|);
    OutsideFindings(text, p.references(text), CodeSpans(text, p), lower);
    hide Findings, Reported, CloseReferences, Masked, Outside;
    assert p.references(text)[..|p.references(text)|] == p.references(text);
  }
}
