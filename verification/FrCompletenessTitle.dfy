/** The title section is cut out and read again. When that shows what the document
    shows, for every way the section goes on, and a text where it does not. */
module FrCompletenessTitle {
  import opened Text
  import opened FrCompleteness
  import opened FrCompletenessProofs
  import opened FrCompletenessTables

  // ---------- the section as the document shows it ----------

  predicate HasTitle(text: string) {
    TitleStart(SeeAll(SplitLines(text), START)) < |SplitLines(text)|
  }

  /** The lines of the title section as the document shows them. */
  function SeenSection(text: string): seq<Option<string>>
    requires HasTitle(text)
  {
    var seen := SeeAll(SplitLines(text), START);
    seen[TitleStart(seen)..TitleEnd(seen)]
  }

  function TitleIndex(text: string): nat { TitleStart(SeeAll(SplitLines(text), START)) }

  /** The title line, the mode it is read in, and the lines of its section below it. */
  function TitleLine(text: string): string
    requires HasTitle(text)
  {
    SplitLines(text)[TitleIndex(text)]
  }

  function TitleMode(text: string): Mode
    requires HasTitle(text)
  {
    ModeAfter(SplitLines(text)[..TitleIndex(text)], START)
  }

  function Below(text: string): seq<string>
    requires HasTitle(text)
  {
    SplitLines(text)[TitleIndex(text) + 1..TitleEnd(SeeAll(SplitLines(text), START))]
  }

  lemma {:induction false} OneLine(lines: seq<string>, mode: Mode)
    requires |lines| == 1
    ensures SeeAll(lines, mode) == [See(lines[0], mode).0] && ModeAfter(lines, mode) == See(lines[0], mode).1
  {
  }

  lemma {:induction false} SlicedSection(lines: seq<string>, from: nat, to: nat)
    requires from < to <= |lines|
    ensures SeeAll(lines[from..to], ModeAfter(lines[..from], START)) == SeeAll(lines, START)[from..to]
  {
    hide SeeAll, ModeAfter;
    SeenByPrefix(lines, from, START);
    SeenByPrefix(lines[from..], to - from, ModeAfter(lines[..from], START));
    assert lines[from..][..to - from] == lines[from..to];
    assert SeeAll(lines, START)[from..][..to - from] == SeeAll(lines, START)[from..to];
  }

  lemma {:induction false} StripNothing()
    ensures Strip("") == ""
  {
  }

  lemma {:induction false} LastSeen(lines: seq<string>, mode: Mode)
    requires lines != []
    ensures var n := |lines| - 1; SeeAll(lines, mode)[n] == See(lines[n], ModeAfter(lines[..n], mode)).0
  {
  }

  function TablesOf(lines: seq<Option<string>>): seq<Table> { ReadTables(lines, |lines|).found }

  // ---------- the title line, read again ----------

  /** A line that starts no table, whatever follows it. */
  predicate Harmless(shown: Option<string>) {
    shown.Some? ==> !PipeRow(shown.value) || IsSeparator(Cells(shown.value))
  }

  /** Reading the title line with nothing open leaves the mode that reading it in its
      place leaves, and gives a line that starts no table. */
  predicate ReadsAlike(title: string, mode: Mode) {
    See(title, START).1 == See(title, mode).1 && Harmless(See(title, START).0)
  }

  lemma {:induction false} FollowingTail(first: Option<string>, rest: seq<Option<string>>, i: nat)
    requires 1 <= i <= |rest| + 1
    ensures Following([first] + rest, i) == Following(rest, i - 1)
    decreases |rest| + 1 - i
  {
    if i <= |rest| { FollowingTail(first, rest, i + 1); }
  }

  lemma {:induction false} HarmlessRead(first: Option<string>, following: string)
    requires Harmless(first) && first.Some?
    ensures ReadLine(Reading([], false), first.value, following) == Reading([], false)
  {
    hide PipeRow, Cells, IsSeparator;
  }

  /** Two first lines that start no table give the same tables below. */
  lemma {:induction false} HarmlessFirst(a: Option<string>, b: Option<string>, rest: seq<Option<string>>, n: nat)
    requires Harmless(a) && Harmless(b) && 1 <= n <= |rest| + 1
    ensures ReadTables([a] + rest, n) == ReadTables([b] + rest, n)
  {
    hide ReadLine, Harmless, Following;
    if n == 1 {
      if a.Some? { HarmlessRead(a, Following([a] + rest, 1)); }
      if b.Some? { HarmlessRead(b, Following([b] + rest, 1)); }
      assert ReadTables([a] + rest, 0) == ReadTables([b] + rest, 0) == Reading([], false);
    } else {
      HarmlessFirst(a, b, rest, n - 1);
      FollowingTail(a, rest, n);
      FollowingTail(b, rest, n);
    }
  }

  /** The section read from its title line on, in some mode. */
  lemma {:induction false} SectionLines(title: string, rest: seq<string>, mode: Mode)
    ensures SeeAll([title] + rest, mode) == [See(title, mode).0] + SeeAll(rest, See(title, mode).1)
  {
    hide See;
    SeeConcat([title], rest, mode);
    OneLine([title], mode);
  }

  lemma {:induction false} AlikeSame(title: string, rest: seq<string>, mode: Mode)
    requires ReadsAlike(title, mode) && Harmless(See(title, mode).0)
    ensures TablesOf(SeeAll([title] + rest, START)) == TablesOf(SeeAll([title] + rest, mode))
  {
    hide See, Harmless, SeeAll, ReadTables;
    SectionLines(title, rest, START);
    SectionLines(title, rest, mode);
    HarmlessFirst(See(title, START).0, See(title, mode).0, SeeAll(rest, See(title, mode).1), |rest| + 1);
  }

  // ---------- a section that tells the two readings apart ----------

  /** A text that can be the one cell of a row. */
  predicate IsCell(x: string) {
    x != "" && Strip(x) == x && '|' !in x && '\\' !in x
  }

  lemma {:induction false} NoBoundary(x: string, escaped: bool)
    requires '|' !in x && '\\' !in x && (x == "" ==> !escaped)
    ensures SplitCells(x + "|", escaped) == [x, ""]
  {
    if x != "" {
      assert (x + "|")[1..] == x[1..] + "|" && x[0] in x && forall c <- x[1..] :: c in x;
      NoBoundary(x[1..], false);
      assert [x[0]] + x[1..] == x && [x[1..], ""][1..] == [""];
    } else {
      assert x + "|" == "|" && "|"[1..] == "";
      assert SplitCells("", false) == [""];
    }
  }

  lemma {:induction false} SplitOne(x: string)
    requires '|' !in x && '\\' !in x
    ensures SplitCells("|" + x + "|", false) == ["", x, ""]
  {
    NoBoundary(x, false);
    assert ("|" + x + "|")[1..] == x + "|";
  }

  lemma {:induction false} UnescapePlain(x: string)
    requires '\\' !in x
    ensures Unescape(x) == x
  {
    if x != "" {
      assert x[0] in x && forall c <- x[1..] :: c in x;
      UnescapePlain(x[1..]);
      assert [x[0]] + x[1..] == x;
    } else {
      assert x == "";
    }
  }

  /** A row of one cell. */
  lemma {:induction false} OneCell(x: string)
    requires IsCell(x)
    ensures Cells("|" + x + "|") == [x] && PipeRow("|" + x + "|") && Strip("|" + x + "|") == "|" + x + "|"
  {
    var s := "|" + x + "|";
    TrimPadded("", s, "", IsPySpace);
    assert "" + s + "" == s;
    SplitOne(x);
    UnescapePlain(x);
    StripNothing();
    hide SplitCells, Strip, Unescape;
    assert ["", x, ""][1..] == [x, ""] && [x, ""][..1] == [x];
    assert Cells(s) == [Unescape(Strip(x))];
  }

  /** A marker does not occur where one of its characters does not. */
  lemma {:induction false} NoMarker(s: string, part: string, j: nat)
    requires j < |part| && part[j] !in s
    ensures forall i | 0 <= i <= |s| :: !OccursAt(s, part, i)
  {
    forall i | 0 <= i <= |s| ensures !OccursAt(s, part, i) {
      if i + |part| <= |s| { assert s[i..i + |part|][j] == s[i + j] && s[i + j] in s; }
    }
  }

  lemma {:induction false} BarsAround(x: string)
    ensures var s := "|" + x + "|"; s[0] == '|' && s != "" && forall c <- s :: c == '|' || c in x
  {
  }

  lemma {:induction false} RowIsNoFence(s: string)
    requires Strip(s) == s && s != "" && s[0] == '|'
    ensures !Fence(s)
  {
    hide Strip;
  }

  /** A line with no fence and no comment marker. */
  predicate PlainLine(line: string) {
    line != "" && !Fence(line)
    && (forall i | 0 <= i <= |line| :: !OccursAt(line, OPEN, i) && !OccursAt(line, CLOSE, i))
  }

  lemma {:induction false} PlainRow(x: string)
    requires IsCell(x) && '<' !in x && '>' !in x && All(x, NotBreak)
    ensures PlainLine("|" + x + "|") && All("|" + x + "|", NotBreak)
  {
    var s := "|" + x + "|";
    OneCell(x);
    BarsAround(x);
    hide Strip, Cells, Fence, OccursAt, IsCell, PipeRow, NotBreak;
    assert NotBreak('|') by { BarIsNoBreak(); }
    NoMarker(s, OPEN, 0);
    NoMarker(s, CLOSE, 2);
    RowIsNoFence(s);
  }

  lemma {:induction false} BarIsNoBreak()
    ensures NotBreak('|')
  {
  }

  const NAME_ROW := "|a|"
  const RULE_ROW := "|-|"

  lemma {:induction false} ProbeCells()
    ensures IsCell("a") && IsCell("-") && NAME_ROW == "|" + "a" + "|" && RULE_ROW == "|" + "-" + "|"
  {
    TrimPadded("", "a", "", IsPySpace);
    TrimPadded("", "-", "", IsPySpace);
    assert "" + "a" + "" == "a" && "" + "-" + "" == "-";
  }

  /** The rows of the probe: one is a row of cells, one a separator. */
  lemma {:induction false} ProbeRows()
    ensures PipeRow(NAME_ROW) && !IsSeparator(Cells(NAME_ROW)) && Strip(NAME_ROW) == NAME_ROW
    ensures PipeRow(RULE_ROW) && IsSeparator(Cells(RULE_ROW)) && Strip(RULE_ROW) == RULE_ROW
    ensures !IsHeading(NAME_ROW) && !IsHeading(RULE_ROW)
    ensures All(NAME_ROW, NotBreak) && All(RULE_ROW, NotBreak) && All(CLOSE, NotBreak)
  {
    ProbeCells();
    OneCell("a");
    OneCell("-");
    hide Cells, Strip, PipeRow;
    assert !All("a", IsRule) by { assert !IsRule("a"[0]); }
    assert "a" in ["a"];
  }

  lemma {:induction false} ProbePlain()
    ensures PlainLine(NAME_ROW) && PlainLine(RULE_ROW)
  {
    ProbeCells();
    hide PlainLine, IsCell, NAME_ROW, RULE_ROW;
    PlainRow("a");
    PlainRow("-");
  }

  /** Lines that are hidden inside a fence, whatever else is open. */
  lemma {:induction false} FencedAreHidden(lines: seq<string>, mode: Mode)
    requires mode.fence && forall l <- lines :: !Fence(l)
    ensures SeeAll(lines, mode) == Hidden(|lines|) && ModeAfter(lines, mode) == mode
  {
    if lines != [] {
      var n := |lines| - 1;
      assert lines[n] in lines;
      FencedAreHidden(lines[..n], mode);
      hide Fence;
    }
  }

  lemma {:induction false} CloseLine()
    ensures See(CLOSE, Mode(false, true)) == (None, START) && !Fence(CLOSE)
  {
    assert CLOSE[3..] == "" && CLOSE <= CLOSE;
    StripNothing();
    TrimPadded("", CLOSE, "", IsPySpace);
    assert "" + CLOSE + "" == CLOSE;
  }

  lemma {:induction false} NoTables(lines: seq<Option<string>>)
    requires forall h: nat :: !HeaderAt(lines, h)
    ensures TablesOf(lines) == []
  {
    hide ReadTables, Headers;
    TablesExact(lines, |lines|);
    LastHeader(lines, |lines|);
  }

  lemma {:induction false} SomeTable(lines: seq<Option<string>>, h: nat)
    requires h < |lines| && HeaderAt(lines, h)
    ensures TablesOf(lines) != []
  {
    hide ReadTables, Headers, HeaderAt;
    TablesExact(lines, |lines|);
    HeadersExact(lines, |lines|);
  }

  /** With nothing after it that can be a separator, no line starts a table. */
  lemma {:induction false} HiddenHaveNone(first: Option<string>, n: nat)
    ensures TablesOf([first] + Hidden(n)) == []
  {
    var lines := [first] + Hidden(n);
    forall h: nat ensures !HeaderAt(lines, h) {
      if h < |lines| { NothingFollows(first, n, h + 1); }
    }
    NoTables(lines);
  }

  lemma {:induction false} NothingFollows(first: Option<string>, n: nat, i: nat)
    requires 1 <= i <= n + 1
    ensures Following([first] + Hidden(n), i) == ""
    decreases n + 1 - i
  {
    if i <= n { NothingFollows(first, n, i + 1); }
  }

  /** What follows a line among the next two. */
  lemma {:induction false} FollowingTwo(first: Option<string>, second: Option<string>, third: Option<string>)
    ensures var lines := [first, second, third];
            && Following(lines, 1) == (if second.Some? then Strip(second.value) else if third.Some? then Strip(third.value) else "")
            && Following(lines, 2) == (if third.Some? then Strip(third.value) else "") && Following(lines, 3) == ""
  {
  }

  lemma {:induction false} FollowingOne(first: Option<string>, second: Option<string>)
    ensures var lines := [first, second];
            Following(lines, 1) == (if second.Some? then Strip(second.value) else "") && Following(lines, 2) == ""
  {
  }

  /** Below any first line these two rows make a table. */
  lemma {:induction false} ProbeMakesTable(first: Option<string>)
    ensures TablesOf([first] + [Some(NAME_ROW), Some(RULE_ROW)]) != []
  {
    var lines := [first, Some(NAME_ROW), Some(RULE_ROW)];
    assert [first] + [Some(NAME_ROW), Some(RULE_ROW)] == lines;
    ProbeRows();
    FollowingTwo(first, Some(NAME_ROW), Some(RULE_ROW));
    hide PipeRow, Cells, IsSeparator, Following, Strip, TablesOf;
    assert CellLine(lines, 1);
    SomeTable(lines, 1);
  }

  /** The probe below a line that was hidden. */
  lemma {:induction false} ProbeMakesTableLater(first: Option<string>)
    ensures TablesOf([first] + [None, Some(NAME_ROW), Some(RULE_ROW)]) != []
  {
    var lines := [first, None, Some(NAME_ROW), Some(RULE_ROW)];
    assert [first] + [None, Some(NAME_ROW), Some(RULE_ROW)] == lines;
    ProbeRows();
    assert Following(lines, 3) == Strip(RULE_ROW) by { hide Strip, PipeRow, Cells; }
    hide PipeRow, Cells, IsSeparator, Following, Strip, TablesOf;
    assert CellLine(lines, 2);
    SomeTable(lines, 2);
  }

  /** The lines of the shorter probe, below a first line. */
  function RuleLines(first: Option<string>, hidden: bool): seq<Option<string>> {
    if hidden then [first, None, Some(RULE_ROW)] else [first, Some(RULE_ROW)]
  }

  lemma {:induction false} RuleFollows(first: Option<string>, hidden: bool)
    ensures var lines := RuleLines(first, hidden);
            Following(lines, 1) == RULE_ROW && forall h: nat | 1 <= h :: !CellLine(lines, h)
  {
    ProbeRows();
    var lines := RuleLines(first, hidden);
    if hidden { FollowingTwo(first, None, Some(RULE_ROW)); } else { FollowingOne(first, Some(RULE_ROW)); }
    hide PipeRow, Cells, IsSeparator, Following, Strip, RULE_ROW;
  }

  /** A row of cells with a separator after it is a header; a harmless line is not. */
  lemma {:induction false} RuleBelow(first: Option<string>, hidden: bool)
    ensures TablesOf([first] + if hidden then [None, Some(RULE_ROW)] else [Some(RULE_ROW)]) == [] <==> Harmless(first)
  {
    var lines := RuleLines(first, hidden);
    assert [first] + (if hidden then [None, Some(RULE_ROW)] else [Some(RULE_ROW)]) == lines;
    RuleFollows(first, hidden);
    RuleIsRule();
    assert lines[0] == first;
    hide PipeRow, Cells, IsSeparator, Following, Strip, TablesOf, RULE_ROW, RuleLines;
    assert HeaderAt(lines, 0) <==> !Harmless(first);
    if Harmless(first) {
      hide CellLine;
      forall h: nat ensures !HeaderAt(lines, h) { assert h > 0 ==> !CellLine(lines, h); }
      NoTables(lines);
    } else {
      SomeTable(lines, 0);
    }
  }

  lemma {:induction false} RuleIsRule()
    ensures "|" <= RULE_ROW && IsSeparator(Cells(RULE_ROW))
  {
    ProbeRows();
    hide Cells, Strip;
  }

  /** The lines, by the mode after the title and the mode after reading it again, that
      tell the two apart. */
  function Probe(after: Mode, again: Mode): seq<string> {
    if after != again && after.comment && again.fence then [CLOSE, NAME_ROW, RULE_ROW]
    else if after != again then [NAME_ROW, RULE_ROW]
    else if after.comment then [CLOSE, RULE_ROW]
    else [RULE_ROW]
  }

  /** What the probe shows in each mode. */
  lemma {:induction false} ProbeSeen()
    ensures SeeAll([NAME_ROW, RULE_ROW], START) == [Some(NAME_ROW), Some(RULE_ROW)]
    ensures SeeAll([NAME_ROW, RULE_ROW], Mode(false, true)) == Hidden(2)
    ensures SeeAll([CLOSE, NAME_ROW, RULE_ROW], Mode(false, true)) == [None, Some(NAME_ROW), Some(RULE_ROW)]
    ensures SeeAll([CLOSE, RULE_ROW], Mode(false, true)) == [None, Some(RULE_ROW)]
    ensures SeeAll([RULE_ROW], START) == [Some(RULE_ROW)]
  {
    ProbePlain();
    CloseLine();
    hide See, PlainLine, SeeAll, NAME_ROW, RULE_ROW, CLOSE;
    PlainLinesSeen([NAME_ROW, RULE_ROW]);
    PlainLinesSeen([RULE_ROW]);
    SectionLines(CLOSE, [NAME_ROW, RULE_ROW], Mode(false, true));
    SectionLines(CLOSE, [RULE_ROW], Mode(false, true));
    assert [CLOSE] + [NAME_ROW, RULE_ROW] == [CLOSE, NAME_ROW, RULE_ROW] && [CLOSE] + [RULE_ROW] == [CLOSE, RULE_ROW];
  }

  lemma {:induction false} ProbeFenced(mode: Mode)
    requires mode.fence
    ensures SeeAll([NAME_ROW, RULE_ROW], mode) == Hidden(2) && SeeAll([CLOSE, NAME_ROW, RULE_ROW], mode) == Hidden(3)
  {
    ProbePlain();
    CloseLine();
    hide Fence, NAME_ROW, RULE_ROW, CLOSE;
    FencedAreHidden([NAME_ROW, RULE_ROW], mode);
    FencedAreHidden([CLOSE, NAME_ROW, RULE_ROW], mode);
  }

  lemma {:induction false} ProbeWhenLive(title: string, mode: Mode)
    requires See(title, mode).1 == START && See(title, START).1 != START
    ensures var lines := [title] + [NAME_ROW, RULE_ROW];
            TablesOf(SeeAll(lines, START)) == [] && TablesOf(SeeAll(lines, mode)) != []
  {
    hide See, SeeAll, TablesOf, NAME_ROW, RULE_ROW, CLOSE;
    SectionLines(title, [NAME_ROW, RULE_ROW], START);
    SectionLines(title, [NAME_ROW, RULE_ROW], mode);
    ProbeSeen();
    if See(title, START).1.fence { ProbeFenced(See(title, START).1); }
    ProbeMakesTable(See(title, mode).0);
    HiddenHaveNone(See(title, START).0, 2);
  }

  lemma {:induction false} ProbeWhenReopened(title: string, mode: Mode)
    requires See(title, mode).1 == Mode(false, true) && See(title, START).1 == START
    ensures var lines := [title] + [NAME_ROW, RULE_ROW];
            TablesOf(SeeAll(lines, START)) != [] && TablesOf(SeeAll(lines, mode)) == []
  {
    hide See, SeeAll, TablesOf, NAME_ROW, RULE_ROW, CLOSE;
    SectionLines(title, [NAME_ROW, RULE_ROW], START);
    SectionLines(title, [NAME_ROW, RULE_ROW], mode);
    ProbeSeen();
    ProbeMakesTable(See(title, START).0);
    HiddenHaveNone(See(title, mode).0, 2);
  }

  lemma {:induction false} ProbeWhenFenced(title: string, mode: Mode)
    requires See(title, mode).1 == Mode(false, true) && See(title, START).1.fence
    ensures var lines := [title] + [CLOSE, NAME_ROW, RULE_ROW];
            TablesOf(SeeAll(lines, START)) == [] && TablesOf(SeeAll(lines, mode)) != []
  {
    hide See, SeeAll, TablesOf, NAME_ROW, RULE_ROW, CLOSE;
    SectionLines(title, [CLOSE, NAME_ROW, RULE_ROW], START);
    SectionLines(title, [CLOSE, NAME_ROW, RULE_ROW], mode);
    ProbeSeen();
    ProbeFenced(See(title, START).1);
    ProbeMakesTableLater(See(title, mode).0);
    HiddenHaveNone(See(title, START).0, 3);
  }

  lemma {:induction false} ProbeWhenSame(title: string, mode: Mode)
    requires See(title, mode).1 == See(title, START).1 && !See(title, mode).1.fence
    requires Harmless(See(title, mode).0) && !Harmless(See(title, START).0)
    ensures var lines := [title] + if See(title, mode).1.comment then [CLOSE, RULE_ROW] else [RULE_ROW];
            TablesOf(SeeAll(lines, START)) != [] && TablesOf(SeeAll(lines, mode)) == []
  {
    hide See, SeeAll, TablesOf, NAME_ROW, RULE_ROW, CLOSE, Harmless;
    var rest := if See(title, mode).1.comment then [CLOSE, RULE_ROW] else [RULE_ROW];
    SectionLines(title, rest, START);
    SectionLines(title, rest, mode);
    ProbeSeen();
    RuleBelow(See(title, mode).0, See(title, mode).1.comment);
    RuleBelow(See(title, START).0, See(title, mode).1.comment);
  }

  /** When the two readings of the title line differ, there are lines below it that give
      different tables. */
  lemma {:induction false} ProbeTells(title: string, mode: Mode)
    requires !ReadsAlike(title, mode) && !See(title, mode).1.fence && Harmless(See(title, mode).0)
    ensures var lines := [title] + Probe(See(title, mode).1, See(title, START).1);
            TablesOf(SeeAll(lines, START)) != TablesOf(SeeAll(lines, mode))
  {
    hide See, SeeAll, TablesOf, NAME_ROW, RULE_ROW, CLOSE, Harmless;
    var after, again := See(title, mode).1, See(title, START).1;
    if after == again { ProbeWhenSame(title, mode); }
    else if after == START { ProbeWhenLive(title, mode); }
    else if again.fence { ProbeWhenFenced(title, mode); }
    else { ProbeWhenReopened(title, mode); }
  }

  // ---------- the title line of a document ----------

  /** The tables of the title section cut out and read again are the tables of the
      section as the document shows it. */
  predicate SectionAgrees(text: string) {
    HasTitle(text) && TablesOf(SeeAll(SplitLines(TitleSection(text)), START)) == TablesOf(SeenSection(text))
  }

  predicate TitleAlike(text: string)
    requires HasTitle(text)
  {
    ReadsAlike(TitleLine(text), TitleMode(text))
  }

  /** Joined and split again, lines show the same tables. */
  lemma {:induction false} LinesAgain(lines: seq<string>)
    requires lines != [] && forall l <- lines :: All(l, NotBreak)
    ensures TablesOf(SeeAll(SplitLines(Join(lines, '\n')), START)) == TablesOf(SeeAll(lines, START))
  {
    hide SplitLines, SeeAll, ModeAfter, ReadTables, Join, See, Strip;
    SplitJoined(lines);
    var n := |lines| - 1;
    if lines[n] == "" {
      SeenByPrefix(lines, n, START);
      var last := SeeAll(lines, START)[n];
      LastSeen(lines, START);
      EmptyLine(ModeAfter(lines[..n], START));
      StripNothing();
      TablesDropped(SeeAll(lines[..n], START), last, n);
      assert SeeAll(lines, START) == SeeAll(lines[..n], START) + [last];
    }
  }

  lemma {:induction false} TitleIsHarmless(line: string)
    requires IsTitle(line)
    ensures Harmless(Some(line))
  {
    hide Cells, IsSeparator;
    assert TrimStart(line, IsPySpace) == line;
  }

  lemma {:induction false} SeenAt(lines: seq<string>, i: nat, mode: Mode)
    requires i < |lines|
    ensures SeeAll(lines, mode)[i] == See(lines[i], ModeAfter(lines[..i], mode)).0
  {
    SeenByPrefix(lines, i + 1, mode);
    LastSeen(lines[..i + 1], mode);
    hide SeeAll, ModeAfter, See;
    assert lines[..i + 1][..i] == lines[..i];
    assert SeeAll(lines, mode)[..i + 1][i] == SeeAll(lines, mode)[i];
  }

  lemma {:induction false} ShownIsUnfenced(line: string, mode: Mode)
    requires See(line, mode).0.Some?
    ensures !See(line, mode).1.fence
  {
    hide Scrub, Fence, Strip;
  }

  /** The title line is shown where it stands, and starts no table. */
  lemma {:induction false} TitleShown(text: string)
    requires HasTitle(text)
    ensures !See(TitleLine(text), TitleMode(text)).1.fence && Harmless(See(TitleLine(text), TitleMode(text)).0)
  {
    var raw, from := SplitLines(text), TitleIndex(text);
    hide IsTitle, Harmless, SplitLines, SeeAll, ModeAfter, See, FirstSeen;
    SeenAt(raw, from, START);
    ShownIsUnfenced(raw[from], ModeAfter(raw[..from], START));
    TitleIsHarmless(SeeAll(raw, START)[from].value);
  }

  lemma {:induction false} Sliced(lines: seq<string>, from: nat, to: nat)
    requires from < to <= |lines|
    ensures lines[from..to] == [lines[from]] + lines[from + 1..to] && forall l <- lines[from..to] :: l in lines
  {
  }

  /** The two readings of the section of one document. */
  lemma {:induction false} TwoReadings(text: string)
    requires HasTitle(text)
    ensures SeenSection(text) == SeeAll([TitleLine(text)] + Below(text), TitleMode(text))
    ensures TablesOf(SeeAll(SplitLines(TitleSection(text)), START)) == TablesOf(SeeAll([TitleLine(text)] + Below(text), START))
  {
    hide SplitLines, SeeAll, ModeAfter, TablesOf, Join, FirstSeen, All;
    var raw := SplitLines(text);
    var from, to := TitleIndex(text), TitleEnd(SeeAll(raw, START));
    SlicedSection(raw, from, to);
    LinesAreUnbroken(text);
    Sliced(raw, from, to);
    LinesAgain(raw[from..to]);
  }

  /** The section cut out and read again shows the tables that the document shows,
      when its title line reads alike. */
  lemma {:induction false} SectionReadsAsSeen(text: string)
    requires HasTitle(text) && TitleAlike(text)
    ensures SectionAgrees(text)
  {
    hide SplitLines, SeeAll, TablesOf, TitleLine, TitleMode, Below, HasTitle, ReadsAlike, Harmless, SeenSection, TitleSection;
    TwoReadings(text);
    TitleShown(text);
    AlikeSame(TitleLine(text), Below(text), TitleMode(text));
  }

  // ---------- every document that goes on from the title line ----------

  /** The lines up to and including the title line. */
  function Head(text: string): seq<string>
    requires HasTitle(text)
  {
    SplitLines(text)[..TitleIndex(text) + 1]
  }

  /** The other document has the same lines up to and including the title line. */
  predicate SameToTitle(text: string, other: string)
    requires HasTitle(text)
  {
    Head(text) <= SplitLines(other)
  }

  lemma {:induction false} SamePrefix<T>(a: seq<T>, b: seq<T>, k: nat)
    requires 0 < k <= |a| && a[..k] <= b
    ensures k <= |b| && a[..k] == b[..k] && a[..k - 1] == b[..k - 1] && a[k - 1] == b[k - 1]
  {
    assert a[..k][..k - 1] == a[..k - 1] && b[..k][..k - 1] == b[..k - 1] && a[..k][k - 1] == b[..k][k - 1];
  }

  lemma {:induction false} SameTitle(text: string, other: string)
    requires HasTitle(text) && SameToTitle(text, other)
    ensures HasTitle(other) && TitleLine(other) == TitleLine(text) && TitleMode(other) == TitleMode(text)
    ensures TitleIndex(other) == TitleIndex(text)
  {
    hide SplitLines, SeeAll, ModeAfter, FirstSeen;
    var a, b := SplitLines(text), SplitLines(other);
    var k := TitleIndex(text) + 1;
    SamePrefix(a, b, k);
    SeenByPrefix(a, k, START);
    SeenByPrefix(b, k, START);
    FirstSeenByPrefix(SeeAll(a, START), SeeAll(b, START), k, 0, IsTitle);
  }

  lemma {:induction false} ProbeIsUnbroken(after: Mode, again: Mode)
    ensures forall l <- Probe(after, again) :: All(l, NotBreak) && l != ""
  {
    ProbeRows();
    assert NAME_ROW != "" && RULE_ROW != "" && CLOSE != "";
    hide All, NAME_ROW, RULE_ROW, CLOSE, PipeRow, IsSeparator, Cells, Strip, IsHeading;
  }

  predicate NoHeadings(lines: seq<Option<string>>) {
    forall i | 0 <= i < |lines| && lines[i].Some? :: !IsHeading(lines[i].value)
  }

  lemma {:induction false} ProbeHasNoHeading(after: Mode, again: Mode)
    requires !after.fence
    ensures NoHeadings(SeeAll(Probe(after, again), after))
  {
    ProbeRows();
    ProbeSeen();
    hide SeeAll, IsHeading, NAME_ROW, RULE_ROW, CLOSE, PipeRow, IsSeparator, Cells, Strip, All;
    assert after == START || after == Mode(false, true);
  }

  /** The probe for the title line of this document. */
  function ProbeFor(text: string): seq<string>
    requires HasTitle(text)
  {
    Probe(See(TitleLine(text), TitleMode(text)).1, See(TitleLine(text), START).1)
  }

  /** The document that goes on with the probe below its title line. */
  function Probed(text: string): string
    requires HasTitle(text)
  {
    Join(Head(text) + ProbeFor(text), '\n')
  }

  lemma {:induction false} SplitWhole(head: seq<string>, rest: seq<string>)
    requires (forall l <- head :: All(l, NotBreak)) && rest != [] && forall l <- rest :: All(l, NotBreak) && l != ""
    ensures SplitLines(Join(head + rest, '\n')) == head + rest
  {
    hide SplitLines, Join, All;
    var lines := head + rest;
    assert lines[|lines| - 1] == rest[|rest| - 1] && rest[|rest| - 1] in rest;
    SplitJoined(lines);
  }

  lemma {:induction false} HeadIsUnbroken(text: string)
    requires HasTitle(text)
    ensures forall l <- Head(text) :: All(l, NotBreak)
  {
    LinesAreUnbroken(text);
    hide SplitLines, All, SeeAll, FirstSeen;
    var raw := SplitLines(text);
    assert forall l <- raw[..TitleIndex(text) + 1] :: l in raw;
  }

  lemma {:induction false} ProbedLines(text: string)
    requires HasTitle(text)
    ensures SplitLines(Probed(text)) == Head(text) + ProbeFor(text) && SameToTitle(text, Probed(text))
  {
    HeadIsUnbroken(text);
    ProbeIsUnbroken(See(TitleLine(text), TitleMode(text)).1, See(TitleLine(text), START).1);
    hide SplitLines, Join, All, Head, See, TitleLine, TitleMode, HasTitle;
    SplitWhole(Head(text), ProbeFor(text));
  }

  /** No heading below the title line ends its section. */
  lemma {:induction false} NoHeadingNoEnd(head: seq<Option<string>>, rest: seq<Option<string>>)
    requires TitleStart(head + rest) == |head| - 1 && NoHeadings(rest)
    ensures TitleEnd(head + rest) == |head + rest|
  {
    hide IsHeading, IsTitle;
    var seen := head + rest;
    assert forall i | |head| <= i < |seen| :: seen[i] == rest[i - |head|];
  }

  lemma {:induction false} ModeNext(lines: seq<string>, i: nat)
    requires i < |lines|
    ensures ModeAfter(lines[..i + 1], START) == See(lines[i], ModeAfter(lines[..i], START)).1
  {
    hide See;
    assert lines[..i + 1][..i] == lines[..i] && lines[..i + 1] != [];
  }

  lemma {:induction false} HeadMode(text: string)
    requires HasTitle(text)
    ensures ModeAfter(Head(text), START) == See(TitleLine(text), TitleMode(text)).1
    ensures |Head(text)| == TitleIndex(text) + 1
  {
    hide SplitLines, SeeAll, FirstSeen, See, ModeAfter;
    ModeNext(SplitLines(text), TitleIndex(text));
  }

  /** The probe is all that is below the title line. */
  lemma {:induction false} ProbedEnd(text: string)
    requires HasTitle(text) && HasTitle(Probed(text)) && TitleIndex(Probed(text)) == TitleIndex(text)
    ensures TitleEnd(SeeAll(SplitLines(Probed(text)), START)) == |SplitLines(Probed(text))|
  {
    TitleShown(text);
    ProbedLines(text);
    HeadMode(text);
    var after, again := See(TitleLine(text), TitleMode(text)).1, See(TitleLine(text), START).1;
    ProbeHasNoHeading(after, again);
    SeeConcat(Head(text), ProbeFor(text), START);
    hide SplitLines, SeeAll, ModeAfter, TitleStart, TitleEnd, See, Harmless, Probe, Probed, NoHeadings, Head, TitleLine, TitleMode;
    NoHeadingNoEnd(SeeAll(Head(text), START), SeeAll(ProbeFor(text), after));
  }

  lemma {:induction false} Appended<T>(head: seq<T>, rest: seq<T>)
    ensures (head + rest)[|head|..|head + rest|] == rest
  {
  }

  lemma {:induction false} ProbedBelow(text: string)
    requires HasTitle(text) && HasTitle(Probed(text)) && TitleIndex(Probed(text)) == TitleIndex(text)
    ensures Below(Probed(text)) == ProbeFor(text)
  {
    hide SplitLines, SeeAll, TitleIndex, TitleStart, TitleEnd, Probed, Head, ProbeFor, HasTitle, SameToTitle, See, ModeAfter, TitleLine, TitleMode;
    ProbedEnd(text);
    ProbedLines(text);
    HeadMode(text);
    Appended(Head(text), ProbeFor(text));
  }

  /** When the title line does not read alike, the document that goes on with the
      probe has other tables in the section read again. */
  lemma {:induction false} ProbedDisagrees(text: string)
    requires HasTitle(text) && !TitleAlike(text)
    ensures SameToTitle(text, Probed(text)) && !SectionAgrees(Probed(text))
  {
    hide SplitLines, SeeAll, TablesOf, TitleLine, TitleMode, TitleIndex, HasTitle, Below, See, Harmless, Probe, Probed, ReadsAlike, SeenSection, TitleSection, SameToTitle;
    TitleShown(text);
    ProbedLines(text);
    SameTitle(text, Probed(text));
    ProbedBelow(text);
    TwoReadings(Probed(text));
    ProbeTells(TitleLine(text), TitleMode(text));
  }

  /** The title line reads alike if and only if, however the document goes on below it,
      the section read again has the tables that the document shows. */
  lemma {:induction false} TitleAlikeExact(text: string)
    requires HasTitle(text)
    ensures TitleAlike(text) <==> forall other: string | SameToTitle(text, other) :: SectionAgrees(other)
  {
    hide SectionAgrees, SameToTitle, HasTitle, TitleLine, TitleMode, TitleIndex, ReadsAlike;
    if TitleAlike(text) {
      forall other: string | SameToTitle(text, other) ensures SectionAgrees(other) {
        SameTitle(text, other);
        SectionReadsAsSeen(other);
      }
    } else {
      ProbedDisagrees(text);
    }
  }

  // ---------- what is traced ----------

  /** The lines that carry evidence, as the document shows them. */
  function LivePart(text: string): seq<Option<string>> {
    if HasTitle(text) then SeenSection(text) else SeeAll(SplitLines(text), START)
  }

  /** A requirement is traced if and only if a reader sees a whole row for it, in
      every document that has no title or whose title line reads alike. */
  lemma {:induction false} TracedExactly(id: string, text: string, lower: string -> string)
    requires HasTitle(text) ==> TitleAlike(text)
    ensures Traced(id, text, lower) <==> ShowsRow(LivePart(text), id, lower)
  {
    hide SplitLines, SeeAll, ReadTables, FirstSeen, SeenSection, ShowsRow, HasWholeRow, FirstEvidence, Join, TitleAlike;
    if HasTitle(text) { SectionReadsAsSeen(text); }
    WholeRowExact(LivePart(text), id, lower);
  }

  // ---------- a comment that ends on the title line ----------

  const HIDING := "<!--"
  const TITLE_IN_COMMENT := "<!--># T <!-->"

  lemma {:induction false} TitleOpened()
    ensures Scrub(TITLE_IN_COMMENT, true) == ("# T ", true)
  {
    var s := TITLE_IN_COMMENT;
    Elsewhere(s, CLOSE);
    MarkersOfTitle();
    assert s[0..] == s;
    TitleRest();
    hide Scrub, OccursAt;
    JumpOpen(s, 0, 2);
  }

  lemma {:induction false} TitleRest()
    ensures Scrub(TITLE_IN_COMMENT[5..], false) == ("# T ", true)
  {
    var s := TITLE_IN_COMMENT;
    Elsewhere(s, OPEN);
    MarkersOfTitle();
    assert s[13..] == ">" && s[5..9] == "# T ";
    ScrubClosed();
    hide Scrub, OccursAt;
    JumpPlain(s, 5, 9);
    assert "# T " + "" == "# T ";
  }

  lemma {:induction false} TitleClosed()
    ensures Scrub(TITLE_IN_COMMENT, false) == ("", false)
  {
    var s := TITLE_IN_COMMENT;
    MarkersOfTitle();
    TitleTail();
    assert s[0..] == s && s[0..0] == "";
    hide Scrub, OccursAt;
    JumpPlain(s, 0, 0);
  }

  lemma {:induction false} TitleTail()
    ensures Scrub(TITLE_IN_COMMENT[4..], true) == ("", false)
  {
    var s := TITLE_IN_COMMENT;
    Elsewhere(s, CLOSE);
    MarkersOfTitle();
    ScrubClosed();
    assert s[14..] == "";
    hide Scrub, OccursAt;
    JumpOpen(s, 4, 11);
  }

  lemma {:induction false} HidingLine()
    ensures Scrub(HIDING, false) == ("", true)
  {
  }

  /** A part does not start where its first character is not. */
  lemma {:induction false} Elsewhere(s: string, part: string)
    requires part != ""
    ensures forall i | 0 <= i < |s| && s[i] != part[0] :: !OccursAt(s, part, i)
  {
  }

  lemma {:induction false} MarkersOfTitle()
    ensures var s := TITLE_IN_COMMENT;
            OccursAt(s, CLOSE, 2) && OccursAt(s, OPEN, 9) && OccursAt(s, OPEN, 0) && OccursAt(s, CLOSE, 11)
    ensures OccursAt(HIDING, OPEN, 0)
  {
  }

  lemma {:induction false} ScrubClosed()
    ensures Scrub(">", true) == ("", true) && Scrub("", true) == ("", true) && Scrub("", false) == ("", false)
  {
  }

  lemma {:induction false} PlainLineSeen(line: string)
    requires PlainLine(line)
    ensures See(line, START) == (Some(line), START)
    ensures See(line, Mode(false, true)) == (None, Mode(false, true))
  {
    NeverOpened(line, 0);
    NeverClosed(line, 0);
    assert line[0..] == line;
    StripNothing();
    hide Scrub;
    assert !Fence("");
  }

  function Hidden(n: nat): seq<Option<string>> { seq(n, _ => None) }

  function Shown(lines: seq<string>): seq<Option<string>> {
    seq(|lines|, i requires 0 <= i < |lines| => Some(lines[i]))
  }

  lemma {:induction false} PlainLinesSeen(lines: seq<string>)
    requires forall l <- lines :: PlainLine(l)
    ensures ModeAfter(lines, START) == START && ModeAfter(lines, Mode(false, true)) == Mode(false, true)
    ensures SeeAll(lines, START) == Shown(lines) && SeeAll(lines, Mode(false, true)) == Hidden(|lines|)
  {
    hide See, PlainLine;
    if lines != [] {
      var n := |lines| - 1;
      assert lines[n] in lines;
      PlainLinesSeen(lines[..n]);
      PlainLineSeen(lines[n]);
    }
  }

  /** Below these two lines every plain line is commented out in the document, and
      every one of them is live when the section is read again. */
  lemma {:induction false} CommentedRowsCount(body: seq<string>)
    requires forall l <- body :: PlainLine(l)
    ensures var lines := [HIDING, TITLE_IN_COMMENT] + body;
            && SeeAll(lines, START) == [None, Some("# T ")] + Hidden(|body|)
            && SeeAll(lines[1..], START) == [None] + Shown(body)
  {
    TitleSeen();
    hide *;
    TwoLinesAndPlain(HIDING, TITLE_IN_COMMENT, "# T ", body);
  }

  lemma {:induction false} TwoLinesAndPlain(h: string, t: string, shown: string, body: seq<string>)
    requires See(h, START) == (None, Mode(false, true))
    requires See(t, Mode(false, true)) == (Some(shown), Mode(false, true)) && See(t, START) == (None, START)
    requires forall l <- body :: PlainLine(l)
    ensures SeeAll([h, t] + body, START) == [None, Some(shown)] + Hidden(|body|)
    ensures SeeAll(([h, t] + body)[1..], START) == [None] + Shown(body)
  {
    hide *;
    PlainLinesSeen(body);
    OneLineAndMore(t, body);
    TwoLines(h, t, shown);
    SeeConcat([h, t], body, START);
    WithoutFirst(h, t, body);
  }

  lemma {:induction false} WithoutFirst(h: string, t: string, body: seq<string>)
    ensures ([h, t] + body)[1..] == [t] + body
  {
  }

  lemma {:induction false} OneLineAndMore(t: string, body: seq<string>)
    requires See(t, START) == (None, START)
    ensures SeeAll([t] + body, START) == [None] + SeeAll(body, START)
  {
    hide *;
    OneLine([t], START);
    SeeConcat([t], body, START);
  }

  lemma {:induction false} TwoLines(h: string, t: string, shown: string)
    requires See(h, START) == (None, Mode(false, true)) && See(t, Mode(false, true)) == (Some(shown), Mode(false, true))
    ensures SeeAll([h, t], START) == [None, Some(shown)] && ModeAfter([h, t], START) == Mode(false, true)
  {
  }

  lemma {:induction false} TitleSeen()
    ensures See(HIDING, START) == (None, Mode(false, true))
    ensures See(TITLE_IN_COMMENT, Mode(false, true)) == (Some("# T "), Mode(false, true))
    ensures See(TITLE_IN_COMMENT, START) == (None, START)
  {
    TitleOpened();
    TitleClosed();
    HidingLine();
    StripNothing();
    TrimPadded("", "# T", " ", IsPySpace);
    assert "" + "# T" + " " == "# T ";
    hide Scrub;
    assert !Fence("") && !Fence("# T ");
  }

  // ---------- a commented row that is traced ----------

  const HEADER_ROW := "|Req ID|"

  /** An id as requirement headings declare it. */
  predicate IsRequirement(id: string) {
    |id| >= 6 && "FR-" <= id && All(id[3..], IsDigit)
  }

  /** The header, the rule and the row of the id, all commented out. */
  function Commented(id: string): seq<string> {
    [HIDING, TITLE_IN_COMMENT, HEADER_ROW, RULE_ROW, "|" + id + "|"]
  }

  predicate IsIdChar(c: char) { c == 'F' || c == 'R' || c == '-' || IsDigit(c) }

  lemma {:induction false} RequirementChars(id: string)
    requires IsRequirement(id)
    ensures All(id, IsIdChar) && id[0] == 'F'
  {
    forall i | 0 <= i < |id| ensures IsIdChar(id[i]) {
      if i >= 3 { assert id[3..][i - 3] == id[i]; }
    }
  }

  lemma {:induction false} IdIsCell(id: string)
    requires All(id, IsIdChar) && id != "" && id[0] == 'F'
    ensures IsCell(id) && !All(id, IsRule) && '<' !in id && '>' !in id && All(id, NotBreak)
  {
    TrimPadded("", id, "", IsPySpace);
    assert "" + id + "" == id && !IsRule(id[0]);
    hide Strip;
  }

  /** The row of an id. */
  lemma {:induction false} IdRow(id: string)
    requires IsRequirement(id)
    ensures IsCell(id) && !All(id, IsRule) && PlainLine("|" + id + "|") && All("|" + id + "|", NotBreak)
  {
    RequirementChars(id);
    IdIsCell(id);
    hide IsCell, All, PlainLine;
    PlainRow(id);
  }

  lemma {:induction false} HeaderName()
    ensures IsCell("Req ID") && HEADER_ROW == "|" + "Req ID" + "|" && !All("Req ID", IsRule)
    ensures '<' !in "Req ID" && '>' !in "Req ID" && All("Req ID", NotBreak)
  {
    TrimPadded("", "Req ID", "", IsPySpace);
    assert "" + "Req ID" + "" == "Req ID" && !IsRule("Req ID"[0]);
    hide Strip;
  }

  lemma {:induction false} HeaderRow()
    ensures IsCell("Req ID") && HEADER_ROW == "|" + "Req ID" + "|" && !All("Req ID", IsRule)
    ensures PlainLine(HEADER_ROW) && All(HEADER_ROW, NotBreak)
  {
    HeaderName();
    hide IsCell, All, PlainLine, HEADER_ROW;
    PlainRow("Req ID");
  }

  /** The lines of a table with one row, below a line that is hidden. */
  function OneRowTable(head: string, row: string): seq<Option<string>> {
    [None, Some(head), Some(RULE_ROW), Some(row)]
  }

  lemma {:induction false} OneRowLines(head: string, row: string)
    requires PipeRow(head) && !IsSeparator(Cells(head)) && PipeRow(row) && !IsSeparator(Cells(row))
    ensures var lines := OneRowTable(head, row);
            && HeaderAt(lines, 1) && KeepsOpen(lines, 2) && !HeaderAt(lines, 2) && CellLine(lines, 3) && !HeaderAt(lines, 3)
  {
    RuleIsRule();
    ProbeRows();
    var lines := OneRowTable(head, row);
    hide PipeRow, Cells, IsSeparator, Strip, RULE_ROW;
    assert Following(lines, 2) == RULE_ROW && Following(lines, 4) == "";
    hide Following;
  }

  lemma {:induction false} OneRowCells(head: string, id: string)
    requires IsCell(head) && !All(head, IsRule) && IsCell(id) && !All(id, IsRule)
    ensures var lines := OneRowTable("|" + head + "|", "|" + id + "|");
            && CellsAt(lines, 1) == [head] && CellsAt(lines, 3) == [id] && Strip(head) == head && id != ""
            && HeaderAt(lines, 1) && InTable(lines, 1, 3) && !HeaderAt(lines, 2) && CellLine(lines, 3) && !HeaderAt(lines, 3)
  {
    var lines := OneRowTable("|" + head + "|", "|" + id + "|");
    OneCell(head);
    OneCell(id);
    assert head in [head] && id in [id];
    hide Cells, Strip, PipeRow, All, RULE_ROW, HeaderAt, CellLine, KeepsOpen;
    OneRowLines("|" + head + "|", "|" + id + "|");
  }

  /** A header, its rule and one row of an id show a whole row. */
  lemma {:induction false} ThreeRows(head: string, id: string, lower: string -> string)
    requires IsCell(head) && !All(head, IsRule) && lower(head) == "req id"
    requires IsCell(id) && !All(id, IsRule)
    ensures ShowsRow(OneRowTable("|" + head + "|", "|" + id + "|"), id, lower)
  {
    var lines := OneRowTable("|" + head + "|", "|" + id + "|");
    OneRowCells(head, id);
    NoHeaderHidden(lines);
    assert |lines| == 4;
    hide Cells, Strip, PipeRow, All, RULE_ROW, HeaderAt, CellLine, KeepsOpen, CellsAt, InTable, OneRowTable, IsCell;
    assert EvidenceAt(lines, 1, lower);
    assert FirstRowOf(lines, 1, 3, id);
    hide EvidenceAt, FirstRowOf;
    assert WholeRowAt(lines, 1, 3, id, lower);
  }

  lemma {:induction false} NoHeaderHidden(lines: seq<Option<string>>)
    requires |lines| > 0 && lines[0] == None
    ensures !HeaderAt(lines, 0)
  {
  }

  lemma {:induction false} FixedLines()
    ensures All(HIDING, NotBreak) && HIDING != "" && All(TITLE_IN_COMMENT, NotBreak) && TITLE_IN_COMMENT != ""
  {
  }

  lemma {:induction false} FiveLines(h: string, t: string, body: seq<string>, shown: string)
    requires |body| == 3
    requires SeeAll([h, t] + body, START) == [None, Some(shown)] + Hidden(3)
    requires SeeAll(([h, t] + body)[1..], START) == [None] + Shown(body)
    ensures var lines := [h, t, body[0], body[1], body[2]];
            && SeeAll(lines, START) == [None, Some(shown), None, None, None]
            && SeeAll(lines[1..], START) == [None, Some(body[0]), Some(body[1]), Some(body[2])]
  {
    hide SeeAll;
    assert [h, t] + body == [h, t, body[0], body[1], body[2]];
    assert [None, Some(shown)] + Hidden(3) == [None, Some(shown), None, None, None];
    assert [None] + Shown(body) == [None, Some(body[0]), Some(body[1]), Some(body[2])];
  }

  lemma {:induction false} CommentedLines(id: string)
    requires IsRequirement(id)
    ensures SeeAll(Commented(id), START) == [None, Some("# T "), None, None, None]
    ensures SeeAll(Commented(id)[1..], START) == [None, Some(HEADER_ROW), Some(RULE_ROW), Some("|" + id + "|")]
  {
    var body := [HEADER_ROW, RULE_ROW, "|" + id + "|"];
    IdRow(id);
    HeaderRow();
    ProbePlain();
    hide SeeAll, PlainLine, All, IsCell, HIDING, TITLE_IN_COMMENT, HEADER_ROW, RULE_ROW, Hidden, Shown;
    CommentedRowsCount(body);
    FiveLines(HIDING, TITLE_IN_COMMENT, body, "# T ");
  }

  lemma {:induction false} AllOfFive(a: string, b: string, c: string, d: string, e: string)
    requires All(a, NotBreak) && All(b, NotBreak) && All(c, NotBreak) && All(d, NotBreak) && All(e, NotBreak)
    ensures forall l <- [a, b, c, d, e] :: All(l, NotBreak)
  {
    hide All;
  }

  lemma {:induction false} CommentedUnbroken(id: string)
    requires IsRequirement(id)
    ensures forall l <- Commented(id) :: All(l, NotBreak)
    ensures Commented(id)[4] != ""
  {
    hide All, PlainLine, IsCell, HIDING, TITLE_IN_COMMENT, HEADER_ROW, RULE_ROW, PipeRow, Cells, Strip, IsHeading, IsSeparator;
    IdRow(id);
    HeaderRow();
    ProbeRows();
    FixedLines();
    AllOfFive(HIDING, TITLE_IN_COMMENT, HEADER_ROW, RULE_ROW, "|" + id + "|");
  }

  lemma {:induction false} TitleAlone(line: string)
    requires IsTitle(line)
    ensures var seen := [None, Some(line), None, None, None];
            TitleStart(seen) == 1 && TitleEnd(seen) == 5 && seen[1..5] == [Some(line), None, None, None]
  {
    hide IsTitle, IsHeading;
    var seen := [None, Some(line), None, None, None];
    assert FirstSeen(seen, 1, IsTitle) == 1;
    assert FirstSeen(seen, 4, IsHeading) == FirstSeen(seen, 5, IsHeading) == 5;
    assert FirstSeen(seen, 2, IsHeading) == FirstSeen(seen, 3, IsHeading) == 5;
  }

  lemma {:induction false} NothingShown(line: string, id: string, lower: string -> string)
    ensures !ShowsRow([Some(line), None, None, None], id, lower)
  {
    var lines := [Some(line), None, None, None];
    HiddenHaveNone(Some(line), 3);
    assert [Some(line)] + Hidden(3) == lines;
    hide ReadTables, ShowsRow, HasWholeRow;
    WholeRowExact(lines, id, lower);
  }

  /** Lines of which the document shows the second, a title, and nothing else. */
  lemma {:induction false} OnlyTitleShown(lines: seq<string>, seen: seq<Option<string>>)
    requires |lines| == 5 && (forall l <- lines :: All(l, NotBreak)) && lines[4] != ""
    requires SeeAll(lines, START) == seen && TitleStart(seen) == 1 && TitleEnd(seen) == 5
    ensures var text := Join(lines, '\n');
            HasTitle(text) && SeenSection(text) == seen[1..5] && SplitLines(TitleSection(text)) == lines[1..]
  {
    hide SeeAll, SplitLines, Join, All, TitleStart, TitleEnd;
    SplitJoined(lines);
    Sliced(lines, 1, 5);
    assert lines[1..5] == lines[1..] && lines[1..][3] == lines[4];
    SplitJoined(lines[1..]);
  }

  /** For every requirement there is a document in which it is traced by a row that is
      commented out: a reader sees the title and nothing else. */
  lemma {:induction false} CommentedRowIsTraced(id: string, lower: string -> string)
    requires IsRequirement(id) && lower("Req ID") == "req id"
    ensures var text := Join(Commented(id), '\n');
            && HasTitle(text) && SeenSection(text) == [Some("# T "), None, None, None]
            && !ShowsRow(SeenSection(text), id, lower) && Traced(id, text, lower)
  {
    CommentedLines(id);
    CommentedUnbroken(id);
    IdRow(id);
    HeaderRow();
    hide SeeAll, SplitLines, Join, Commented, ShowsRow, ReadTables, HasWholeRow, All, PlainLine, NotBreak, FirstSeen, FirstEvidence, RULE_ROW, IsCell, SeenSection, TitleSection;
    var lines := Commented(id);
    assert |lines| == |SeeAll(lines, START)| == 5;
    TitleAlone("# T ");
    OnlyTitleShown(lines, [None, Some("# T "), None, None, None]);
    NothingShown("# T ", id, lower);
    ThreeRows("Req ID", id, lower);
    WholeRowExact(SeeAll(lines[1..], START), id, lower);
  }
}
