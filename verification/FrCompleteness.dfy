/** The requirement traceability gate, scripts/validate_fr_completeness.py: what a
    reader of a Markdown document sees, its tables, and the rows that count as
    evidence. */
module FrCompleteness {
  import opened Text

  // ---------- comments ----------

  /** The simple form: one character at a time, whether or not a comment is open. */
  function Scrub(s: string, open: bool): (string, bool)
    decreases |s|
  {
    if s == "" then ("", open)
    else if open then if CLOSE <= s then Scrub(s[3..], false) else Scrub(s[1..], true)
    else if OPEN <= s then Scrub(s[4..], true)
    else var rest := Scrub(s[1..], false); ([s[0]] + rest.0, rest.1)
  }

  lemma {:induction false} ScrubOpen(s: string, n: nat)
    requires n <= |s| && forall i | 0 <= i < n :: !(CLOSE <= s[i..])
    ensures Scrub(s, true) == Scrub(s[n..], true)
    decreases n
  {
    if n > 0 {
      assert s[0..] == s;
      forall i | 0 <= i < n - 1 ensures !(CLOSE <= s[1..][i..]) { assert s[1..][i..] == s[i + 1..]; }
      ScrubOpen(s[1..], n - 1);
      assert s[1..][n - 1..] == s[n..];
    }
  }

  lemma {:induction false} PlainStep(s: string)
    requires s != "" && !(OPEN <= s)
    ensures Scrub(s, false) == ([s[0]] + Scrub(s[1..], false).0, Scrub(s[1..], false).1)
  {
  }

  lemma {:induction false} ScrubPlain(s: string, n: nat)
    requires n <= |s| && forall i | 0 <= i < n :: !(OPEN <= s[i..])
    ensures Scrub(s, false).0 == s[..n] + Scrub(s[n..], false).0
    ensures Scrub(s, false).1 == Scrub(s[n..], false).1
    decreases n
  {
    hide Scrub;
    assert s[0..] == s;
    var rest := Scrub(s[n..], false).0;
    if n == 0 {
      assert s[..0] + rest == rest;
    } else {
      PlainStep(s);
      forall i | 0 <= i < n - 1 ensures !(OPEN <= s[1..][i..]) { assert s[1..][i..] == s[i + 1..]; }
      ScrubPlain(s[1..], n - 1);
      assert s[1..][n - 1..] == s[n..];
      assert [s[0]] + (s[1..][..n - 1] + rest) == s[..n] + rest;
    }
  }

  lemma {:induction false} NoOccurrence(s: string, part: string, from: nat, to: nat)
    requires from <= to <= |s| && part != "" && forall i | from <= i < to :: !OccursAt(s, part, i)
    ensures forall i | 0 <= i < to - from :: !(part <= s[from..][i..])
  {
    forall i | 0 <= i < to - from ensures !(part <= s[from..][i..]) {
      assert s[from..][i..] == s[from + i..];
      if part <= s[from + i..] {
        assert s[from + i..from + i + |part|] == s[from + i..][..|part|];
        assert OccursAt(s, part, from + i);
        assert false;
      }
    }
  }

  lemma {:induction false} JumpOpen(s: string, from: nat, end: nat)
    requires from <= end <= |s| && OccursAt(s, CLOSE, end)
    requires forall i | from <= i < end :: !OccursAt(s, CLOSE, i)
    ensures Scrub(s[from..], true) == Scrub(s[end + 3..], false)
  {
    NoOccurrence(s, CLOSE, from, end);
    ScrubOpen(s[from..], end - from);
    assert s[from..][end - from..] == s[end..];
    assert s[end..][..3] == s[end..end + 3] && s[end..][3..] == s[end + 3..];
  }

  lemma {:induction false} NeverClosed(s: string, from: nat)
    requires from <= |s| && forall i | from <= i <= |s| :: !OccursAt(s, CLOSE, i)
    ensures Scrub(s[from..], true) == ("", true)
  {
    NoOccurrence(s, CLOSE, from, |s|);
    ScrubOpen(s[from..], |s| - from);
    assert s[from..][|s| - from..] == "";
  }

  lemma {:induction false} JumpPlain(s: string, from: nat, start: nat)
    requires from <= start <= |s| && OccursAt(s, OPEN, start)
    requires forall i | from <= i < start :: !OccursAt(s, OPEN, i)
    ensures Scrub(s[from..], false).0 == s[from..start] + Scrub(s[start + 4..], true).0
    ensures Scrub(s[from..], false).1 == Scrub(s[start + 4..], true).1
  {
    NoOccurrence(s, OPEN, from, start);
    ScrubPlain(s[from..], start - from);
    assert s[from..][start - from..] == s[start..] && s[from..][..start - from] == s[from..start];
    assert s[start..][..4] == s[start..start + 4] && s[start..][4..] == s[start + 4..];
  }

  lemma {:induction false} NeverOpened(s: string, from: nat)
    requires from <= |s| && forall i | from <= i <= |s| :: !OccursAt(s, OPEN, i)
    ensures Scrub(s[from..], false) == (s[from..], false)
  {
    NoOccurrence(s, OPEN, from, |s|);
    ScrubPlain(s[from..], |s| - from);
    assert s[from..][|s| - from..] == "" && s[from..][..|s| - from] + "" == s[from..];
  }

  /** `_strip_comments`, which jumps from one marker to the next. */
  method StripComments(line: string, inComment: bool) returns (visible: string, open: bool)
    ensures (visible, open) == Scrub(line, inComment)
  {
    hide Scrub;
    visible, open := "", inComment;
    var index := 0;
    assert line[0..] == line && "" + Scrub(line, inComment).0 == Scrub(line, inComment).0;
    while index < |line|
      invariant index <= |line|
      invariant Scrub(line, inComment).0 == visible + Scrub(line[index..], open).0
      invariant Scrub(line, inComment).1 == Scrub(line[index..], open).1
    {
      if open {
        var end := Find(line, CLOSE, index);
        if end == None {
          NeverClosed(line, index);
          assert visible + "" == visible;
          return;
        }
        JumpOpen(line, index, end.value);
        index := end.value + 3;
        open := false;
        continue;
      }
      var start := Find(line, OPEN, index);
      if start == None {
        NeverOpened(line, index);
        return visible + line[index..], open;
      }
      JumpPlain(line, index, start.value);
      assert visible + (line[index..start.value] + Scrub(line[start.value + 4..], true).0)
          == visible + line[index..start.value] + Scrub(line[start.value + 4..], true).0;
      visible := visible + line[index..start.value];
      index := start.value + 4;
      open := true;
    }
    NothingLeft(open);
    assert line[index..] == "" && visible + "" == visible;
  }

  lemma {:induction false} NothingLeft(open: bool)
    ensures Scrub("", open) == ("", open)
  {
  }

  // ---------- visible lines ----------

  predicate Fence(line: string) {
    var s := Strip(line);
    "```" <= s || "~~~" <= s
  }

  /** Whether a fence and a comment are open. */
  datatype Mode = Mode(fence: bool, comment: bool)

  /** One line: what is seen of it, `None` when it is hidden, and the mode after. */
  function See(line: string, mode: Mode): (Option<string>, Mode) {
    if mode.fence then (None, mode.(fence := !Fence(line))) else
    var (visible, open) := Scrub(line, mode.comment);
    if Fence(visible) then (None, Mode(true, open))
    else (if visible != line && Strip(visible) == "" then None else Some(visible), Mode(false, open))
  }

  const START := Mode(false, false)

  /** The mode after these lines. */
  function ModeAfter(lines: seq<string>, mode: Mode): Mode {
    if lines == [] then mode else See(lines[|lines| - 1], ModeAfter(lines[..|lines| - 1], mode)).1
  }

  function SeeAll(lines: seq<string>, mode: Mode): (r: seq<Option<string>>)
    ensures |r| == |lines|
  {
    if lines == [] then [] else
    var n := |lines| - 1;
    SeeAll(lines[..n], mode) + [See(lines[n], ModeAfter(lines[..n], mode)).0]
  }

  method VisibleLines(text: string) returns (lines: seq<Option<string>>)
    ensures lines == SeeAll(SplitLines(text), START)
  {
    hide Fence, Scrub, Strip, SplitLines;
    var raw := SplitLines(text);
    lines := [];
    var inFence, inComment := false, false;
    for i := 0 to |raw|
      invariant lines == SeeAll(raw[..i], START)
      invariant Mode(inFence, inComment) == ModeAfter(raw[..i], START)
    {
      var line := raw[i];
      assert raw[..i + 1][..i] == raw[..i];
      if inFence {
        if Fence(line) { inFence := false; }
        lines := lines + [None];
        continue;
      }
      var visible;
      visible, inComment := StripComments(line, inComment);
      if Fence(visible) {
        inFence := true;
        lines := lines + [None];
        continue;
      }
      lines := lines + [if visible != line && Strip(visible) == "" then None else Some(visible)];
    }
    assert raw[..|raw|] == raw;
  }

  // ---------- cells ----------

  /** `line.split` at the pipes that no backslash stands before. */
  function SplitCells(s: string, escaped: bool): (r: seq<string>)
    ensures r != []
  {
    if s == "" then [""]
    else
      var rest := SplitCells(s[1..], s[0] == '\\');
      if s[0] == '|' && !escaped then [""] + rest else [[s[0]] + rest[0]] + rest[1..]
  }

  function Unescape(s: string): string
    decreases |s|
  {
    if "\\|" <= s then "|" + Unescape(s[2..])
    else if s == "" then "" else [s[0]] + Unescape(s[1..])
  }

  function Cells(line: string): seq<string> {
    var a := SplitCells(Strip(line), false);
    var b := if a != [] && Strip(a[0]) == "" then a[1..] else a;
    var c := if b != [] && Strip(b[|b| - 1]) == "" then b[..|b| - 1] else b;
    seq(|c|, i requires 0 <= i < |c| => Unescape(Strip(c[i])))
  }

  predicate IsRule(c: char) { c == '-' || c == ':' }

  predicate IsSeparator(cells: seq<string>) {
    cells != [] && forall cell <- cells :: cell != "" && All(cell, IsRule)
  }

  // ---------- tables ----------

  datatype Row = Row(columns: nat, cells: seq<string>)

  datatype Table = Table(header: seq<string>, rows: map<string, Row>)

  predicate PipeRow(line: string) { "|" <= Strip(line) }

  /** The next line that is seen, stripped, or "". */
  function Following(lines: seq<Option<string>>, i: nat): string
    requires i <= |lines|
    decreases |lines| - i
  {
    if i == |lines| then "" else if lines[i].Some? then Strip(lines[i].value) else Following(lines, i + 1)
  }

  /** The tables so far, and whether the last one is still open. */
  datatype Reading = Reading(found: seq<Table>, open: bool)

  function AddRow(t: Table, cells: seq<string>): Table
    requires cells != []
  {
    if cells[0] in t.rows then t else t.(rows := t.rows[cells[0] := Row(|t.header|, cells)])
  }

  /** What a seen line does, given the line seen after it. */
  function ReadLine(r: Reading, line: string, following: string): Reading {
    if !PipeRow(line) then r.(open := false) else
    var cells := Cells(line);
    if IsSeparator(cells) then r
    else if "|" <= following && IsSeparator(Cells(following)) then Reading(r.found + [Table(cells, map[])], true)
    else if r.open && r.found != [] && cells != [] then
      var n := |r.found| - 1; r.(found := r.found[n := AddRow(r.found[n], cells)])
    else r
  }

  function ReadTables(lines: seq<Option<string>>, n: nat): Reading
    requires n <= |lines|
  {
    if n == 0 then Reading([], false) else
    var r := ReadTables(lines, n - 1);
    if lines[n - 1] == None then r else ReadLine(r, lines[n - 1].value, Following(lines, n))
  }

  method Tables(text: string) returns (found: seq<Table>)
    ensures var lines := SeeAll(SplitLines(text), START); found == ReadTables(lines, |lines|).found
  {
    hide PipeRow, Cells, IsSeparator, Following, AddRow, SeeAll, SplitLines;
    var lines := VisibleLines(text);
    found := [];
    var open := false;
    for i := 0 to |lines|
      invariant Reading(found, open) == ReadTables(lines, i) && (open ==> found != [])
    {
      if lines[i] == None { continue; }
      var line := lines[i].value;
      if !PipeRow(line) {
        open := false;
        continue;
      }
      var cells := Cells(line);
      if IsSeparator(cells) { continue; }
      var following := Following(lines, i + 1);
      if "|" <= following && IsSeparator(Cells(following)) {
        found := found + [Table(cells, map[])];
        open := true;
        continue;
      }
      if open && cells != [] {
        var n := |found| - 1;
        found := found[n := AddRow(found[n], cells)];
      }
    }
  }

  // ---------- the title section and the evidence ----------

  predicate IsHash(c: char) { c == '#' }

  predicate IsTitle(line: string) { |line| > 1 && line[0] == '#' && IsPySpace(line[1]) }

  predicate IsHeading(line: string) {
    var n := RunLength(line, IsHash);
    1 <= n <= 6 && n < |line| && IsPySpace(line[n])
  }

  /** The first line from `i` on that is seen and satisfies `p`, or the end. */
  function FirstSeen(lines: seq<Option<string>>, i: nat, p: string -> bool): (r: nat)
    requires i <= |lines|
    ensures i <= r <= |lines|
    ensures r < |lines| ==> lines[r].Some? && p(lines[r].value)
    ensures forall j | i <= j < r :: lines[j].Some? ==> !p(lines[j].value)
    decreases |lines| - i
  {
    if i == |lines| || (lines[i].Some? && p(lines[i].value)) then i else FirstSeen(lines, i + 1, p)
  }

  function TitleStart(lines: seq<Option<string>>): nat { FirstSeen(lines, 0, IsTitle) }

  function TitleEnd(lines: seq<Option<string>>): nat
    requires TitleStart(lines) < |lines|
  {
    FirstSeen(lines, TitleStart(lines) + 1, IsHeading)
  }

  function TitleSection(text: string): string {
    var lines, raw := SeeAll(SplitLines(text), START), SplitLines(text);
    if TitleStart(lines) == |lines| then text else Join(raw[TitleStart(lines)..TitleEnd(lines)], '\n')
  }

  const EVIDENCE_HEADER := "req id"

  predicate IsEvidence(t: Table, lower: string -> string) {
    t.header != [] && lower(Strip(t.header[0])) == EVIDENCE_HEADER
  }

  function FirstEvidence(found: seq<Table>, lower: string -> string): Option<Table> {
    if found == [] then None
    else if IsEvidence(found[0], lower) then Some(found[0]) else FirstEvidence(found[1..], lower)
  }

  function EvidenceTable(text: string, lower: string -> string): Option<Table> {
    var lines := SeeAll(SplitLines(TitleSection(text)), START);
    FirstEvidence(ReadTables(lines, |lines|).found, lower)
  }

  // ---------- the check ----------

  predicate IsWord(c: char) { IsDigit(c) || 'a' <= c <= 'z' || 'A' <= c <= 'Z' || c == '_' }

  /** The id of a requirement heading: two hashes, blanks, then FR or NFR with three
      digits that no word character follows. */
  function HeadingId(line: string): Option<string> {
    if !("##" <= line) then None else
    var k := RunLength(line[2..], IsPySpace);
    var s := line[2 + k..];
    var p := if "FR-" <= s then 3 else if "NFR-" <= s then 4 else 0;
    if k > 0 && p > 0 && |s| >= p + 3 && All(s[p..p + 3], IsDigit) && (|s| == p + 3 || !IsWord(s[p + 3]))
    then Some(s[..p + 3]) else None
  }

  /** The requirement ids of the first `n` lines, each once, in order of appearance. */
  function Declared(lines: seq<Option<string>>, n: nat): seq<string>
    requires n <= |lines|
  {
    if n == 0 then [] else
    var seen := Declared(lines, n - 1);
    var id := if lines[n - 1].Some? then HeadingId(lines[n - 1].value) else None;
    if id == None || id.value in seen then seen else seen + [id.value]
  }

  method DeclaredRequirements(text: string) returns (seen: seq<string>)
    ensures var lines := SeeAll(SplitLines(text), START); seen == Declared(lines, |lines|)
  {
    var lines := VisibleLines(text);
    seen := [];
    for i := 0 to |lines|
      invariant seen == Declared(lines, i)
    {
      if lines[i] == None { continue; }
      var id := HeadingId(lines[i].value);
      if id != None && id.value !in seen { seen := seen + [id.value]; }
    }
  }

  datatype Problem =
    | NoSections(doc: string)
    | NoTable(doc: string)
    | MissingRow(id: string, doc: string)
    | Malformed(id: string, doc: string)
    | EmptyCells(id: string, doc: string)

  /** A whole row: as many cells as its table's header declares, none empty. */
  predicate Complete(row: Row) { |row.cells| == row.columns && forall cell <- row.cells :: cell != "" }

  function DeclaredIn(text: string): seq<string> {
    var lines := SeeAll(SplitLines(text), START);
    Declared(lines, |lines|)
  }

  predicate HasWholeRow(table: Table, id: string) { id in table.rows && Complete(table.rows[id]) }

  /** The document has an evidence table with a whole row for the requirement. */
  predicate Traced(id: string, text: string, lower: string -> string) {
    EvidenceTable(text, lower).Some? && HasWholeRow(EvidenceTable(text, lower).value, id)
  }

  /** The two documents that declare requirements and the two that trace them, by
      name, as `check` reads them; a document that does not exist ends the run. */
  datatype Docs = Docs(requirements: seq<(string, string)>, evidence: seq<(string, string)>)

  predicate AllTraced(docs: Docs, lower: string -> string) {
    && (forall d <- docs.requirements :: DeclaredIn(d.1) != [])
    && (forall e <- docs.evidence ::
          && EvidenceTable(e.1, lower).Some?
          && forall d <- docs.requirements, id <- DeclaredIn(d.1) :: Traced(id, e.1, lower))
  }

  /** The problem that a requirement's row has. */
  predicate RowProblem(table: Table, id: string, doc: string, p: Problem) {
    match p
    case MissingRow(i, d) => i == id && d == doc && id !in table.rows
    case Malformed(i, d) => i == id && d == doc && id in table.rows && |table.rows[id].cells| != table.rows[id].columns
    case EmptyCells(i, d) =>
      i == id && d == doc && id in table.rows && |table.rows[id].cells| == table.rows[id].columns && "" in table.rows[id].cells
    case _ => false
  }

  method CheckRow(table: Table, id: string, doc: string) returns (problem: Option<Problem>)
    ensures problem == None <==> HasWholeRow(table, id)
    ensures forall p :: problem == Some(p) <==> RowProblem(table, id, doc, p)
  {
    if id !in table.rows { return Some(MissingRow(id, doc)); }
    var row := table.rows[id];
    if |row.cells| != row.columns { return Some(Malformed(id, doc)); }
    if exists cell <- row.cells :: cell == "" { return Some(EmptyCells(id, doc)); }
    return None;
  }

  /** The problem is one of this document's evidence table. */
  ghost predicate EvidenceProblem(doc: (string, string), requirements: seq<string>, lower: string -> string, p: Problem) {
    match EvidenceTable(doc.1, lower)
    case None => p == NoTable(doc.0)
    case Some(table) => exists id <- requirements :: RowProblem(table, id, doc.0, p)
  }

  /** The problems that one document's evidence table has. */
  method CheckRows(doc: (string, string), requirements: seq<string>, lower: string -> string)
    returns (problems: seq<Problem>)
    ensures problems == [] <==>
      EvidenceTable(doc.1, lower).Some? && forall i | 0 <= i < |requirements| :: Traced(requirements[i], doc.1, lower)
    ensures forall p :: p in problems <==> EvidenceProblem(doc, requirements, lower, p)
  {
    hide EvidenceTable, HasWholeRow, RowProblem;
    problems := [];
    var table := EvidenceTable(doc.1, lower);
    if table == None { return [NoTable(doc.0)]; }
    for i := 0 to |requirements|
      invariant problems == [] <==> forall k | 0 <= k < i :: HasWholeRow(table.value, requirements[k])
      invariant forall p :: p in problems <==> exists k | 0 <= k < i :: RowProblem(table.value, requirements[k], doc.0, p)
    {
      var problem := CheckRow(table.value, requirements[i], doc.0);
      if problem.Some? { problems := problems + [problem.value]; }
    }
  }

  /** Some document declares the requirement. */
  ghost predicate IsDeclared(docs: Docs, id: string) { exists d <- docs.requirements :: id in DeclaredIn(d.1) }

  ghost predicate AllDeclare(docs: Docs) { forall d <- docs.requirements :: DeclaredIn(d.1) != [] }

  /** What is reported: each document that declares nothing; and when all declare
      something, each evidence document without an evidence table, and each missing,
      malformed or incomplete row of a declared requirement in the others. */
  ghost predicate IsReported(docs: Docs, lower: string -> string, p: Problem) {
    if !AllDeclare(docs) then exists d <- docs.requirements :: p == NoSections(d.0) && DeclaredIn(d.1) == []
    else exists e <- docs.evidence ::
      match EvidenceTable(e.1, lower)
      case None => p == NoTable(e.0)
      case Some(table) => exists id :: IsDeclared(docs, id) && RowProblem(table, id, e.0, p)
  }

  /** `check`: no problem exactly when every declared requirement is traced in every
      evidence document, and there is something to trace; else the problems there are. */
  method Check(docs: Docs, lower: string -> string) returns (problems: seq<Problem>)
    ensures problems == [] <==> AllTraced(docs, lower)
    ensures forall p :: p in problems <==> IsReported(docs, lower, p)
  {
    var requirements: seq<string>;
    problems, requirements := CheckSections(docs);
    hide DeclaredIn, Traced, EvidenceTable, RowProblem;
    if problems != [] {
      assert problems[0] in problems;
      return;
    }
    assert AllDeclare(docs) by { SectionsFound(docs, problems); }
    for i := 0 to |docs.evidence|
      invariant problems == [] <==>
        forall e <- docs.evidence[..i] ::
          EvidenceTable(e.1, lower).Some? && forall id <- requirements :: Traced(id, e.1, lower)
      invariant forall p :: p in problems <==> exists e <- docs.evidence[..i] :: EvidenceProblem(e, requirements, lower, p)
    {
      var doc := docs.evidence[i];
      assert docs.evidence[..i + 1] == docs.evidence[..i] + [doc];
      var more := CheckRows(doc, requirements, lower);
      hide EvidenceProblem;
      problems := problems + more;
    }
    assert docs.evidence[..|docs.evidence|] == docs.evidence;
  }

  lemma {:induction false} SectionsFound(docs: Docs, problems: seq<Problem>)
    requires problems == []
    requires forall d <- docs.requirements :: DeclaredIn(d.1) == [] ==> NoSections(d.0) in problems
    ensures AllDeclare(docs)
  {
  }

  /** The requirements that the documents declare, and a problem for each that declares
      none. */
  method CheckSections(docs: Docs) returns (problems: seq<Problem>, requirements: seq<string>)
    ensures forall p :: p in problems <==> exists d <- docs.requirements :: p == NoSections(d.0) && DeclaredIn(d.1) == []
    ensures forall d <- docs.requirements :: DeclaredIn(d.1) == [] ==> NoSections(d.0) in problems
    ensures forall id :: id in requirements <==> IsDeclared(docs, id)
  {
    hide DeclaredIn;
    problems, requirements := [], [];
    for i := 0 to |docs.requirements|
      invariant forall p :: p in problems <==> exists d <- docs.requirements[..i] :: p == NoSections(d.0) && DeclaredIn(d.1) == []
      invariant forall id :: id in requirements <==> exists d <- docs.requirements[..i] :: id in DeclaredIn(d.1)
    {
      var doc := docs.requirements[i];
      assert docs.requirements[..i + 1] == docs.requirements[..i] + [doc];
      var declared := Sections(doc.1);
      if declared == [] { problems := problems + [NoSections(doc.0)]; }
      requirements := requirements + declared;
    }
    assert docs.requirements[..|docs.requirements|] == docs.requirements;
  }

  method Sections(text: string) returns (declared: seq<string>)
    ensures declared == DeclaredIn(text)
  {
    declared := DeclaredRequirements(text);
  }
}
