/** The open-work board of scripts/check_open_work.py: its State column is derived
    from the tree and written, never typed. */
module OpenWork {
  import opened Text

  const PENDING := "PENDING"
  const DONE := "DONE"
  const UNPINNED := "UNPINNED"

  /** An em dash: nothing is pinned. */
  const UNPINNED_CELL := "\U{2014}"

  const MIN_NEEDLE_CHARS := 12

  predicate IsHex(c: char) { '0' <= c <= '9' || 'a' <= c <= 'f' }
  predicate IsSpaceChar(c: char) { c == ' ' }
  predicate IsNewline(c: char) { c == '\n' }

  datatype Row = Row(id: string, item: string, state: string, evidence: string, issue: string, dependsOn: string)
  {
    predicate Pinned() { evidence != UNPINNED_CELL }
  }

  datatype Board = Board(sha: Option<string>, statedRows: Option<nat>, statedUnpinned: Option<nat>, rows: seq<Row>)

  // ---------- one row ----------

  /** A row id between blanks: `W` and digits. */
  function IdOf(cell: string): Option<string> {
    var a := RunLength(cell, IsSpaceChar);
    var t := cell[a..];
    if t == "" || t[0] != 'W' then None else
    var d := RunLength(t[1..], IsDigit);
    if d > 0 && All(t[1 + d..], IsSpaceChar) then Some(t[..1 + d]) else None
  }

  /** The parts of a line that the row pattern accepts: it starts with a pipe, an
      id stands between the first two pipes, and something follows. */
  function RowParts(line: string): (r: Option<seq<string>>)
    ensures r.Some? ==> |r.value| >= 3 && r.value[0] == "" && IdOf(r.value[1]).Some?
  {
    var parts := Split(line, '|');
    if |parts| >= 3 && parts[0] == "" && IdOf(parts[1]).Some? && (|parts| > 3 || parts[2] != "")
    then Some(parts) else None
  }

  /** One backtick comes off each end, not a run of them. */
  function CellText(raw: string): string {
    var t := Strip(raw);
    var u := if t != "" && t[0] == '`' then t[1..] else t;
    var v := if u != "" && u[|u| - 1] == '`' then u[..|u| - 1] else u;
    Strip(v)
  }

  function CellAt(parts: seq<string>, i: nat): string {
    if i < |parts| then CellText(parts[i]) else ""
  }

  function ToRow(parts: seq<string>): Row
    requires |parts| >= 3 && IdOf(parts[1]).Some?
  {
    Row(IdOf(parts[1]).value, CellAt(parts, 2), CellAt(parts, 3), CellAt(parts, 4), CellAt(parts, 5), CellAt(parts, 6))
  }

  function ParseRow(line: string): Option<Row> {
    match RowParts(line)
    case None => None
    case Some(parts) => Some(ToRow(parts))
  }

  function ParseRows(lines: seq<string>): seq<Row> {
    if lines == [] then [] else
    ParseRows(lines[..|lines| - 1]) +
    match ParseRow(lines[|lines| - 1]) case None => [] case Some(row) => [row]
  }

  // ---------- the anchor and the stated counts ----------

  const SHA_PREFIX := "Verified at: `"

  function ShaLine(line: string): Option<string> {
    if |line| == |SHA_PREFIX| + 41 && SHA_PREFIX <= line && line[|line| - 1] == '`'
       && All(line[|SHA_PREFIX|..|line| - 1], IsHex)
    then Some(line[|SHA_PREFIX|..|line| - 1]) else None
  }

  function Number(digits: string): nat
    requires All(digits, IsDigit)
  {
    if digits == "" then 0
    else Number(digits[..|digits| - 1]) * 10 + (digits[|digits| - 1] as int - '0' as int)
  }

  const COUNT_A := "The board holds **"
  const COUNT_B := "** rows, **"
  const COUNT_C := "** of them unpinned."

  /** The digits at the start of `s`, when there are some and `after` follows. */
  function CountThen(s: string, after: string): Option<(nat, string)> {
    var d := RunLength(s, IsDigit);
    RunAll(s, IsDigit);
    if d > 0 && after <= s[d..] then Some((Number(s[..d]), s[d + |after|..])) else None
  }

  function CountLine(line: string): Option<(nat, nat)> {
    if !(COUNT_A <= line) then None else
    match CountThen(line[|COUNT_A|..], COUNT_B)
    case None => None
    case Some((rows, rest)) =>
      match CountThen(rest, COUNT_C)
      case None => None
      case Some((unpinned, tail)) => if tail == "" then Some((rows, unpinned)) else None
  }

  /** The first value that some line gives. */
  function FirstOf<T>(lines: seq<string>, read: string -> Option<T>): Option<T> {
    if lines == [] then None
    else if read(lines[0]).Some? then read(lines[0])
    else FirstOf(lines[1..], read)
  }

  /** `parse_board`; the two searches see lines that end at a newline only. */
  function Parse(text: string): Board {
    var counts := FirstOf(Split(text, '\n'), CountLine);
    Board(FirstOf(Split(text, '\n'), ShaLine),
          if counts.Some? then Some(counts.value.0) else None,
          if counts.Some? then Some(counts.value.1) else None,
          ParseRows(SplitLines(text)))
  }

  method ParseBoard(text: string) returns (board: Board)
    ensures board == Parse(text)
  {
    var sha := FirstOf(Split(text, '\n'), ShaLine);
    var counts := FirstOf(Split(text, '\n'), CountLine);
    var lines := SplitLines(text);
    var rows := [];
    for i := 0 to |lines|
      invariant rows == ParseRows(lines[..i])
    {
      assert lines[..i + 1][..i] == lines[..i];
      var row := ParseRow(lines[i]);
      if row == None { continue; }
      rows := rows + [row.value];
    }
    assert lines[..|lines|] == lines;
    board := Board(sha, if counts.Some? then Some(counts.value.0) else None,
                   if counts.Some? then Some(counts.value.1) else None, rows);
  }

  // ---------- the tree ----------

  /** Whether a comment starts at `i`: a `#` at the start of the line, or a blank
      with a `#` after it. */
  predicate CommentAt(line: string, i: nat) {
    (i == 0 && line != "" && line[0] == '#') || (i + 1 < |line| && IsPySpace(line[i]) && line[i + 1] == '#')
  }

  function CodeLength(line: string, from: nat): (n: nat)
    requires from <= |line|
    ensures from <= n <= |line|
    ensures forall i :: from <= i < n ==> !CommentAt(line, i)
    ensures n < |line| ==> CommentAt(line, n)
    decreases |line| - from
  {
    if from == |line| || CommentAt(line, from) then from else CodeLength(line, from + 1)
  }

  function CodeLine(line: string): string { line[..CodeLength(line, 0)] }

  function CodeLines(lines: seq<string>): seq<string> {
    seq(|lines|, i requires 0 <= i < |lines| => CodeLine(lines[i]))
  }

  /** The text of a file without its comments. */
  function CodeText(source: string): string {
    var lines := CodeLines(SplitLines(source));
    if lines == [] then "" else Join(lines, '\n')
  }

  method StripComments(source: string) returns (text: string)
    ensures text == CodeText(source)
  {
    var lines := SplitLines(source);
    var kept := [];
    for i := 0 to |lines|
      invariant kept == CodeLines(lines[..i])
    {
      kept := kept + [CodeLine(lines[i])];
    }
    assert lines[..|lines|] == lines;
    text := if kept == [] then "" else Join(kept, '\n');
  }

  /** The files of the repository, which of them are Python, and the tokenizer's
      reading of a Python file. */
  datatype Tree = Tree(files: map<string, string>, isPython: string -> bool, pythonText: string -> string)

  function EvidenceText(tree: Tree, path: string): string
    requires path in tree.files
  {
    if tree.isPython(path) then tree.pythonText(tree.files[path]) else CodeText(tree.files[path])
  }

  // ---------- the derivation ----------

  datatype Evidence = Evidence(present: bool, path: string, needle: string)

  /** Length of the polarity word of an evidence cell, 0 when there is none. */
  function PolarityLength(cell: string): (n: nat)
    ensures n <= |cell|
  {
    if "ABSENT " <= cell then 6
    else if "PRESENT " <= cell then 7
    else if "PRESENT@" <= cell then
      var h := RunLength(cell[8..], IsHex);
      if 7 <= h <= 40 && 8 + h < |cell| && cell[8 + h] == ' ' then 8 + h else 0
    else 0
  }

  function ReadEvidence(cell: string): Option<Evidence> {
    var p := PolarityLength(cell);
    if p == 0 || p == |cell| then None else
    var rest := cell[p + 1..];
    var q := RunLength(rest, IsSolid);
    if q > 0 && " :: " <= rest[q..] && |rest| > q + 4
    then Some(Evidence(cell[0] == 'P', rest[..q], rest[q + 4..])) else None
  }

  datatype Derived = State(state: string, read: bool) | Failure

  function Derive(row: Row, tree: Tree): Derived {
    if !row.Pinned() then State(UNPINNED, false) else
    match ReadEvidence(row.evidence)
    case None => Failure
    case Some(e) =>
      if '`' in e.needle || |e.needle| < MIN_NEEDLE_CHARS || e.path !in tree.files then Failure
      else State(if Contains(EvidenceText(tree, e.path), e.needle) == e.present then PENDING else DONE, true)
  }

  /** The states by row id (a later row of the same id decides), the rows that
      failed, and how many needles were read. */
  datatype Derivation = Derivation(states: map<string, string>, failures: seq<string>, read: nat)

  function DeriveRows(rows: seq<Row>, tree: Tree): Derivation {
    if rows == [] then Derivation(map[], [], 0) else
    var n := |rows| - 1;
    var d := DeriveRows(rows[..n], tree);
    match Derive(rows[n], tree)
    case Failure => d.(failures := d.failures + [rows[n].id])
    case State(s, read) => Derivation(d.states[rows[n].id := s], d.failures, if read then d.read + 1 else d.read)
  }

  method DeriveStates(board: Board, tree: Tree) returns (states: map<string, string>, failures: seq<string>, read: nat)
    ensures Derivation(states, failures, read) == DeriveRows(board.rows, tree)
  {
    states, failures, read := map[], [], 0;
    for i := 0 to |board.rows|
      invariant Derivation(states, failures, read) == DeriveRows(board.rows[..i], tree)
    {
      var row := board.rows[i];
      assert board.rows[..i + 1][..i] == board.rows[..i];
      if !row.Pinned() {
        states := states[row.id := UNPINNED];
        continue;
      }
      var e := ReadEvidence(row.evidence);
      if e == None || '`' in e.value.needle || |e.value.needle| < MIN_NEEDLE_CHARS || e.value.path !in tree.files {
        failures := failures + [row.id];
        continue;
      }
      var present := Contains(EvidenceText(tree, e.value.path), e.value.needle);
      read := read + 1;
      states := states[row.id := if present == e.value.present then PENDING else DONE];
    }
    assert board.rows[..|board.rows|] == board.rows;
  }

  // ---------- rendering ----------

  function Newlines(line: string): string { line[|TrimEnd(line, IsNewline)|..] }

  /** A line with its State cell replaced, when it is a row with an evidence cell. */
  function Restate(line: string, cell: string): string {
    match RowParts(TrimEnd(line, IsNewline))
    case None => line
    case Some(parts) => if |parts| < 5 then line else Join(parts[3 := cell], '|') + Newlines(line)
  }

  function RenderLine(line: string, states: map<string, string>): string {
    match RowParts(TrimEnd(line, IsNewline))
    case None => line
    case Some(parts) =>
      var id := IdOf(parts[1]).value;
      if id in states then Restate(line, " " + states[id] + " ") else line
  }

  function RenderLines(lines: seq<string>, states: map<string, string>): seq<string> {
    seq(|lines|, i requires 0 <= i < |lines| => RenderLine(lines[i], states))
  }

  function Render(text: string, states: map<string, string>): string {
    Concat(RenderLines(SplitKeep(text), states))
  }

  method RenderBoard(text: string, states: map<string, string>) returns (rendered: string)
    ensures rendered == Render(text, states)
  {
    hide SplitKeep, RenderLine, Concat;
    var lines := SplitKeep(text);
    var out := [];
    for i := 0 to |lines|
      invariant out == RenderLines(lines[..i], states)
    {
      out := out + [RenderLine(lines[i], states)];
    }
    assert lines[..|lines|] == lines;
    rendered := Concat(out);
  }

  /** The states that the tree gives a board's text. */
  function StatesOf(text: string, tree: Tree): map<string, string> {
    DeriveRows(Parse(text).rows, tree).states
  }

  /** The board file, and `write_states`, which regenerates its State column. */
  class BoardFile {
    var text: string

    constructor (text: string)
      ensures this.text == text
    {
      this.text := text;
    }

    method WriteStates(tree: Tree) returns (changed: bool)
      modifies this
      ensures text == Render(old(text), StatesOf(old(text), tree))
      ensures changed <==> text != old(text)
    {
      var board := ParseBoard(text);
      var states, _, _ := DeriveStates(board, tree);
      var rendered := RenderBoard(text, states);
      if rendered == text { return false; }
      text := rendered;
      changed := true;
    }
  }
}
