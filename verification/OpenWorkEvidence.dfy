/** What a board's text says, spelled out: the rows as they are written, the evidence
    cells as they are written, and the state that each of them gets. */
module OpenWorkEvidence {
  import opened Text
  import opened OpenWork
  import opened OpenWorkProofs

  // ---------- the evidence cell ----------

  predicate IsHexDigit(c: char) { '0' <= c <= '9' || 'a' <= c <= 'f' }

  lemma {:induction false} HexDigits(s: string)
    ensures All(s, IsHex) <==> All(s, IsHexDigit)
  {
  }

  /** The polarity words: open while the needle is absent, or while it is present, the
      latter perhaps since a commit. */
  predicate IsPolarity(word: string, present: bool) {
    || (word == "ABSENT" && !present)
    || (word == "PRESENT" && present)
    || ("PRESENT@" <= word && 7 <= |word| - 8 <= 40 && All(word[8..], IsHexDigit) && present)
  }

  /** An evidence cell as it is written. */
  function Pin(word: string, path: string, needle: string): string { word + " " + (path + (" :: " + needle)) }

  predicate IsPin(word: string, present: bool, path: string, needle: string) {
    IsPolarity(word, present) && path != "" && All(path, IsSolid) && needle != ""
  }

  lemma {:induction false} PolarityIsRead(word: string, present: bool, rest: string)
    requires IsPolarity(word, present)
    ensures PolarityLength(word + " " + rest) == |word| && (word[0] == 'P' <==> present)
  {
    var cell := word + " " + rest;
    if word == "ABSENT" {
      assert cell[..7] == "ABSENT ";
    } else if word == "PRESENT" {
      assert cell[..8] == "PRESENT " && cell[0] == 'P';
    } else {
      assert cell[..8] == word[..8] == "PRESENT@" && cell[0] == 'P' && cell[7] == '@';
      assert cell[8..] == word[8..] + (" " + rest);
      HexDigits(word[8..]);
      RunExact(word[8..], " " + rest, IsHex);
    }
  }

  lemma {:induction false} PinParts(word: string, path: string, needle: string)
    ensures var cell := Pin(word, path, needle); var rest := path + (" :: " + needle);
            && cell[|word| + 1..] == rest && |word| < |cell| && rest[..|path|] == path
            && " :: " <= rest[|path|..] && rest[|path| + 4..] == needle && (word != "" ==> cell[0] == word[0])
  {
    var rest := path + (" :: " + needle);
    assert rest[|path|..] == " :: " + needle;
  }

  /** A cell that is written so is read so. */
  lemma {:induction false} PinIsRead(word: string, present: bool, path: string, needle: string)
    requires IsPin(word, present, path, needle)
    ensures ReadEvidence(Pin(word, path, needle)) == Some(Evidence(present, path, needle))
  {
    PolarityIsRead(word, present, path + (" :: " + needle));
    PinParts(word, path, needle);
    RunExact(path, " :: " + needle, IsSolid);
    hide PolarityLength, RunLength, All, IsSolid;
  }

  /** And whatever is read is written so. */
  lemma {:induction false} ReadIsPin(cell: string) returns (word: string)
    requires ReadEvidence(cell).Some?
    ensures var e := ReadEvidence(cell).value; IsPin(word, e.present, e.path, e.needle) && cell == Pin(word, e.path, e.needle)
  {
    var p, q := PolarityLength(cell), 0;
    word := cell[..p];
    ReadPolarity(cell);
    q := RunLength(cell[p + 1..], IsSolid);
    ReadPath(cell[p + 1..], q);
    PinPieces(cell, p, q);
    hide PolarityLength, RunLength, All, IsSolid, IsPolarity;
  }

  lemma {:induction false} ReadPath(rest: string, q: nat)
    requires q == RunLength(rest, IsSolid)
    ensures q <= |rest| && All(rest[..q], IsSolid)
  {
    RunAll(rest, IsSolid);
  }

  lemma {:induction false} PinPieces(cell: string, p: nat, q: nat)
    requires p < |cell| && cell[p] == ' ' && q <= |cell[p + 1..]| && " :: " <= cell[p + 1..][q..]
    ensures var rest := cell[p + 1..]; cell == cell[..p] + " " + (rest[..q] + (" :: " + rest[q + 4..]))
  {
    var rest := cell[p + 1..];
    assert rest[q..][..4] == " :: " && rest[q..][4..] == rest[q + 4..];
    assert rest == rest[..q] + (" :: " + rest[q + 4..]);
  }

  lemma {:induction false} ReadPolarity(cell: string)
    requires var p := PolarityLength(cell); 0 < p < |cell|
    ensures var p := PolarityLength(cell); cell[p] == ' ' && IsPolarity(cell[..p], cell[0] == 'P')
  {
    var p := PolarityLength(cell);
    if "ABSENT " <= cell {
      assert cell[..7][..6] == cell[..6] && "ABSENT "[..6] == "ABSENT" && cell[6] == "ABSENT "[6];
    } else if "PRESENT " <= cell {
      assert cell[..8][..7] == cell[..7] && "PRESENT "[..7] == "PRESENT" && cell[7] == "PRESENT "[7];
    } else {
      RunAll(cell[8..], IsHex);
      HexDigits(cell[8..][..p - 8]);
      assert cell[..p][8..] == cell[8..][..p - 8] && cell[..p][..8] == cell[..8] && cell[0] == cell[..8][0];
    }
  }

  // ---------- the state of a row ----------

  /** What the tree says of a pinned row: nothing, when the pin cannot be used, or
      whether the needle occurs in the code of the file. */
  ghost predicate Usable(tree: Tree, path: string, needle: string) {
    '`' !in needle && |needle| >= 12 && path in tree.files
  }

  /** The state of a row by its evidence cell. */
  lemma {:induction false} StateExactly(row: Row, tree: Tree)
    ensures row.evidence == "\U{2014}" ==> Derive(row, tree) == State("UNPINNED", false)
    ensures forall word, present, path, needle | IsPin(word, present, path, needle) && row.evidence == Pin(word, path, needle) ::
      Derive(row, tree) == PinnedState(tree, present, path, needle)
    ensures row.evidence != "\U{2014}" && (forall word, present, path, needle | IsPin(word, present, path, needle) :: row.evidence != Pin(word, path, needle))
      ==> Derive(row, tree) == Failure
  {
    hide ReadEvidence, IsPin, Pin, EvidenceText, Contains;
    forall word, present, path, needle | IsPin(word, present, path, needle) && row.evidence == Pin(word, path, needle)
      ensures Derive(row, tree) == PinnedState(tree, present, path, needle)
    {
      PinIsRead(word, present, path, needle);
      PinIsPinned(word, present, path, needle);
    }
    if ReadEvidence(row.evidence).Some? { var word := ReadIsPin(row.evidence); }
  }

  lemma {:induction false} PinIsPinned(word: string, present: bool, path: string, needle: string)
    requires IsPin(word, present, path, needle)
    ensures Pin(word, path, needle) != "\U{2014}"
  {
    assert |Pin(word, path, needle)| > 1;
  }

  /** A pin that says absent is done once its needle occurs, one that says present is
      done once it does not, and each is pending till then. */
  ghost function PinnedState(tree: Tree, present: bool, path: string, needle: string): Derived {
    if !Usable(tree, path, needle) then Failure
    else if present then State(if Contains(EvidenceText(tree, path), needle) then "PENDING" else "DONE", true)
    else State(if Contains(EvidenceText(tree, path), needle) then "DONE" else "PENDING", true)
  }

  // ---------- the row line ----------

  /** A cell between blanks, and perhaps in backticks. */
  function Boxed(cell: string, ticked: bool): string { if ticked then " `" + cell + "` " else " " + cell + " " }

  /** Text that a cell can hold: no pipe and no blanks round it, and, unless it stands in
      backticks, none at its ends. */
  predicate IsCellText(cell: string, ticked: bool) {
    '|' !in cell && Strip(cell) == cell && (ticked || cell == "" || (cell[0] != '`' && cell[|cell| - 1] != '`'))
  }

  predicate IsId(id: string) { |id| > 1 && id[0] == 'W' && All(id[1..], IsDigit) }

  /** A row as it is written. */
  function RowParts6(id: string, row: Row, ticked: bool): seq<string> {
    ["", " " + id + " ", Boxed(row.item, false), Boxed(row.state, false), Boxed(row.evidence, ticked), Boxed(row.issue, false), Boxed(row.dependsOn, false), ""]
  }

  function RowLine(row: Row, ticked: bool): string { Join(RowParts6(row.id, row, ticked), '|') }

  predicate IsWritten(row: Row, ticked: bool) {
    && IsId(row.id) && IsCellText(row.item, false) && IsCellText(row.state, false) && IsCellText(row.evidence, ticked)
    && IsCellText(row.issue, false) && IsCellText(row.dependsOn, false)
  }

  lemma {:induction false} BareIsRead(cell: string)
    requires IsCellText(cell, false)
    ensures CellText(" " + cell + " ") == cell
  {
    TrimPadded(" ", cell, " ", IsPySpace);
    hide Trim;
  }

  lemma {:induction false} TickedIsRead(cell: string)
    requires IsCellText(cell, true)
    ensures CellText(" `" + cell + "` ") == cell
  {
    var t := "`" + cell + "`";
    assert t[0] == '`' && t[|t| - 1] == '`';
    assert t[1..] == cell + "`" && (cell + "`")[..|cell|] == cell && (cell + "`")[|cell|] == '`';
    TrimPadded(" ", t, " ", IsPySpace);
    assert " " + t + " " == " `" + cell + "` ";
    hide Trim;
  }

  lemma {:induction false} BoxedIsRead(cell: string, ticked: bool)
    requires IsCellText(cell, ticked)
    ensures CellText(Boxed(cell, ticked)) == cell && '|' !in Boxed(cell, ticked)
  {
    if ticked { TickedIsRead(cell); } else { BareIsRead(cell); }
    hide CellText, Strip;
  }

  lemma {:induction false} IdIsRead(id: string)
    requires IsId(id)
    ensures IdOf(" " + id + " ") == Some(id) && '|' !in " " + id + " "
  {
    var cell := " " + id + " ";
    assert cell == " " + (id + " ");
    RunExact(" ", id + " ", IsSpaceChar);
    var t := cell[1..];
    assert t == id + " " && t[1..] == id[1..] + " ";
    RunExact(id[1..], " ", IsDigit);
    assert t[|id|..] == " " && t[..|id|] == id;
    forall c | c in cell ensures c != '|' {
      if c in id[1..] { assert IsDigit(c); }
    }
  }

  lemma {:induction false} RowOfParts(line: string, parts: seq<string>)
    requires Split(line, '|') == parts && |parts| == 8 && parts[0] == "" && IdOf(parts[1]).Some?
    ensures ParseRow(line) == Some(Row(IdOf(parts[1]).value, CellText(parts[2]), CellText(parts[3]), CellText(parts[4]),
                                       CellText(parts[5]), CellText(parts[6])))
  {
    hide IdOf, CellText, Split;
  }

  /** A row that is written so is read so. */
  lemma {:induction false} RowIsRead(row: Row, ticked: bool)
    requires IsWritten(row, ticked)
    ensures ParseRow(RowLine(row, ticked)) == Some(row)
  {
    hide IdOf, CellText, Boxed, IsCellText, Split, Join, ParseRow, IsId;
    IdIsRead(row.id);
    BoxedIsRead(row.item, false);
    BoxedIsRead(row.state, false);
    BoxedIsRead(row.evidence, ticked);
    BoxedIsRead(row.issue, false);
    BoxedIsRead(row.dependsOn, false);
    var parts := RowParts6(row.id, row, ticked);
    SplitJoin(parts, '|');
    RowOfParts(RowLine(row, ticked), parts);
  }

  /** A line of the table that starts with an id between blanks, and goes on behind it. */
  function IdLine(before: string, id: string, after: string, rest: string): string {
    ("|" + (before + (id + after))) + "|" + rest
  }

  ghost predicate SpellsRow(line: string, id: string) {
    exists before: string, after: string, rest: string ::
      IsId(id) && All(before, IsSpaceChar) && All(after, IsSpaceChar) && rest != "" && line == IdLine(before, id, after, rest)
  }

  lemma {:induction false} IdBetween(before: string, id: string, after: string)
    requires IsId(id) && All(before, IsSpaceChar) && All(after, IsSpaceChar)
    ensures IdOf(before + (id + after)) == Some(id) && '|' !in before + (id + after)
  {
    var cell := before + (id + after);
    RunExact(before, id + after, IsSpaceChar);
    assert cell[|before|..] == id + after && (id + after)[1..] == id[1..] + after;
    DigitsBefore(id[1..], after);
    assert (id + after)[|id|..] == after && (id + after)[..|id|] == id;
    forall i | 0 <= i < |id| ensures id[i] != '|' { if i > 0 { assert id[1..][i - 1] == id[i]; } }
  }

  lemma {:induction false} DigitsBefore(digits: string, after: string)
    requires All(digits, IsDigit) && All(after, IsSpaceChar)
    ensures RunLength(digits + after, IsDigit) == |digits|
  {
    RunExact(digits, after, IsDigit);
  }

  lemma {:induction false} IdParts(cell: string) returns (before: string, after: string)
    requires IdOf(cell).Some?
    ensures var id := IdOf(cell).value;
            IsId(id) && All(before, IsSpaceChar) && All(after, IsSpaceChar) && cell == before + (id + after)
  {
    var a := RunLength(cell, IsSpaceChar);
    RunAll(cell, IsSpaceChar);
    var t := cell[a..];
    var d := RunLength(t[1..], IsDigit);
    RunAll(t[1..], IsDigit);
    before, after := cell[..a], t[1..][d..];
    hide RunLength, All;
    assert t[..1 + d][1..] == t[1..][..d] && t == t[..1 + d] + after && cell == before + t;
  }

  /** Exactly these lines are rows, and of this id. */
  lemma {:induction false} RowLineExactly(line: string, id: string)
    ensures IsRowOf(line, id) <==> SpellsRow(line, id)
  {
    hide IdOf, CellText, All, IsId;
    if IsRowOf(line, id) {
      var parts := RowParts(line).value;
      var before, after := IdParts(parts[1]);
      JoinSplit(line, '|');
      JoinThree(parts);
      assert line == IdLine(before, id, after, Join(parts[2..], '|'));
    }
    if SpellsRow(line, id) {
      var before: string, after: string, rest: string :|
        IsId(id) && All(before, IsSpaceChar) && All(after, IsSpaceChar) && rest != "" && line == IdLine(before, id, after, rest);
      var cell := before + (id + after);
      IdBetween(before, id, after);
      assert line == "" + "|" + (cell + "|" + rest);
      SplitPart("", cell + "|" + rest, '|');
      SplitPart(cell, rest, '|');
      JoinSplit(rest, '|');
      hide Split;
      assert Split(line, '|') == ["", cell] + Split(rest, '|');
    }
  }

  lemma {:induction false} JoinThree(parts: seq<string>)
    requires |parts| >= 3 && parts[0] == "" && (|parts| > 3 || parts[2] != "")
    ensures Join(parts, '|') == ("|" + parts[1]) + "|" + Join(parts[2..], '|') && Join(parts[2..], '|') != ""
  {
    assert parts[1..][1..] == parts[2..];
    assert Join(parts, '|') == "" + "|" + Join(parts[1..], '|');
  }

  // ---------- the states of a board ----------

  /** A line that is a row of this id. */
  predicate IsRowOf(line: string, id: string) { ParseRow(line).Some? && ParseRow(line).value.id == id }

  lemma {:induction false} LaterLinesKeep(lines: seq<string>, i: nat, n: nat, tree: Tree, id: string)
    requires i <= n <= |lines| && forall k | i <= k < n :: !IsRowOf(lines[k], id)
    ensures var a, b := DeriveRows(ParseRows(lines[..i]), tree).states, DeriveRows(ParseRows(lines[..n]), tree).states;
            (id in a <==> id in b) && (id in a ==> a[id] == b[id])
  {
    hide ParseRow, Derive;
    if n > i {
      LaterLinesKeep(lines, i, n - 1, tree, id);
      OneMoreLine(lines, n - 1, tree);
    }
  }

  /** What one more line does to the states. */
  lemma {:induction false} OneMoreLine(lines: seq<string>, n: nat, tree: Tree)
    requires n < |lines|
    ensures var a, b := DeriveRows(ParseRows(lines[..n]), tree), DeriveRows(ParseRows(lines[..n + 1]), tree);
            match ParseRow(lines[n])
            case None => b == a
            case Some(row) =>
              match Derive(row, tree)
              case Failure => b == a.(failures := a.failures + [row.id])
              case State(s, read) => b == Derivation(a.states[row.id := s], a.failures, if read then a.read + 1 else a.read)
  {
    hide ParseRow, Derive;
    var rows := ParseRows(lines[..n]);
    assert lines[..n + 1][..n] == lines[..n] && lines[..n + 1][n] == lines[n];
    assert rows + [] == rows;
    if ParseRow(lines[n]).Some? {
      var all := rows + [ParseRow(lines[n]).value];
      assert all[..|all| - 1] == rows;
    }
  }

  /** The last line that is a row of an id decides its state: the state that its
      evidence gives; when its evidence gives none, the state is that of the lines
      before it, and the id is among the failures. */
  lemma {:induction false} LastRowDecides(text: string, tree: Tree, i: nat, row: Row)
    requires i < |SplitLines(text)| && ParseRow(SplitLines(text)[i]) == Some(row)
    requires forall k | i < k < |SplitLines(text)| :: !IsRowOf(SplitLines(text)[k], row.id)
    ensures var states := StatesOf(text, tree);
            match Derive(row, tree)
            case State(s, _) => row.id in states && states[row.id] == s
            case Failure =>
              var before := DeriveRows(ParseRows(SplitLines(text)[..i]), tree).states;
              (row.id in states <==> row.id in before) && (row.id in states ==> states[row.id] == before[row.id])
  {
    hide ParseRow, Derive, SplitLines, FirstOf;
    var lines := SplitLines(text);
    OneMoreLine(lines, i, tree);
    LaterLinesKeep(lines, i + 1, |lines|, tree, row.id);
    assert lines[..|lines|] == lines;
  }

  /** So for a row written on the board, after which no line is a row of its id: the
      board's state of it is the one its evidence calls for. */
  lemma {:induction false} WrittenRowDecides(
    text: string, tree: Tree, i: nat, row: Row, ticked: bool, word: string, present: bool, path: string, needle: string)
    requires i < |SplitLines(text)| && SplitLines(text)[i] == RowLine(row, ticked) && IsWritten(row, ticked)
    requires forall k | i < k < |SplitLines(text)| :: !IsRowOf(SplitLines(text)[k], row.id)
    requires IsPin(word, present, path, needle) && row.evidence == Pin(word, path, needle) && Usable(tree, path, needle)
    ensures var states := StatesOf(text, tree);
            && row.id in states && states[row.id] in {"DONE", "PENDING"}
            && (states[row.id] == "DONE" <==> (Contains(EvidenceText(tree, path), needle) <==> !present))
  {
    hide StatesOf, SplitLines, RowLine, IsWritten, IsPin, Pin, Derive, EvidenceText, Contains, IsRowOf, ParseRow;
    RowIsRead(row, ticked);
    LastRowDecides(text, tree, i, row);
    StateExactly(row, tree);
  }

  // ---------- the row as it is rendered ----------

  /** A written row is rendered with the state of its id, and with nothing else changed;
      a row whose id has no state stays. */
  lemma {:induction false} RowIsRendered(row: Row, ticked: bool, e: string, states: map<string, string>)
    requires IsWritten(row, ticked) && All(RowLine(row, ticked), NotBreak) && (e == "" || IsLineEnd(e))
    ensures RenderLine(RowLine(row, ticked) + e, states) ==
      RowLine(if row.id in states then row.(state := states[row.id]) else row, ticked) + e
  {
    var line := RowLine(row, ticked);
    var parts := RowParts6(row.id, row, ticked);
    hide IdOf, CellText, Boxed, IsCellText, Split, Join, IsId, TrimEnd, IsLineEnd, All, Restate;
    RowSplits(row, ticked);
    IdIsRead(row.id);
    PartsOfRow(line, e);
    if row.id in states {
      RestateFull(line, e, " " + states[row.id] + " ");
      StateCell(row, states[row.id], ticked);
    }
  }

  lemma {:induction false} RowSplits(row: Row, ticked: bool)
    requires IsWritten(row, ticked)
    ensures Split(RowLine(row, ticked), '|') == RowParts6(row.id, row, ticked)
  {
    hide IdOf, CellText, Boxed, IsCellText, Split, Join, IsId;
    IdIsRead(row.id);
    BoxedIsRead(row.item, false);
    BoxedIsRead(row.state, false);
    BoxedIsRead(row.evidence, ticked);
    BoxedIsRead(row.issue, false);
    BoxedIsRead(row.dependsOn, false);
    SplitJoin(RowParts6(row.id, row, ticked), '|');
  }

  lemma {:induction false} StateCell(row: Row, state: string, ticked: bool)
    ensures RowParts6(row.id, row, ticked)[3 := " " + state + " "] == RowParts6(row.id, row.(state := state), ticked)
  {
  }

  // ---------- what the derivation counts ----------

  /** The ids of the rows whose evidence gives no state, in order. */
  ghost function FailingIds(rows: seq<Row>, tree: Tree): seq<string> {
    if rows == [] then [] else (if Derive(rows[0], tree) == Failure then [rows[0].id] else []) + FailingIds(rows[1..], tree)
  }

  ghost predicate NeedleRead(rows: seq<Row>, tree: Tree, i: int) {
    0 <= i < |rows| && exists s :: Derive(rows[i], tree) == State(s, true)
  }

  ghost function NeedlesRead(rows: seq<Row>, tree: Tree): set<int> { set i | 0 <= i < |rows| && NeedleRead(rows, tree, i) }

  lemma {:induction false} FailingLast(rows: seq<Row>, tree: Tree)
    requires rows != []
    ensures var n := |rows| - 1;
            FailingIds(rows, tree) == FailingIds(rows[..n], tree) + FailingIds([rows[n]], tree)
  {
    hide Derive;
    var n := |rows| - 1;
    if n > 0 {
      FailingLast(rows[1..], tree);
      assert rows[1..][..n - 1] == rows[..n][1..] && rows[..n][0] == rows[0];
    } else {
      assert rows == [rows[0]];
    }
  }

  lemma {:induction false} OneMoreNeedle(rows: seq<Row>, tree: Tree)
    requires rows != []
    ensures var n := |rows| - 1;
            |NeedlesRead(rows, tree)| == |NeedlesRead(rows[..n], tree)| + if NeedleRead(rows, tree, n) then 1 else 0
  {
    hide Derive;
    var n := |rows| - 1;
    assert forall i | 0 <= i < n :: NeedleRead(rows[..n], tree, i) <==> NeedleRead(rows, tree, i);
    hide NeedleRead;
    var before := NeedlesRead(rows[..n], tree);
    assert NeedlesRead(rows, tree) == if NeedleRead(rows, tree, n) then before + {n} else before;
  }

  /** The failures are the rows without a state, in order, and the needles read are the
      rows whose needle was looked for, each counted once. */
  lemma {:induction false} CountsExactly(rows: seq<Row>, tree: Tree)
    ensures DeriveRows(rows, tree).failures == FailingIds(rows, tree)
    ensures DeriveRows(rows, tree).read == |NeedlesRead(rows, tree)|
  {
    hide Derive, NeedlesRead;
    if rows == [] {
      assert NeedlesRead(rows, tree) == {} by { NoNeedles(tree); }
    } else {
      var n := |rows| - 1;
      CountsExactly(rows[..n], tree);
      FailingLast(rows, tree);
      OneMoreNeedle(rows, tree);
      assert [rows[n]][1..] == [];
    }
  }

  lemma {:induction false} NoNeedles(tree: Tree)
    ensures NeedlesRead([], tree) == {}
  {
  }

  // ---------- the anchor and the stated counts ----------

  function Digit(n: nat): char
    requires n < 10
  {
    ['0', '1', '2', '3', '4', '5', '6', '7', '8', '9'][n]
  }

  function Decimal(n: nat): string { if n < 10 then [Digit(n)] else Decimal(n / 10) + [Digit(n % 10)] }

  lemma {:induction false} DecimalIsRead(n: nat)
    ensures Decimal(n) != "" && All(Decimal(n), IsDigit) && Number(Decimal(n)) == n
  {
    var s := Decimal(n);
    if n >= 10 {
      DecimalIsRead(n / 10);
      assert s[..|s| - 1] == Decimal(n / 10) && All(s[..|s| - 1], IsDigit);
      forall i | 0 <= i < |s| ensures IsDigit(s[i]) { if i < |s| - 1 { assert s[..|s| - 1][i] == s[i]; } }
    } else {
      assert s[..0] == "";
    }
  }

  function Anchor(hex: string): string { "Verified at: `" + hex + "`" }

  function Counted(rows: nat, unpinned: nat): string {
    "The board holds **" + (Decimal(rows) + ("** rows, **" + (Decimal(unpinned) + "** of them unpinned.")))
  }

  /** The anchor line is read exactly when it holds forty hexadecimal digits. */
  lemma {:induction false} AnchorExactly(line: string, hex: string)
    ensures ShaLine(line) == Some(hex) <==> line == Anchor(hex) && |hex| == 40 && All(hex, IsHexDigit)
  {
    var p := "Verified at: `";
    assert SHA_PREFIX == p && |p| == 14;
    if line == Anchor(hex) && |hex| == 40 {
      assert line[14..54] == hex && line[..14] == p && line[54] == '`';
    }
    if ShaLine(line) == Some(hex) {
      assert line == line[..14] + line[14..54] + line[54..];
      assert line[54..] == "`";
    }
    HexDigits(hex);
    hide All;
  }

  lemma {:induction false} CountThenReads(n: nat, after: string, tail: string)
    requires after != "" && !IsDigit(after[0])
    ensures CountThen(Decimal(n) + (after + tail), after) == Some((n, tail))
  {
    var d := Decimal(n);
    DecimalIsRead(n);
    hide Decimal, Number, RunLength, All;
    RunExact(d, after + tail, IsDigit);
    var s := d + (after + tail);
    assert s[..|d|] == d && s[|d|..] == after + tail && s[|d| + |after|..] == tail;
  }

  /** The line that states the counts is read as those counts. */
  lemma {:induction false} CountedIsRead(rows: nat, unpinned: nat)
    ensures CountLine(Counted(rows, unpinned)) == Some((rows, unpinned))
  {
    hide Decimal, CountThen, IsDigit;
    var tail := Decimal(unpinned) + "** of them unpinned.";
    CountSeparators();
    CountThenReads(unpinned, COUNT_C, "");
    assert COUNT_C + "" == COUNT_C;
    CountThenReads(rows, COUNT_B, tail);
    var line := Counted(rows, unpinned);
    assert line[|COUNT_A|..] == Decimal(rows) + (COUNT_B + tail) && COUNT_A <= line;
  }

  lemma {:induction false} CountSeparators()
    ensures COUNT_A == "The board holds **" && COUNT_B == "** rows, **" && COUNT_C == "** of them unpinned."
    ensures COUNT_B != "" && COUNT_C != "" && !IsDigit(COUNT_B[0]) && !IsDigit(COUNT_C[0])
  {
  }

  lemma {:induction false} FirstExactly<T>(lines: seq<string>, read: string -> Option<T>, i: nat)
    requires i < |lines| && read(lines[i]).Some? && forall k | 0 <= k < i :: read(lines[k]) == None
    ensures FirstOf(lines, read) == read(lines[i])
  {
    if i > 0 { FirstExactly(lines[1..], read, i - 1); }
  }

  lemma {:induction false} NoneExactly<T>(lines: seq<string>, read: string -> Option<T>)
    ensures FirstOf(lines, read) == None <==> forall line <- lines :: read(line) == None
  {
    if lines != [] {
      NoneExactly(lines[1..], read);
      assert forall line :: line in lines <==> line == lines[0] || line in lines[1..];
    }
  }

  /** The board's anchor is that of its first anchor line. */
  lemma {:induction false} BoardAnchor(text: string, i: nat, hex: string)
    requires i < |Split(text, '\n')| && Split(text, '\n')[i] == Anchor(hex) && |hex| == 40 && All(hex, IsHexDigit)
    requires forall k, h | 0 <= k < i && |h| == 40 && All(h, IsHexDigit) :: Split(text, '\n')[k] != Anchor(h)
    ensures Parse(text).sha == Some(hex)
  {
    var lines := Split(text, '\n');
    AnchorExactly(lines[i], hex);
    forall k | 0 <= k < i ensures ShaLine(lines[k]) == None {
      if ShaLine(lines[k]).Some? { AnchorExactly(lines[k], ShaLine(lines[k]).value); }
    }
    hide ShaLine, Split, CountLine, ParseRows, Anchor, All;
    FirstExactly(lines, ShaLine, i);
  }

  /** The board's stated counts are those of its first line that states counts. */
  lemma {:induction false} BoardCounts(text: string, i: nat, rows: nat, unpinned: nat)
    requires i < |Split(text, '\n')| && Split(text, '\n')[i] == Counted(rows, unpinned)
    requires forall k | 0 <= k < i :: !("The board holds **" <= Split(text, '\n')[k])
    ensures Parse(text).statedRows == Some(rows) && Parse(text).statedUnpinned == Some(unpinned)
  {
    var lines := Split(text, '\n');
    CountSeparators();
    CountedIsRead(rows, unpinned);
    forall k | 0 <= k < i ensures CountLine(lines[k]) == None { }
    hide ShaLine, Split, CountLine, ParseRows, Counted;
    FirstExactly(lines, CountLine, i);
  }

  // ---------- comments ----------

  /** A line of a file that is not Python is all code exactly when none of its hashes
      stands at its start or behind a blank. */
  lemma {:induction false} AllCodeExactly(line: string)
    ensures CodeLine(line) <= line
    ensures CodeLine(line) == line <==> forall i | 0 <= i < |line| && line[i] == '#' :: i > 0 && !IsPySpace(line[i - 1])
  {
    var n := CodeLength(line, 0);
    hide IsPySpace;
    if n == |line| {
      assert line[..n] == line;
      forall i | 0 <= i < |line| && line[i] == '#' ensures i > 0 && !IsPySpace(line[i - 1]) {
        assert !CommentAt(line, 0);
        if i > 0 { assert !CommentAt(line, i - 1); }
      }
    } else {
      assert CommentAt(line, n);
    }
  }
}
