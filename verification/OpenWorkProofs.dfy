/** Rewriting the State column changes that column and nothing else, and the
    derivation never reads it. */
module OpenWorkProofs {
  import opened Text
  import opened OpenWork

  /** A cell that a line can hold: no pipe and no line end. */
  predicate IsClean(cell: string) { '|' !in cell && All(cell, NotBreak) }

  // ---------- one line ----------

  /** A row line long enough to hold a State cell and an evidence cell. */
  predicate IsFullRow(line: string) {
    RowParts(line).Some? && |RowParts(line).value| >= 5
  }

  function RestateContent(line: string, cell: string): string {
    if IsFullRow(line) then Join(RowParts(line).value[3 := cell], '|') else line
  }

  lemma {:induction false} NoPipe(line: string)
    ensures forall p <- Split(line, '|') :: '|' !in p
  {
    JoinSplit(line, '|');
  }

  lemma {:induction false} RestatedParts(line: string, cell: string)
    requires IsFullRow(line) && '|' !in cell
    ensures Split(RestateContent(line, cell), '|') == RowParts(line).value[3 := cell]
    ensures RowParts(RestateContent(line, cell)) == Some(RowParts(line).value[3 := cell])
  {
    var parts := RowParts(line).value;
    NoPipe(line);
    assert forall p <- parts[3 := cell] :: p in parts || p == cell;
    SplitJoin(parts[3 := cell], '|');
  }

  /** The row of a rewritten line: its State cell, and every other cell as it was. */
  lemma {:induction false} RestatedRow(line: string, cell: string)
    requires '|' !in cell
    ensures ParseRow(RestateContent(line, cell))
         == if IsFullRow(line) then Some(ParseRow(line).value.(state := CellText(cell))) else ParseRow(line)
  {
    if IsFullRow(line) { RestatedParts(line, cell); }
    hide CellText, IdOf, Split, Join;
  }

  lemma {:induction false} RestatedTwice(line: string, cell: string)
    requires '|' !in cell
    ensures RestateContent(RestateContent(line, cell), cell) == RestateContent(line, cell)
  {
    if IsFullRow(line) {
      RestatedParts(line, cell);
      assert RowParts(line).value[3 := cell][3 := cell] == RowParts(line).value[3 := cell];
    }
  }

  lemma {:induction false} RestatedUnbroken(line: string, cell: string)
    requires All(line, NotBreak) && IsClean(cell)
    ensures All(RestateContent(line, cell), NotBreak)
  {
    if IsFullRow(line) {
      var parts := RowParts(line).value;
      SplitChars(line, '|', NotBreak);
      assert forall p <- parts[3 := cell] :: p in parts || p == cell;
      JoinChars(parts[3 := cell], '|', NotBreak);
    }
  }

  /** The line with its line end, cut at the newline, has the parts of its content. */
  lemma {:induction false} PartsWithEnd(content: string, e: string)
    requires All(content, NotBreak) && (e == "" || IsLineEnd(e))
    ensures var t := if e != "" && e[|e| - 1] == '\n' then e[..|e| - 1] else e;
            && TrimEnd(content + e, IsNewline) == content + t && Newlines(content + e) == e[|t|..]
            && '|' !in t
            && Split(content + t, '|') == Split(content, '|')[|Split(content, '|')| - 1 := Split(content, '|')[|Split(content, '|')| - 1] + t]
  {
    var t := if e != "" && e[|e| - 1] == '\n' then e[..|e| - 1] else e;
    EndParted(content, e);
    hide Split, TrimEnd, IsLineEnd, All;
    TrimEndUnique(content + t, e[|t|..], IsNewline);
    SplitAppend(content, t, '|');
  }

  lemma {:induction false} EndParted(content: string, e: string)
    requires All(content, NotBreak) && (e == "" || IsLineEnd(e))
    ensures var t := if e != "" && e[|e| - 1] == '\n' then e[..|e| - 1] else e;
            && content + e == (content + t) + e[|t|..] && '|' !in t && All(e[|t|..], IsNewline)
            && (content + t == [] || !IsNewline((content + t)[|content + t| - 1]))
            && (content + e)[|content + t|..] == e[|t|..]
  {
  }

  /** The row test gives the same answer with and without the line end, on every
      line long enough to be rewritten. */
  lemma {:induction false} PartsOfRow(content: string, e: string)
    requires All(content, NotBreak) && (e == "" || IsLineEnd(e))
    ensures var parts := Split(content, '|');
            var whole := RowParts(TrimEnd(content + e, IsNewline));
            && (whole.Some? && |whole.value| >= 5 <==> IsFullRow(content))
            && (RowParts(content).Some? ==> whole.Some? && whole.value[1] == parts[1])
            && (IsFullRow(content) ==> RowParts(content) == Some(parts))
  {
    hide Split, IdOf, TrimEnd, Newlines, IsLineEnd, All;
    PartsWithEnd(content, e);
  }

  /** Rewriting a line rewrites its content and keeps its end. */
  lemma {:induction false} RestateLine(content: string, e: string, cell: string)
    requires All(content, NotBreak) && (e == "" || IsLineEnd(e))
    ensures Restate(content + e, cell) == RestateContent(content, cell) + e
  {
    PartsOfRow(content, e);
    if IsFullRow(content) {
      RestateFull(content, e, cell);
    }
    hide RowParts, TrimEnd, Newlines, IsFullRow;
  }

  /** The parts of a full row, with what the line end adds to the last. */
  lemma {:induction false} RowSplit(content: string, e: string)
    requires All(content, NotBreak) && (e == "" || IsLineEnd(e)) && IsFullRow(content)
    ensures var t := if e != "" && e[|e| - 1] == '\n' then e[..|e| - 1] else e;
            var parts := Split(content, '|');
            var n := |parts| - 1;
            && RowParts(content) == Some(parts) && n >= 4
            && RowParts(TrimEnd(content + e, IsNewline)) == Some(parts[n := parts[n] + t])
            && Newlines(content + e) == e[|t|..]
  {
    PartsOfRow(content, e);
    PartsWithEnd(content, e);
    hide Split, IdOf, TrimEnd, Newlines, IsLineEnd;
  }

  lemma {:induction false} RestateFull(content: string, e: string, cell: string)
    requires All(content, NotBreak) && (e == "" || IsLineEnd(e)) && IsFullRow(content)
    ensures Restate(content + e, cell) == RestateContent(content, cell) + e
  {
    var t := if e != "" && e[|e| - 1] == '\n' then e[..|e| - 1] else e;
    var parts := Split(content, '|');
    var n := |parts| - 1;
    hide Split, IdOf, TrimEnd, Newlines, Join, IsLineEnd, All, IsFullRow, RowParts;
    RowSplit(content, e);
    JoinAppend(parts[3 := cell], t, '|');
    assert parts[n := parts[n] + t][3 := cell] == parts[3 := cell][n := parts[n] + t];
    var whole := Join(parts[3 := cell], '|');
    assert whole + t + e[|t|..] == whole + e;
  }

  // ---------- the lines of a text ----------

  /** One cell, or none, for each line. */
  type Cells = seq<Option<string>>

  predicate CleanCells(cells: Cells, lines: seq<string>) {
    |cells| == |lines| && forall i :: 0 <= i < |cells| && cells[i].Some? ==> IsClean(cells[i].value)
  }

  function RestateMaybe(line: string, cell: Option<string>): string {
    if cell.Some? then Restate(line, cell.value) else line
  }

  function RestateLines(lines: seq<string>, cells: Cells): seq<string>
    requires |cells| == |lines|
  {
    seq(|lines|, i requires 0 <= i < |lines| => RestateMaybe(lines[i], cells[i]))
  }

  /** A text with new State cells on some of its lines. */
  function RestateText(text: string, cells: Cells): string
    requires |cells| == |SplitKeep(text)|
  {
    Concat(RestateLines(SplitKeep(text), cells))
  }

  lemma {:induction false} LineParts(line: string)
    ensures line == Content(line) + LineEnd(line)
  {
  }

  /** A rewritten line has the same line end, and starts as it did. */
  lemma {:induction false} RestatedLine(line: string, cell: Option<string>)
    requires line != "" && All(Content(line), NotBreak) && (LineEnd(line) == "" || IsLineEnd(LineEnd(line)))
    requires cell.Some? ==> IsClean(cell.value)
    ensures var r := RestateMaybe(line, cell);
            && Content(r) == (if cell.Some? then RestateContent(Content(line), cell.value) else Content(line))
            && LineEnd(r) == LineEnd(line) && All(Content(r), NotBreak)
            && r != "" && (r[0] == line[0])
  {
    if cell.Some? {
      var c, e := Content(line), LineEnd(line);
      LineParts(line);
      RestateLine(c, e, cell.value);
      RestatedUnbroken(c, cell.value);
      ContentOf(RestateContent(c, cell.value), e);
      hide Content, LineEnd, Restate, IsFullRow, IsLineEnd;
    }
  }

  lemma {:induction false} GoodLine(text: string, i: nat)
    requires i < |SplitKeep(text)|
    ensures var line := SplitKeep(text)[i];
            && line != "" && All(Content(line), NotBreak) && (LineEnd(line) == "" || IsLineEnd(LineEnd(line)))
            && i < |SplitLines(text)| && SplitLines(text)[i] == Content(line)
  {
    SplitKeepGood(text);
    SplitContents(text);
    hide Content, LineEnd;
  }

  /** Splitting the rewritten text gives the rewritten lines. */
  lemma {:induction false} RestatedSplit(text: string, cells: Cells)
    requires CleanCells(cells, SplitKeep(text))
    ensures SplitKeep(RestateText(text, cells)) == RestateLines(SplitKeep(text), cells)
  {
    var lines, after := SplitKeep(text), RestateLines(SplitKeep(text), cells);
    SplitKeepGood(text);
    forall i | 0 <= i < |lines|
      ensures LineEnd(after[i]) == LineEnd(lines[i]) && All(Content(after[i]), NotBreak) && after[i] != "" && after[i][0] == lines[i][0]
    {
      GoodLine(text, i);
      RestatedLine(lines[i], cells[i]);
    }
    hide Content, LineEnd, RestateMaybe, SplitKeep, IsClean;
    assert GoodLines(after);
    Resplit(after);
  }

  /** The contents of the rewritten text, line by line. */
  lemma {:induction false} RestatedContents(text: string, cells: Cells)
    requires CleanCells(cells, SplitKeep(text))
    ensures |SplitLines(RestateText(text, cells))| == |SplitLines(text)| == |cells|
    ensures forall i :: 0 <= i < |cells| ==>
      SplitLines(RestateText(text, cells))[i]
      == if cells[i].Some? then RestateContent(SplitLines(text)[i], cells[i].value) else SplitLines(text)[i]
  {
    SplitContents(text);
    SplitContents(RestateText(text, cells));
    RestatedSplit(text, cells);
    hide Content, LineEnd, RestateMaybe, IsClean, RestateContent, SplitKeep, SplitLines;
    forall i | 0 <= i < |cells|
      ensures SplitLines(RestateText(text, cells))[i]
           == if cells[i].Some? then RestateContent(SplitLines(text)[i], cells[i].value) else SplitLines(text)[i]
    {
      GoodLine(text, i);
      RestatedLine(SplitKeep(text)[i], cells[i]);
    }
  }

  // ---------- rows and states ----------

  /** The rows of two lines differ in nothing but the State cell. */
  predicate SameButState(a: Row, b: Row) { b == a.(state := b.state) }

  predicate SimilarLines(a: string, b: string) {
    && (ParseRow(a).Some? <==> ParseRow(b).Some?)
    && (ParseRow(a).Some? ==> SameButState(ParseRow(a).value, ParseRow(b).value))
  }

  predicate SimilarRows(a: seq<Row>, b: seq<Row>) {
    |a| == |b| && forall i :: 0 <= i < |a| ==> SameButState(a[i], b[i])
  }

  lemma {:induction false} SimilarParse(a: seq<string>, b: seq<string>)
    requires |a| == |b| && forall i :: 0 <= i < |a| ==> SimilarLines(a[i], b[i])
    ensures SimilarRows(ParseRows(a), ParseRows(b))
  {
    hide ParseRow;
    if a != [] {
      var n := |a| - 1;
      assert forall i :: 0 <= i < n ==> a[..n][i] == a[i] && b[..n][i] == b[i];
      SimilarParse(a[..n], b[..n]);
      assert SimilarLines(a[n], b[n]);
    }
  }

  /** The derivation reads the ids and the evidence, never the State cells. */
  lemma {:induction false} DerivationIgnoresState(a: seq<Row>, b: seq<Row>, tree: Tree)
    requires SimilarRows(a, b)
    ensures DeriveRows(a, tree) == DeriveRows(b, tree)
  {
    hide Derive, SameButState;
    if a != [] {
      var n := |a| - 1;
      assert forall i :: 0 <= i < n ==> a[..n][i] == a[i] && b[..n][i] == b[i];
      DerivationIgnoresState(a[..n], b[..n], tree);
      assert SameButState(a[n], b[n]);
      RowIgnoresState(a[n], b[n], tree);
    }
  }

  lemma {:induction false} RowIgnoresState(a: Row, b: Row, tree: Tree)
    requires SameButState(a, b)
    ensures a.id == b.id && Derive(a, tree) == Derive(b, tree)
  {
  }

  lemma {:induction false} RestatedSimilar(text: string, cells: Cells)
    requires CleanCells(cells, SplitKeep(text))
    ensures var a, b := SplitLines(text), SplitLines(RestateText(text, cells));
            |a| == |b| && forall i :: 0 <= i < |a| ==> SimilarLines(a[i], b[i])
  {
    RestatedContents(text, cells);
    hide ParseRow, RestateContent, SplitLines, SplitKeep, RestateText;
    forall i | 0 <= i < |cells| ensures SimilarLines(SplitLines(text)[i], SplitLines(RestateText(text, cells))[i]) {
      if cells[i].Some? { RestatedRow(SplitLines(text)[i], cells[i].value); }
    }
  }

  // ---------- the anchor and the counts ----------

  predicate SimilarPieces(a: string, b: string) { a == b || ('|' in a && '|' in b) }

  predicate SimilarSplits(a: seq<string>, b: seq<string>) {
    |a| == |b| && forall i :: 0 <= i < |a| ==> SimilarPieces(a[i], b[i])
  }

  lemma {:induction false} HexLineHasNoPipe(line: string)
    requires ShaLine(line).Some?
    ensures '|' !in line
  {
  }

  lemma {:induction false} CountHasNoPipe(s: string, after: string)
    requires CountThen(s, after).Some? && '|' !in after && '|' !in CountThen(s, after).value.1
    ensures '|' !in s
  {
    var d := RunLength(s, IsDigit);
    RunAll(s, IsDigit);
    assert s == s[..d] + after + s[d + |after|..];
    assert forall c <- s[..d] :: IsDigit(c);
  }

  lemma {:induction false} CountLineHasNoPipe(line: string)
    requires CountLine(line).Some?
    ensures '|' !in line
  {
    hide CountThen;
    var s := line[|COUNT_A|..];
    CountHasNoPipe(CountThen(s, COUNT_B).value.1, COUNT_C);
    CountHasNoPipe(s, COUNT_B);
    assert line == COUNT_A + s;
  }

  lemma {:induction false} SameFirst<T>(a: seq<string>, b: seq<string>, read: string -> Option<T>)
    requires SimilarSplits(a, b) && forall p: string :: '|' in p ==> read(p) == None
    ensures FirstOf(a, read) == FirstOf(b, read)
  {
    if a != [] {
      assert SimilarPieces(a[0], b[0]);
      assert forall i :: 0 <= i < |a| - 1 ==> a[1..][i] == a[i + 1] && b[1..][i] == b[i + 1];
      SameFirst(a[1..], b[1..], read);
    }
  }

  /** One line in front: it ends a piece when it ends with a newline. */
  lemma {:induction false} SplitLine(line: string, rest: string)
    requires All(Content(line), NotBreak) && (LineEnd(line) == "" || IsLineEnd(LineEnd(line)))
    ensures var e := LineEnd(line);
            if e != "" && e[|e| - 1] == '\n'
            then Split(line + rest, '\n') == [line[..|line| - 1]] + Split(rest, '\n')
            else Split(line + rest, '\n') == [line + Split(rest, '\n')[0]] + Split(rest, '\n')[1..]
  {
    var c, e := Content(line), LineEnd(line);
    LineParts(line);
    assert '\n' !in c by { assert forall i :: 0 <= i < |c| ==> NotBreak(c[i]); }
    if e != "" && e[|e| - 1] == '\n' {
      assert line == line[..|line| - 1] + ['\n'] && line[..|line| - 1] == c + e[..|e| - 1];
      SplitPart(line[..|line| - 1], rest, '\n');
    } else {
      assert '\n' !in line;
      SplitPrefix(line, rest, '\n');
    }
  }

  predicate SimilarLine(a: string, b: string) {
    && SimilarPieces(Content(a), Content(b)) && LineEnd(a) == LineEnd(b)
    && All(Content(a), NotBreak) && All(Content(b), NotBreak)
    && (LineEnd(a) == "" || IsLineEnd(LineEnd(a)))
  }

  lemma {:induction false} SimilarTail(p: string, q: string, s: seq<string>, t: seq<string>)
    requires SimilarPieces(p, q) && SimilarSplits(s, t)
    ensures SimilarSplits([p] + s, [q] + t)
    ensures s != [] ==> SimilarSplits([p + s[0]] + s[1..], [q + t[0]] + t[1..])
  {
  }

  lemma {:induction false} SimilarFront(a: string, b: string, s: string, t: string)
    requires SimilarLine(a, b) && SimilarSplits(Split(s, '\n'), Split(t, '\n'))
    ensures SimilarSplits(Split(a + s, '\n'), Split(b + t, '\n'))
  {
    SplitLine(a, s);
    SplitLine(b, t);
    LineParts(a);
    LineParts(b);
    hide Content, LineEnd, Split, SimilarPieces, SimilarSplits;
    var e := LineEnd(a);
    if e != "" && e[|e| - 1] == '\n' {
      assert a[..|a| - 1] == Content(a) + e[..|e| - 1] && b[..|b| - 1] == Content(b) + e[..|e| - 1];
      SimilarTail(a[..|a| - 1], b[..|b| - 1], Split(s, '\n'), Split(t, '\n'));
    } else {
      SimilarTail(a, b, Split(s, '\n'), Split(t, '\n'));
    }
  }

  lemma {:induction false} SimilarConcat(a: seq<string>, b: seq<string>)
    requires |a| == |b| && forall i :: 0 <= i < |a| ==> SimilarLine(a[i], b[i])
    ensures SimilarSplits(Split(Concat(a), '\n'), Split(Concat(b), '\n'))
  {
    hide SimilarLine;
    if a != [] {
      assert forall i :: 0 <= i < |a| - 1 ==> a[1..][i] == a[i + 1] && b[1..][i] == b[i + 1];
      SimilarConcat(a[1..], b[1..]);
      SimilarFront(a[0], b[0], Concat(a[1..]), Concat(b[1..]));
    }
  }

  lemma {:induction false} RestatedPieces(line: string, cell: string)
    requires '|' !in cell
    ensures SimilarPieces(line, RestateContent(line, cell))
  {
  }

  lemma {:induction false} RestatedAnchors(text: string, cells: Cells)
    requires CleanCells(cells, SplitKeep(text))
    ensures FirstOf(Split(RestateText(text, cells), '\n'), ShaLine) == FirstOf(Split(text, '\n'), ShaLine)
    ensures FirstOf(Split(RestateText(text, cells), '\n'), CountLine) == FirstOf(Split(text, '\n'), CountLine)
  {
    var lines, after := SplitKeep(text), RestateLines(SplitKeep(text), cells);
    SplitKeepGood(text);
    hide Content, LineEnd, RestateMaybe, RestateContent, SplitKeep, ShaLine, CountLine;
    forall i | 0 <= i < |lines| ensures SimilarLine(lines[i], after[i]) {
      GoodLine(text, i);
      RestatedLine(lines[i], cells[i]);
      if cells[i].Some? { RestatedPieces(Content(lines[i]), cells[i].value); }
    }
    SimilarConcat(lines, after);
    forall p: string | '|' in p ensures ShaLine(p) == None && CountLine(p) == None {
      if ShaLine(p).Some? { HexLineHasNoPipe(p); }
      if CountLine(p).Some? { CountLineHasNoPipe(p); }
    }
    SameFirst(Split(text, '\n'), Split(Concat(after), '\n'), ShaLine);
    SameFirst(Split(text, '\n'), Split(Concat(after), '\n'), CountLine);
  }

  // ---------- the theorems ----------

  /** Whatever pipe-free text the State cells hold, the board parses to the same
      anchor, counts and rows but for those cells, and the tree gives it the same
      states, failures and number of needles read. */
  lemma {:induction false} StateCellsAreNotRead(text: string, cells: Cells, tree: Tree)
    requires CleanCells(cells, SplitKeep(text))
    ensures var a, b := Parse(text), Parse(RestateText(text, cells));
            && b == a.(rows := b.rows) && SimilarRows(a.rows, b.rows)
            && DeriveRows(b.rows, tree) == DeriveRows(a.rows, tree)
  {
    RestatedSimilar(text, cells);
    RestatedAnchors(text, cells);
    SimilarParse(SplitLines(text), SplitLines(RestateText(text, cells)));
    DerivationIgnoresState(Parse(text).rows, Parse(RestateText(text, cells)).rows, tree);
    hide SplitLines, SplitKeep, RestateText, DeriveRows, ParseRows, ShaLine, CountLine, Split;
  }

  predicate CleanStates(states: map<string, string>) {
    forall id <- states :: IsClean(states[id])
  }

  lemma {:induction false} DerivedStates(rows: seq<Row>, tree: Tree)
    ensures forall id <- DeriveRows(rows, tree).states ::
      DeriveRows(rows, tree).states[id] == PENDING || DeriveRows(rows, tree).states[id] == DONE
      || DeriveRows(rows, tree).states[id] == UNPINNED
  {
    if rows != [] { DerivedStates(rows[..|rows| - 1], tree); }
  }

  /** The cells that rendering writes. */
  function CellsOf(lines: seq<string>, states: map<string, string>): Cells {
    seq(|lines|, i requires 0 <= i < |lines| => CellFor(lines[i], states))
  }

  function CellFor(line: string, states: map<string, string>): Option<string> {
    match RowParts(TrimEnd(line, IsNewline))
    case None => None
    case Some(parts) =>
      if IdOf(parts[1]).value in states then Some(" " + states[IdOf(parts[1]).value] + " ") else None
  }

  lemma {:induction false} RenderIsRestate(text: string, states: map<string, string>)
    requires CleanStates(states)
    ensures CleanCells(CellsOf(SplitKeep(text), states), SplitKeep(text))
    ensures Render(text, states) == RestateText(text, CellsOf(SplitKeep(text), states))
  {
    hide SplitKeep, Concat, Restate, IdOf, TrimEnd;
    var lines := SplitKeep(text);
    assert RenderLines(lines, states) == RestateLines(lines, CellsOf(lines, states));
    forall i | 0 <= i < |lines| && CellFor(lines[i], states).Some? ensures IsClean(CellFor(lines[i], states).value) {
      var id := IdOf(RowParts(TrimEnd(lines[i], IsNewline)).value[1]).value;
      assert IsClean(states[id]);
    }
  }

  lemma {:induction false} StatesAreClean(text: string, tree: Tree)
    ensures CleanStates(StatesOf(text, tree))
  {
    DerivedStates(Parse(text).rows, tree);
    hide DeriveRows;
    assert IsClean(PENDING) && IsClean(DONE) && IsClean(UNPINNED);
  }

  /** A rendered line renders to itself. */
  lemma {:induction false} RenderLineTwice(line: string, states: map<string, string>)
    requires line != "" && All(Content(line), NotBreak) && (LineEnd(line) == "" || IsLineEnd(LineEnd(line)))
    requires CleanStates(states)
    ensures RenderLine(RenderLine(line, states), states) == RenderLine(line, states)
  {
    var c, e := Content(line), LineEnd(line);
    LineParts(line);
    PartsOfRow(c, e);
    if IsFullRow(c) {
      var id := IdOf(RowParts(c).value[1]).value;
      if id in states {
        var cell := " " + states[id] + " ";
        assert IsClean(states[id]) && IsClean(cell);
        RestateLine(c, e, cell);
        RestatedParts(c, cell);
        RestatedUnbroken(c, cell);
        RestatedTwice(c, cell);
        PartsOfRow(RestateContent(c, cell), e);
        RestateLine(RestateContent(c, cell), e, cell);
      }
    }
    hide Content, LineEnd, RestateContent, IdOf, TrimEnd, Newlines, IsLineEnd;
  }

  /** Rendering twice is rendering once. */
  lemma {:induction false} RenderTwice(text: string, states: map<string, string>)
    requires CleanStates(states)
    ensures Render(Render(text, states), states) == Render(text, states)
  {
    var lines := SplitKeep(text);
    RenderIsRestate(text, states);
    RestatedSplit(text, CellsOf(lines, states));
    hide Content, LineEnd, SplitKeep, Restate, TrimEnd, IdOf;
    var rendered := RenderLines(lines, states);
    assert SplitKeep(Render(text, states)) == rendered by {
      assert rendered == RestateLines(lines, CellsOf(lines, states));
    }
    forall i | 0 <= i < |lines| ensures RenderLine(rendered[i], states) == rendered[i] {
      GoodLine(text, i);
      RenderLineTwice(lines[i], states);
    }
    hide RenderLine;
    assert RenderLines(rendered, states) == rendered;
  }

  /** The fixpoint: on the rendered board the tree derives the same states, and
      rendering it again changes nothing; the anchor, the counts and every row but
      for its State cell are those of the board before. */
  lemma {:induction false} RenderedBoard(text: string, tree: Tree)
    ensures var states := StatesOf(text, tree);
            var rendered := Render(text, states);
            && StatesOf(rendered, tree) == states
            && Render(rendered, states) == rendered
            && Parse(rendered) == Parse(text).(rows := Parse(rendered).rows)
            && SimilarRows(Parse(text).rows, Parse(rendered).rows)
  {
    hide SplitKeep, DeriveRows, Parse, Render, RestateText;
    var states := StatesOf(text, tree);
    StatesAreClean(text, tree);
    RenderIsRestate(text, states);
    RenderTwice(text, states);
    StateCellsAreNotRead(text, CellsOf(SplitKeep(text), states), tree);
  }

  // ---------- each row's own state ----------

  lemma {:induction false} PaddedCell(state: string)
    requires state == PENDING || state == DONE || state == UNPINNED
    ensures CellText(" " + state + " ") == state
  {
    TrimPadded(" ", state, " ", IsPySpace);
    TrimPadded("", state, "", IsPySpace);
    assert "" + state + "" == state;
  }

  /** A row whose state the tree decides has an evidence cell. */
  lemma {:induction false} DerivedRowIsFull(line: string, tree: Tree)
    requires ParseRow(line).Some? && Derive(ParseRow(line).value, tree).State?
    ensures IsFullRow(line)
  {
  }

  /** Rendering a full row whose id has a state writes that state. */
  lemma {:induction false} RenderedFullRow(line: string, states: map<string, string>)
    requires All(Content(line), NotBreak) && (LineEnd(line) == "" || IsLineEnd(LineEnd(line)))
    requires IsFullRow(Content(line)) && ParseRow(Content(line)).value.id in states
    ensures RenderLine(line, states)
         == Restate(line, " " + states[ParseRow(Content(line)).value.id] + " ")
  {
    LineParts(line);
    PartsOfRow(Content(line), LineEnd(line));
    hide Content, LineEnd, Restate, IdOf, TrimEnd, IsLineEnd, Split, CellAt;
  }

  lemma {:induction false} PaddedIsClean(state: string)
    requires IsClean(state)
    ensures IsClean(" " + state + " ")
  {
  }

  lemma {:induction false} RenderedLineRow(line: string, states: map<string, string>, tree: Tree)
    requires line != "" && All(Content(line), NotBreak) && (LineEnd(line) == "" || IsLineEnd(LineEnd(line)))
    requires CleanStates(states) && ParseRow(Content(line)).Some?
    requires Derive(ParseRow(Content(line)).value, tree).State? && ParseRow(Content(line)).value.id in states
    ensures var row := ParseRow(Content(line)).value;
            ParseRow(Content(RenderLine(line, states))) == Some(row.(state := CellText(" " + states[row.id] + " ")))
  {
    var c := Content(line);
    var state := states[ParseRow(c).value.id];
    var cell := " " + state + " ";
    assert IsClean(state);
    hide *;
    PaddedIsClean(state);
    DerivedRowIsFull(c, tree);
    RenderedFullRow(line, states);
    RestatedRendering(line, cell);
  }

  lemma {:induction false} RestatedRendering(line: string, cell: string)
    requires line != "" && All(Content(line), NotBreak) && (LineEnd(line) == "" || IsLineEnd(LineEnd(line)))
    requires IsClean(cell) && IsFullRow(Content(line))
    ensures ParseRow(Content(Restate(line, cell))) == Some(ParseRow(Content(line)).value.(state := CellText(cell)))
  {
    RestatedLine(line, Some(cell));
    RestatedRow(Content(line), cell);
    hide Content, LineEnd, RestateContent, Restate, ParseRow, CellText, IsFullRow;
  }

  lemma {:induction false} DerivedIdIsKnown(rows: seq<Row>, tree: Tree, row: Row)
    requires row in rows && Derive(row, tree).State?
    ensures row.id in DeriveRows(rows, tree).states
  {
    var n := |rows| - 1;
    if row in rows[..n] { DerivedIdIsKnown(rows[..n], tree, row); } else { assert row == rows[n]; }
    hide Derive;
  }

  lemma {:induction false} RowOfLine(lines: seq<string>, i: nat)
    requires i < |lines| && ParseRow(lines[i]).Some?
    ensures ParseRow(lines[i]).value in ParseRows(lines)
  {
    hide ParseRow;
    var n := |lines| - 1;
    if i < n {
      assert lines[..n][i] == lines[i];
      RowOfLine(lines[..n], i);
    }
  }

  /** Every row that derives shows, on the rendered board, the state the tree gives
      its id; every line that is not a row is as it was. */
  lemma {:induction false} EveryRowShowsItsState(text: string, tree: Tree, i: nat)
    requires i < |SplitLines(text)|
    ensures var states := StatesOf(text, tree);
            var before, after := SplitLines(text), SplitLines(Render(text, states));
            && |after| == |before|
            && (ParseRow(before[i]) == None ==> after[i] == before[i])
            && (ParseRow(before[i]).Some? && Derive(ParseRow(before[i]).value, tree).State? ==>
                  && ParseRow(before[i]).value.id in states
                  && ParseRow(after[i]) == Some(ParseRow(before[i]).value.(state := states[ParseRow(before[i]).value.id])))
  {
    var states := StatesOf(text, tree);
    var lines := SplitKeep(text);
    StatesAreClean(text, tree);
    RenderIsRestate(text, states);
    RestatedContents(text, CellsOf(lines, states));
    RestatedSplit(text, CellsOf(lines, states));
    SplitContents(text);
    SplitContents(Render(text, states));
    GoodLine(text, i);
    hide SplitKeep, Derive, Content, LineEnd, RestateContent, Restate, IdOf, TrimEnd, CellText, DeriveRows, IsLineEnd;
    var row := ParseRow(SplitLines(text)[i]);
    if row == None {
      assert !IsFullRow(SplitLines(text)[i]);
    } else if Derive(row.value, tree).State? {
      RowOfLine(SplitLines(text), i);
      DerivedIdIsKnown(Parse(text).rows, tree, row.value);
      DerivedStates(Parse(text).rows, tree);
      PaddedCell(states[row.value.id]);
      RenderedLineRow(lines[i], states, tree);
      assert SplitKeep(Render(text, states))[i] == RenderLine(lines[i], states);
    }
  }

  // ---------- comments are not evidence ----------

  /** A comment added to a line of a file that is not Python is not seen. */
  lemma {:induction false} CommentIsNotCode(line: string, comment: string)
    ensures CodeLine(line + " #" + comment) == CodeLine(line)
  {
    CommentLength(line, comment, 0);
  }

  lemma {:induction false} CommentLength(line: string, comment: string, from: nat)
    requires from <= |line|
    ensures CodeLength(line + " #" + comment, from) == CodeLength(line, from)
    decreases |line| - from
  {
    var more := line + " #" + comment;
    if from == |line| {
      assert CommentAt(more, from);
    } else {
      assert more[from] == line[from] && more[from + 1] == if from + 1 < |line| then line[from + 1] else ' ';
      assert CommentAt(more, from) <==> CommentAt(line, from);
      CommentLength(line, comment, from + 1);
    }
  }
}
