/** The lines of a requirement document as they are written: what is seen of them, the
    cells of their rows, and the requirements that their headings declare. */
module FrCompletenessLines {
  import opened Text
  import opened FrCompleteness

  // ---------- cells ----------

  /** A cell as it is written: every pipe behind a backslash. */
  function Escape(cell: string): string {
    if cell == "" then "" else (if cell[0] == '|' then "\\|" else [cell[0]]) + Escape(cell[1..])
  }

  /** A row as it is written. */
  function RowText(cells: seq<string>): string {
    if cells == [] then "|" else "|" + ((" " + Escape(cells[0]) + " ") + RowText(cells[1..]))
  }

  predicate IsTrimmed(cell: string) { cell == "" || (!IsPySpace(cell[0]) && !IsPySpace(cell[|cell| - 1])) }

  lemma {:induction false} EscapeComesOff(cell: string)
    ensures Unescape(Escape(cell)) == cell
  {
    if cell != "" {
      EscapeComesOff(cell[1..]);
      var rest := Escape(cell[1..]);
      if cell[0] == '|' {
        assert ("\\|" + rest)[2..] == rest && ("\\|" + rest)[..2] == "\\|";
      } else {
        EscapeStart(cell[1..]);
        var s := [cell[0]] + rest;
        assert s[1..] == rest && s[0] == cell[0] && (|s| >= 2 ==> s[1] == rest[0]);
        assert !("\\|" <= s);
      }
    }
  }

  lemma {:induction false} EscapeStart(cell: string)
    ensures Escape(cell) != "" ==> Escape(cell)[0] != '|'
  {
  }

  lemma {:induction false} EscapeTrimmed(cell: string)
    requires IsTrimmed(cell)
    ensures IsTrimmed(Escape(cell))
  {
    if cell != "" { EscapeEnds(cell); }
  }

  lemma {:induction false} EscapeEnds(cell: string)
    requires cell != ""
    ensures var e := Escape(cell); e != "" && (e[0] == cell[0] || e[0] == '\\') && e[|e| - 1] == cell[|cell| - 1]
  {
    if |cell| > 1 { EscapeEnds(cell[1..]); } else { assert Escape(cell[1..]) == ""; }
  }

  lemma {:induction false} SplitStep(c: char, tail: string, escaped: bool)
    requires c != '|' || escaped
    ensures var rest := SplitCells(tail, c == '\\'); SplitCells([c] + tail, escaped) == [[c] + rest[0]] + rest[1..]
    ensures SplitCells("|" + tail, false) == [""] + SplitCells(tail, false)
  {
    assert ([c] + tail)[1..] == tail && ("|" + tail)[1..] == tail;
  }

  /** An escaped cell holds no boundary. */
  lemma {:induction false} NoBoundary(cell: string, rest: string, escaped: bool)
    ensures SplitCells(Escape(cell) + (" |" + rest), escaped) == [Escape(cell) + " "] + SplitCells(rest, false)
  {
    hide SplitCells;
    var behind := SplitCells(rest, false);
    if cell == "" {
      assert Escape(cell) + (" |" + rest) == [' '] + ("|" + rest);
      SplitStep(' ', "|" + rest, escaped);
      SplitStep(' ', rest, escaped);
      assert [' '] + "" == "" + " ";
    } else {
      var e := Escape(cell[1..]);
      var tail := e + (" |" + rest);
      NoBoundary(cell[1..], rest, cell[0] == '\\');
      hide Escape;
      if cell[0] == '|' {
        assert Escape(cell) == "\\|" + e by { EscapeStep(cell); }
        SplitStep('|', tail, true);
        SplitStep('\\', "|" + tail, escaped);
        assert "\\|" + e + (" |" + rest) == ['\\'] + (['|'] + tail);
        assert ['\\'] + (['|'] + (e + " ")) == "\\|" + e + " ";
      } else {
        assert Escape(cell) == [cell[0]] + e by { EscapeStep(cell); }
        SplitStep(cell[0], tail, escaped);
        assert [cell[0]] + e + (" |" + rest) == [cell[0]] + tail;
        assert [cell[0]] + (e + " ") == [cell[0]] + e + " ";
      }
    }
  }

  lemma {:induction false} EscapeStep(cell: string)
    requires cell != ""
    ensures Escape(cell) == (if cell[0] == '|' then "\\|" else [cell[0]]) + Escape(cell[1..])
  {
  }

  /** The parts between the boundaries of a written row. */
  function RowPieces(cells: seq<string>): seq<string> {
    if cells == [] then [""] else [" " + Escape(cells[0]) + " "] + RowPieces(cells[1..])
  }

  lemma {:induction false} RowSplits(cells: seq<string>)
    ensures SplitCells(RowText(cells), false) == [""] + RowPieces(cells)
  {
    hide SplitCells, Escape;
    if cells == [] {
      SplitStep(' ', "", false);
      NothingSplits();
      assert "|" + "" == "|";
    } else {
      var rest := RowText(cells[1..])[1..];
      RowSplits(cells[1..]);
      PipeFirst(cells[1..]);
      NoBoundary(cells[0], rest, false);
      SplitStep(' ', rest, false);
      RowStep(cells, rest, Escape(cells[0]));
    }
  }

  lemma {:induction false} NothingSplits()
    ensures SplitCells("", false) == [""]
  {
  }

  lemma {:induction false} RowStep(cells: seq<string>, rest: string, e: string)
    requires cells != [] && RowText(cells[1..]) == "|" + rest && e == Escape(cells[0])
    requires SplitCells("|" + rest, false) == [""] + RowPieces(cells[1..]) == [""] + SplitCells(rest, false)
    requires SplitCells(e + (" |" + rest), false) == [e + " "] + SplitCells(rest, false)
    ensures SplitCells(RowText(cells), false) == [""] + RowPieces(cells)
  {
    hide SplitCells, Escape;
    var body := e + (" |" + rest);
    assert RowText(cells) == "|" + ([' '] + body);
    SplitStep(' ', body, false);
    SplitStep(' ', [' '] + body, false);
    assert RowPieces(cells[1..]) == SplitCells(rest, false) by {
      assert ([""] + RowPieces(cells[1..]))[1..] == RowPieces(cells[1..]);
      assert ([""] + SplitCells(rest, false))[1..] == SplitCells(rest, false);
    }
    assert [' '] + (e + " ") == " " + e + " ";
  }

  lemma {:induction false} PipeFirst(cells: seq<string>)
    ensures RowText(cells) != "" && RowText(cells)[0] == '|' && RowText(cells)[|RowText(cells)| - 1] == '|'
    ensures RowText(cells) == "|" + RowText(cells)[1..]
  {
    if cells != [] { PipeFirst(cells[1..]); }
  }

  lemma {:induction false} PiecesAre(cells: seq<string>)
    ensures |RowPieces(cells)| == |cells| + 1 && RowPieces(cells)[|cells|] == ""
    ensures forall i | 0 <= i < |cells| :: RowPieces(cells)[i] == " " + Escape(cells[i]) + " "
  {
    if cells != [] { PiecesAre(cells[1..]); }
  }

  lemma {:induction false} PieceIsCell(cell: string)
    requires IsTrimmed(cell)
    ensures Unescape(Strip(" " + Escape(cell) + " ")) == cell
  {
    EscapeTrimmed(cell);
    TrimPadded(" ", Escape(cell), " ", IsPySpace);
    EscapeComesOff(cell);
  }

  lemma {:induction false} CellsOfPieces(line: string, pieces: seq<string>)
    requires SplitCells(Strip(line), false) == [""] + pieces + [""]
    ensures Cells(line) == seq(|pieces|, i requires 0 <= i < |pieces| => Unescape(Strip(pieces[i])))
  {
    TrimEmpty("", IsPySpace);
    assert Strip("") == "";
    var a := SplitCells(Strip(line), false);
    assert a[0] == "" && a[1..] == pieces + [""];
    assert (pieces + [""])[..|pieces|] == pieces;
  }

  /** A written row is read as its cells, pipes and empty cells included. */
  lemma {:induction false} CellsAreRead(cells: seq<string>)
    requires forall cell <- cells :: IsTrimmed(cell)
    ensures Cells(RowText(cells)) == cells && PipeRow(RowText(cells))
  {
    var line := RowText(cells);
    PipeFirst(cells);
    RowSplits(cells);
    PiecesAre(cells);
    hide SplitCells, RowText, RowPieces, Escape, Unescape, Cells, Strip, IsTrimmed;
    NotBlankEnds(line);
    var pieces := RowPieces(cells)[..|cells|];
    assert [""] + RowPieces(cells) == [""] + pieces + [""];
    CellsOfPieces(line, pieces);
    forall i | 0 <= i < |cells| ensures Unescape(Strip(pieces[i])) == cells[i] { PieceIsCell(cells[i]); }
  }

  lemma {:induction false} NotBlankEnds(line: string)
    requires line != "" && line[0] == '|' && line[|line| - 1] == '|'
    ensures Strip(line) == line
  {
    assert "" + line + "" == line;
    TrimPadded("", line, "", IsPySpace);
  }

  lemma {:induction false} EndKeeps(s: string, n: nat)
    requires n <= |s| && (n > 0 ==> !IsPySpace(s[n - 1]))
    ensures var r := TrimEnd(s, IsPySpace); n <= |r| && r[..n] == s[..n]
  {
    hide IsPySpace;
    if n < |s| && IsPySpace(s[|s| - 1]) { EndKeeps(s[..|s| - 1], n); }
  }

  /** The stripped line starts with these characters, none of them blank. */
  ghost predicate StartsAt(line: string, part: string, i: int) {
    0 <= i && i + |part| <= |line| && line[i..i + |part|] == part && forall k | 0 <= k < i :: IsPySpace(line[k])
  }

  lemma {:induction false} StartsBehind(a: string, core: string, b: string, part: string)
    requires All(a, IsPySpace) && part <= core
    ensures StartsAt(a + core + b, part, |a|)
  {
    hide IsPySpace;
    assert (a + core + b)[|a|..|a| + |part|] == core[..|part|];
  }

  lemma {:induction false} StartIsKept(line: string, part: string, i: int)
    requires StartsAt(line, part, i) && part != "" && !IsPySpace(part[0]) && !IsPySpace(part[|part| - 1])
    ensures part <= Strip(line)
  {
    hide IsPySpace, TrimEnd;
    var pre, core := line[..i], line[i..];
    assert core[..|part|] == part && core[0] == part[0] && core[|part| - 1] == part[|part| - 1];
    TrimStartUnique(pre, core, IsPySpace);
    assert line == pre + core;
    hide TrimStart;
    EndKeeps(core, |part|);
  }

  lemma {:induction false} StripStarts(line: string, part: string)
    requires part != "" && !IsPySpace(part[0]) && !IsPySpace(part[|part| - 1])
    ensures part <= Strip(line) <==> exists i :: StartsAt(line, part, i)
  {
    TrimParts(line, IsPySpace);
    hide IsPySpace, Trim, Before, After, StartsAt, All;
    if part <= Strip(line) { StartsBehind(Before(line, IsPySpace), Strip(line), After(line, IsPySpace), part); }
    if i :| StartsAt(line, part, i) { StartIsKept(line, part, i); }
  }

  /** A line is a row of pipes exactly when a pipe is the first thing on it. */
  lemma {:induction false} PipeRowExactly(line: string)
    ensures PipeRow(line) <==> exists i :: StartsAt(line, "|", i)
  {
    StripStarts(line, "|");
    hide Strip, StartsAt;
  }

  /** The line under a header: every cell of hyphens and colons. */
  lemma {:induction false} RuleIsSeparator(cells: seq<string>)
    requires forall cell <- cells :: IsTrimmed(cell)
    ensures IsSeparator(Cells(RowText(cells))) <==>
      cells != [] && forall cell <- cells :: cell != "" && forall c <- cell :: c == '-' || c == ':'
  {
    CellsAreRead(cells);
    forall cell ensures All(cell, IsRule) <==> forall c <- cell :: c == '-' || c == ':' { RuleCell(cell); }
    hide Cells, RowText, All;
  }

  lemma {:induction false} RuleCell(cell: string)
    ensures All(cell, IsRule) <==> forall c <- cell :: c == '-' || c == ':'
  {
    if forall c <- cell :: c == '-' || c == ':' {
      forall i | 0 <= i < |cell| ensures IsRule(cell[i]) { assert cell[i] in cell; }
    }
  }

  // ---------- fences, titles and headings ----------

  lemma {:induction false} FenceExactly(line: string)
    ensures Fence(line) <==> exists i :: StartsAt(line, "```", i) || StartsAt(line, "~~~", i)
  {
    StripStarts(line, "```");
    StripStarts(line, "~~~");
    hide Strip, StartsAt;
  }

  /** A heading: one to six hashes and a blank. */
  lemma {:induction false} HeadingLineExactly(line: string)
    ensures IsHeading(line) <==>
      exists n | 1 <= n <= 6 :: n < |line| && (forall k | 0 <= k < n :: line[k] == '#') && IsPySpace(line[n])
  {
    var n := RunLength(line, IsHash);
    RunAll(line, IsHash);
    if IsHeading(line) { assert forall k | 0 <= k < n :: line[k] == line[..n][k]; }
    if m :| 1 <= m <= 6 && m < |line| && (forall k | 0 <= k < m :: line[k] == '#') && IsPySpace(line[m]) {
      assert line == line[..m] + line[m..] && line[m..][0] == line[m];
      RunExact(line[..m], line[m..], IsHash);
    }
  }

  /** A title: one hash, a blank, and anything. */
  lemma {:induction false} TitleLineExactly(line: string)
    ensures IsTitle(line) <==> exists c, rest: string :: IsPySpace(c) && line == ['#', c] + rest
  {
    if IsTitle(line) { assert line == ['#', line[1]] + line[2..]; }
    hide IsPySpace;
  }

  // ---------- the requirements that headings declare ----------

  predicate IsRequirement(id: string) {
    || ("FR-" <= id && |id| == 6 && All(id[3..], IsDigit))
    || ("NFR-" <= id && |id| == 7 && All(id[4..], IsDigit))
  }

  /** Two hashes, blanks, the id, and nothing that could go on a word. */
  ghost predicate Declares(line: string, id: string) {
    exists blanks: string, rest: string ::
      && IsRequirement(id) && blanks != "" && All(blanks, IsPySpace) && (rest == "" || !IsWord(rest[0]))
      && line == "##" + (blanks + (id + rest))
  }

  lemma {:induction false} HeadingIsRead(blanks: string, id: string, rest: string)
    requires IsRequirement(id) && blanks != "" && All(blanks, IsPySpace) && (rest == "" || !IsWord(rest[0]))
    ensures HeadingId("##" + (blanks + (id + rest))) == Some(id)
  {
    var s := id + rest;
    var line := "##" + (blanks + s);
    assert line[2..] == blanks + s && line[..2] == "##";
    assert s[0] == id[0];
    RunExact(blanks, s, IsPySpace);
    assert (blanks + s)[|blanks|..] == s && line[2 + |blanks|..] == s;
    hide RunLength;
    if "FR-" <= id {
      assert s[..3] == id[..3] && s[3..6] == id[3..] && s[..6] == id;
    } else {
      assert s[..4] == id[..4] && s[4..7] == id[4..] && s[..7] == id && s[0] == "NFR-"[0];
      assert !("FR-" <= s);
    }
    hide IsDigit, IsWord, All;
  }

  /** A heading declares a requirement exactly when it is written so. */
  lemma {:induction false} HeadingExactly(line: string, id: string)
    ensures HeadingId(line) == Some(id) <==> Declares(line, id)
  {
    if HeadingId(line) == Some(id) { HeadingPieces(line); }
    hide HeadingId, IsRequirement, All, IsWord;
    if Declares(line, id) {
      var blanks: string, rest: string :|
        && IsRequirement(id) && blanks != "" && All(blanks, IsPySpace) && (rest == "" || !IsWord(rest[0]))
        && line == "##" + (blanks + (id + rest));
      HeadingIsRead(blanks, id, rest);
    }
  }

  lemma {:induction false} HeadingPieces(line: string)
    requires HeadingId(line).Some?
    ensures Declares(line, HeadingId(line).value)
  {
    var k := RunLength(line[2..], IsPySpace);
    RunAll(line[2..], IsPySpace);
    var s := line[2 + k..];
    hide RunLength, All, IsWord, IsDigit, Declares;
    DeclaresAt(line, k, s, if "FR-" <= s then 3 else 4);
  }

  lemma {:induction false} DeclaresAt(line: string, k: nat, s: string, p: nat)
    requires "##" <= line && 0 < k <= |line| - 2 && s == line[2 + k..] && All(line[2..][..k], IsPySpace)
    requires |s| >= p + 3 && All(s[p..p + 3], IsDigit) && ((p == 3 && "FR-" <= s) || (p == 4 && "NFR-" <= s))
    requires |s| == p + 3 || !IsWord(s[p + 3])
    ensures Declares(line, s[..p + 3])
  {
    IdSpelled(s, p);
    LinePieces(line, k, p + 3);
    hide All, IsWord, IsDigit, IsRequirement;
    var id, blanks, rest := s[..p + 3], line[2..][..k], s[p + 3..];
    assert rest == "" || rest[0] == s[p + 3];
    assert line == "##" + (blanks + (id + rest));
  }

  lemma {:induction false} IdSpelled(s: string, p: nat)
    requires |s| >= p + 3 && All(s[p..p + 3], IsDigit) && ((p == 3 && "FR-" <= s) || (p == 4 && "NFR-" <= s))
    ensures IsRequirement(s[..p + 3])
  {
    hide All, IsDigit;
    assert s[..p + 3][p..] == s[p..p + 3] && s[..p + 3][..p] == s[..p];
  }

  lemma {:induction false} LinePieces(line: string, k: nat, n: nat)
    requires 2 + k + n <= |line|
    ensures line == line[..2] + (line[2..][..k] + (line[2 + k..][..n] + line[2 + k..][n..]))
  {
    assert line[2..] == line[2..][..k] + line[2 + k..];
  }

  /** The requirements of a document are those that a heading a reader sees declares,
      each once. */
  lemma {:induction false} DeclaredExactly(lines: seq<Option<string>>, n: nat, id: string)
    requires n <= |lines|
    ensures id in Declared(lines, n) <==> exists i | 0 <= i < n :: lines[i].Some? && Declares(lines[i].value, id)
    ensures forall j, k | 0 <= j < k < |Declared(lines, n)| :: Declared(lines, n)[j] != Declared(lines, n)[k]
  {
    hide HeadingId, Declares;
    if n > 0 {
      DeclaredExactly(lines, n - 1, id);
      if lines[n - 1].Some? { HeadingExactly(lines[n - 1].value, id); }
    }
  }

  // ---------- what is seen of a line ----------

  /** No comment opens in it. */
  ghost predicate NoOpening(s: string) { forall i | 0 <= i <= |s| :: !(OPEN <= s[i..]) }

  ghost predicate NoClosing(s: string) { forall i | 0 <= i <= |s| :: !(CLOSE <= s[i..]) }

  lemma {:induction false} ScrubNothing(s: string)
    requires NoOpening(s)
    ensures Scrub(s, false) == (s, false)
  {
    ScrubPlain(s, |s|);
    assert s[|s|..] == "" && s[..|s|] + "" == s;
  }

  /** A line outside fences and comments that opens none is seen as it is. */
  lemma {:induction false} PlainIsSeen(line: string)
    requires NoOpening(line) && !Fence(line)
    ensures See(line, Mode(false, false)) == (Some(line), Mode(false, false))
  {
    ScrubNothing(line);
    hide Scrub, Fence, Strip;
  }

  /** A fence line hides itself and what follows, up to the next fence line. */
  lemma {:induction false} FencedIsHidden(before: seq<string>, start: string, body: seq<string>, end: string)
    requires ModeAfter(before, START) == Mode(false, false) && NoOpening(start) && Fence(start) && Fence(end)
    requires forall line <- body :: !Fence(line)
    ensures var lines := before + [start] + body + [end];
            && ModeAfter(lines, START) == Mode(false, false)
            && forall i | |before| <= i < |lines| :: SeeAll(lines, START)[i] == None
  {
    hide Fence, Scrub, Strip;
    ScrubNothing(start);
    SeenAppend(before, start);
    BodyIsHidden(before + [start], body);
    SeenAppend(before + [start] + body, end);
    var lines := before + [start] + body + [end];
    forall i | |before| <= i < |lines| ensures SeeAll(lines, START)[i] == None {
      if i < |lines| - 1 && i >= |before| + 1 { assert SeeAll(before + [start] + body, START)[i] == None; }
    }
  }

  lemma {:induction false} SeenAppend(lines: seq<string>, line: string)
    ensures ModeAfter(lines + [line], START) == See(line, ModeAfter(lines, START)).1
    ensures SeeAll(lines + [line], START) == SeeAll(lines, START) + [See(line, ModeAfter(lines, START)).0]
  {
    hide See;
    assert (lines + [line])[..|lines|] == lines;
  }

  lemma {:induction false} BodyIsHidden(lines: seq<string>, body: seq<string>)
    requires ModeAfter(lines, START) == Mode(true, false) && forall line <- body :: !Fence(line)
    ensures ModeAfter(lines + body, START) == Mode(true, false)
    ensures forall i | 0 <= i < |lines| :: SeeAll(lines + body, START)[i] == SeeAll(lines, START)[i]
    ensures forall i | |lines| <= i < |lines + body| :: SeeAll(lines + body, START)[i] == None
  {
    hide Fence, Scrub, Strip;
    if body == [] {
      assert lines + body == lines;
    } else {
      var n := |body| - 1;
      BodyIsHidden(lines, body[..n]);
      SeenAppend(lines + body[..n], body[n]);
      assert lines + body[..n] + [body[n]] == lines + body;
    }
  }

  /** What is seen of a line with a comment in it: the text round it, or nothing when
      that is blank. */
  lemma {:induction false} CommentIsHidden(a: string, x: string, b: string)
    requires NoOpening(a) && NoClosing(x) && NoOpening(b) && !Fence(a + b)
    requires OpensAfter(a) && ClosesAfter(x)
    ensures See(a + (OPEN + (x + (CLOSE + b))), Mode(false, false)) ==
      (if Strip(a + b) == "" then None else Some(a + b), Mode(false, false))
  {
    ScrubComment(a, x, b);
    hide Scrub, Fence, Strip;
    assert |a + (OPEN + (x + (CLOSE + b)))| > |a + b|;
  }

  /** The text does not run into the marker behind it. */
  ghost predicate OpensAfter(a: string) { forall i | 0 <= i < |a| :: !(OPEN <= (a + OPEN)[i..]) }

  ghost predicate ClosesAfter(x: string) { forall i | 0 <= i < |x| :: !(CLOSE <= (x + CLOSE)[i..]) }

  lemma {:induction false} FirstMarker(s: string, marker: string, rest: string, i: nat)
    requires i < |s| && !(marker <= (s + marker)[i..])
    ensures !(marker <= (s + (marker + rest))[i..])
  {
    var t, u := (s + (marker + rest))[i..], (s + marker)[i..];
    assert t == u + rest && t[..|marker|] == u[..|marker|];
  }

  lemma {:induction false} ScrubComment(a: string, x: string, b: string)
    requires NoOpening(b) && OpensAfter(a) && ClosesAfter(x)
    ensures Scrub(a + (OPEN + (x + (CLOSE + b))), false) == (a + b, false)
  {
    var closed := x + (CLOSE + b);
    var s := a + (OPEN + closed);
    ScrubNothing(b);
    forall i | 0 <= i < |a| ensures !(OPEN <= s[i..]) { FirstMarker(a, OPEN, closed, i); }
    forall i | 0 <= i < |x| ensures !(CLOSE <= closed[i..]) { FirstMarker(x, CLOSE, b, i); }
    ScrubPlain(s, |a|);
    assert s[|a|..] == OPEN + closed && s[..|a|] == a;
    ScrubOpen(closed, |x|);
    assert closed[|x|..] == CLOSE + b && (CLOSE + b)[3..] == b && (OPEN + closed)[4..] == closed;
  }
}
