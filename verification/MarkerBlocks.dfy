/** A decision record as it is written, block by block, and what is left of each block
    once uncommitted prose is stripped. */
module MarkerBlocks {
  import opened Text
  import opened MarkerVisibility

  /** The blocks of a record. A comment stands inside a line, or over several lines with
      text before it and text after it. */
  datatype Block =
    | Prose(line: string)
    | Indent(line: string)
    | Fenced(marker: string, start: string, body: seq<string>, end: string)
    | Pre(start: string, body: seq<string>, end: string)
    | PreLine(line: string)
    | Inline(before: string, comment: string, after: string)
    | Comment(before: string, start: string, body: seq<string>, end: string, after: string)

  /** The lines of a block. */
  function Lines(b: Block): seq<string> {
    match b
    case Prose(line) => [line]
    case Indent(line) => [line]
    case Fenced(_, start, body, end) => [start] + body + [end]
    case Pre(start, body, end) => [start] + body + [end]
    case PreLine(line) => [line]
    case Inline(before, comment, after) => [before + ("<!--" + (comment + ("-->" + after)))]
    case Comment(before, start, body, end, after) => [before + ("<!--" + start)] + body + [end + ("-->" + after)]
  }

  /** What is left of a block. */
  function Kept(b: Block): seq<string> {
    match b
    case Prose(line) => [line]
    case Inline(before, _, after) => [before + after]
    case Comment(before, _, _, _, after) => [before, after]
    case _ => []
  }

  predicate StartsFence(line: string) { "```" <= Strip(line) || "~~~" <= Strip(line) }

  /** Neither a comment nor a fence starts in it. */
  predicate IsQuiet(line: string) { !Contains(line, "<!--") && !StartsFence(line) }

  predicate IsIndented(line: string) { "    " <= line || "\t" <= line }

  predicate StartsPre(line: string, lower: string -> string) { "<pre" <= lower(Strip(line)) }

  predicate EndsPre(line: string, lower: string -> string) { Contains(lower(Strip(line)), "</pre>") }

  predicate IsProse(line: string, lower: string -> string) { IsQuiet(line) && !IsIndented(line) && !StartsPre(line, lower) }

  /** The text does not run into the marker behind it. */
  predicate EndsClear(text: string, marker: string) { forall i | 0 <= i < |text| :: !OccursAt(text + marker, marker, i) }

  predicate IsBlock(b: Block, lower: string -> string) {
    match b
    case Prose(line) => IsProse(line, lower)
    case Indent(line) => IsQuiet(line) && IsIndented(line)
    case Fenced(marker, start, body, end) =>
      && (marker == "```" || marker == "~~~")
      && (forall line <- [start, end] + body :: !Contains(line, "<!--"))
      && marker <= Strip(start) && marker <= Strip(end) && forall line <- body :: !(marker <= Strip(line))
    case Pre(start, body, end) =>
      && (forall line <- [start, end] + body :: IsQuiet(line)) && !IsIndented(start) && !IsIndented(end)
      && StartsPre(start, lower) && !EndsPre(start, lower) && EndsPre(end, lower)
      && forall line <- body :: IsIndented(line) || !EndsPre(line, lower)
    case PreLine(line) => IsQuiet(line) && !IsIndented(line) && StartsPre(line, lower) && EndsPre(line, lower)
    case Inline(before, comment, after) =>
      EndsClear(before, "<!--") && EndsClear(comment, "-->") && IsProse(before + after, lower)
    case Comment(before, start, body, end, after) =>
      && EndsClear(before, "<!--") && IsProse(before, lower) && !Contains(start, "-->")
      && (forall line <- body :: !Contains(line, "-->"))
      && EndsClear(end, "-->") && IsProse(after, lower)
  }

  lemma {:induction false} Agree(line: string, lower: string -> string)
    ensures IsProse(line, lower) <==> Committed(line, lower)
    ensures IsIndented(line) <==> Indented(line)
    ensures StartsPre(line, lower) <==> OpensPre(line, lower)
    ensures EndsPre(line, lower) <==> ClosesPre(line, lower)
  {
  }

  lemma {:induction false} AllAgree(lower: string -> string)
    ensures forall line :: IsProse(line, lower) <==> Committed(line, lower)
    ensures forall line :: IsIndented(line) <==> Indented(line)
    ensures forall line :: StartsPre(line, lower) <==> OpensPre(line, lower)
    ensures forall line :: EndsPre(line, lower) <==> ClosesPre(line, lower)
  {
    forall line ensures IsProse(line, lower) <==> Committed(line, lower) { Agree(line, lower); }
    forall line ensures IsIndented(line) <==> Indented(line) { Agree(line, lower); }
    forall line ensures StartsPre(line, lower) <==> OpensPre(line, lower) { Agree(line, lower); }
    forall line ensures EndsPre(line, lower) <==> ClosesPre(line, lower) { Agree(line, lower); }
  }

  // ---------- one line ----------

  lemma {:induction false} FirstAt(text: string, marker: string, rest: string, i: nat)
    requires marker != "" && EndsClear(text, marker) && i < |text|
    ensures !OccursAt(text + (marker + rest), marker, i)
  {
    var s, t := text + (marker + rest), text + marker;
    assert s == t + rest;
    if i + |marker| <= |t| {
      assert s[i..i + |marker|] == t[i..i + |marker|];
      assert !OccursAt(t, marker, i);
    }
  }

  /** A text is cut at the first marker. */
  lemma {:induction false} CutAt(text: string, marker: string, rest: string)
    requires marker != "" && EndsClear(text, marker)
    ensures Cut(text + (marker + rest), marker) == Some((text, rest))
  {
    var s := text + (marker + rest);
    hide EndsClear, OccursAt;
    forall i | 0 <= i < |text| ensures !OccursAt(s, marker, i) { FirstAt(text, marker, rest, i); }
    OccursBehind(text, marker, rest);
    var found := Find(s, marker, 0);
    assert found == Some(|text|);
    assert s[..|text|] == text && s[|text| + |marker|..] == rest;
  }

  lemma {:induction false} OccursBehind(text: string, marker: string, rest: string)
    ensures OccursAt(text + (marker + rest), marker, |text|)
  {
    assert (text + (marker + rest))[|text|..|text| + |marker|] == marker;
  }

  lemma {:induction false} InlineComesOff(before: string, comment: string, after: string)
    requires EndsClear(before, OPEN) && EndsClear(comment, CLOSE)
    ensures Uncommented(before + (OPEN + (comment + (CLOSE + after)))) == Uncommented(before + after)
  {
    hide EndsClear, Cut;
    CutAt(before, OPEN, comment + (CLOSE + after));
    CutAt(comment, CLOSE, after);
  }

  lemma {:induction false} PlainText(line: string)
    requires !Contains(line, OPEN)
    ensures Uncommented(line) == (line, false)
  {
    NotCut(line, OPEN);
  }

  lemma {:induction false} CommentOpens(before: string, start: string)
    requires EndsClear(before, OPEN) && !Contains(start, CLOSE)
    ensures Uncommented(before + (OPEN + start)) == (before, true)
  {
    hide EndsClear, Cut, Contains;
    CutAt(before, OPEN, start);
    NotCut(start, CLOSE);
  }

  lemma {:induction false} QuietRead(line: string, mode: Mode, lower: string -> string)
    requires !Contains(line, OPEN) && !mode.comment
    ensures Read(line, mode, lower) == Show(line, mode, lower)
  {
    PlainText(line);
    hide Uncommented, Show, Contains;
    assert mode.(comment := false) == mode;
  }

  // ---------- several lines ----------

  lemma {:induction false} OneMore(lines: seq<string>, line: string, mode: Mode, lower: string -> string)
    ensures var shown := Read(line, ModeAfter(lines, mode, lower), lower);
            && ModeAfter(lines + [line], mode, lower) == shown.1
            && Emitted(lines + [line], mode, lower) == Emitted(lines, mode, lower) + match shown.0 case None => [] case Some(s) => [s]
  {
    hide Read;
    assert (lines + [line])[..|lines|] == lines;
  }

  lemma {:induction false} NoLines(mode: Mode, lower: string -> string)
    ensures ModeAfter([], mode, lower) == mode && Emitted([], mode, lower) == []
  {
  }

  lemma {:induction false} InTwo(a: seq<string>, b: seq<string>, mode: Mode, lower: string -> string)
    ensures ModeAfter(a + b, mode, lower) == ModeAfter(b, ModeAfter(a, mode, lower), lower)
    ensures Emitted(a + b, mode, lower) == Emitted(a, mode, lower) + Emitted(b, ModeAfter(a, mode, lower), lower)
  {
    hide Read, Emitted, ModeAfter;
    var after := ModeAfter(a, mode, lower);
    NoLines(after, lower);
    if b == [] {
      assert a + b == a && Emitted(a, mode, lower) + [] == Emitted(a, mode, lower);
    } else {
      var n := |b| - 1;
      InTwo(a, b[..n], mode, lower);
      OneMore(a + b[..n], b[n], mode, lower);
      OneMore(b[..n], b[n], after, lower);
      assert a + b[..n] + [b[n]] == a + b && b[..n] + [b[n]] == b;
    }
  }

  lemma {:induction false} OneLine(line: string, mode: Mode, lower: string -> string)
    ensures ModeAfter([line], mode, lower) == Read(line, mode, lower).1
    ensures Emitted([line], mode, lower) == match Read(line, mode, lower).0 case None => [] case Some(s) => [s]
  {
    hide Read, Emitted, ModeAfter;
    NoLines(mode, lower);
    OneMore([], line, mode, lower);
    assert [] + [line] == [line];
  }

  /** A first line, a body that is hidden and leaves the mode, and a last line. */
  lemma {:induction false} Enclosed(start: string, body: seq<string>, end: string, inside: Mode, lower: string -> string)
    requires Read(start, START, lower).1 == inside
    requires Emitted(body, inside, lower) == [] && ModeAfter(body, inside, lower) == inside
    requires Read(end, inside, lower).1 == START
    ensures var lines := [start] + body + [end];
            && ModeAfter(lines, START, lower) == START
            && Emitted(lines, START, lower)
            == (match Read(start, START, lower).0 case None => [] case Some(s) => [s])
             + (match Read(end, inside, lower).0 case None => [] case Some(s) => [s])
  {
    hide Read, Emitted, ModeAfter;
    OneLine(start, START, lower);
    OneLine(end, inside, lower);
    InTwo([start], body, START, lower);
    InTwo([start] + body, [end], START, lower);
  }

  // ---------- each block ----------

  lemma {:induction false} FencedBlock(marker: string, start: string, body: seq<string>, end: string, lower: string -> string)
    requires IsBlock(Fenced(marker, start, body, end), lower)
    ensures var lines := Lines(Fenced(marker, start, body, end));
            ModeAfter(lines, START, lower) == START && Emitted(lines, START, lower) == []
  {
    assert start in [start, end] + body && end in [start, end] + body;
    forall line | line in body ensures !Contains(line, OPEN) && !(marker <= Strip(line)) { assert line in [start, end] + body; }
    var inside := START.(fence := marker);
    OtherMarker(Strip(start), marker);
    QuietRead(start, START, lower);
    QuietRead(end, inside, lower);
    FenceHides(body, inside, lower);
    hide Read, Emitted, ModeAfter, Strip, Contains;
    Enclosed(start, body, end, inside, lower);
  }

  lemma {:induction false} OtherMarker(s: string, marker: string)
    requires marker <= s && (marker == "```" || marker == "~~~")
    ensures TICKS <= s <==> marker == TICKS
  {
    assert s[0] == marker[0];
  }

  lemma {:induction false} PreHides(body: seq<string>, lower: string -> string)
    requires forall line <- body :: IsQuiet(line) && (Indented(line) || !ClosesPre(line, lower))
    ensures Emitted(body, START.(pre := true), lower) == [] && ModeAfter(body, START.(pre := true), lower) == START.(pre := true)
  {
    if body != [] {
      var n := |body| - 1;
      PreHides(body[..n], lower);
      assert body[n] in body;
      QuietRead(body[n], START.(pre := true), lower);
      hide Strip, Contains, Indented, ClosesPre, OpensPre;
    }
  }

  lemma {:induction false} PreBlock(start: string, body: seq<string>, end: string, lower: string -> string)
    requires IsBlock(Pre(start, body, end), lower)
    ensures var lines := Lines(Pre(start, body, end));
            ModeAfter(lines, START, lower) == START && Emitted(lines, START, lower) == []
  {
    assert start in [start, end] + body && end in [start, end] + body;
    forall line | line in body ensures IsQuiet(line) { assert line in [start, end] + body; }
    var inside := START.(pre := true);
    AllAgree(lower);
    QuietRead(start, START, lower);
    QuietRead(end, inside, lower);
    PreHides(body, lower);
    hide Read, Emitted, ModeAfter, Strip, Contains, Indented, ClosesPre, OpensPre, IsIndented, StartsPre, EndsPre;
    Enclosed(start, body, end, inside, lower);
  }

  lemma {:induction false} CommentBlock(
    before: string, start: string, body: seq<string>, end: string, after: string, lower: string -> string)
    requires IsBlock(Comment(before, start, body, end, after), lower)
    ensures var lines := Lines(Comment(before, start, body, end, after));
            ModeAfter(lines, START, lower) == START && Emitted(lines, START, lower) == [before, after]
  {
    var first, last, inside := before + (OPEN + start), end + (CLOSE + after), START.(comment := true);
    AllAgree(lower);
    CommentOpens(before, start);
    CutAt(end, CLOSE, after);
    PlainText(after);
    CommentHides(body, inside, lower);
    hide Emitted, ModeAfter, Strip, Contains, Indented, ClosesPre, OpensPre, Uncommented, Cut, EndsClear, IsProse;
    assert Read(first, START, lower) == (Some(before), inside);
    assert Read(last, inside, lower) == (Some(after), START);
    Enclosed(first, body, last, inside, lower);
  }

  lemma {:induction false} LineBlock(line: string, lower: string -> string)
    requires IsQuiet(line) && (IsIndented(line) || (StartsPre(line, lower) && EndsPre(line, lower)))
    ensures ModeAfter([line], START, lower) == START && Emitted([line], START, lower) == []
  {
    QuietRead(line, START, lower);
    Agree(line, lower);
    OneLine(line, START, lower);
    hide Emitted, ModeAfter, Strip, Contains, Indented, ClosesPre, OpensPre, Read, IsIndented, StartsPre, EndsPre;
  }

  lemma {:induction false} InlineBlock(before: string, comment: string, after: string, lower: string -> string)
    requires EndsClear(before, OPEN) && EndsClear(comment, CLOSE) && IsProse(before + after, lower)
    ensures var line := before + (OPEN + (comment + (CLOSE + after)));
            ModeAfter([line], START, lower) == START && Emitted([line], START, lower) == [before + after]
  {
    var line := before + (OPEN + (comment + (CLOSE + after)));
    InlineComesOff(before, comment, after);
    Agree(before + after, lower);
    CommittedIsKept(before + after, lower);
    OneLine(line, START, lower);
    hide Emitted, ModeAfter, Committed, Uncommented, Show, EndsClear;
  }

  lemma {:induction false} BlockIsRead(b: Block, lower: string -> string)
    requires IsBlock(b, lower)
    ensures ModeAfter(Lines(b), START, lower) == START && Emitted(Lines(b), START, lower) == Kept(b)
  {
    hide Emitted, ModeAfter, IsProse, IsQuiet, IsIndented, StartsPre, EndsPre, EndsClear, Contains;
    match b
    case Prose(line) => ProseBlock(line, lower);
    case Indent(line) => LineBlock(line, lower);
    case Fenced(marker, start, body, end) => FencedBlock(marker, start, body, end, lower);
    case Pre(start, body, end) => PreBlock(start, body, end, lower);
    case PreLine(line) => LineBlock(line, lower);
    case Inline(before, comment, after) => InlineBlock(before, comment, after, lower);
    case Comment(before, start, body, end, after) => CommentBlock(before, start, body, end, after, lower);
  }

  lemma {:induction false} ProseBlock(line: string, lower: string -> string)
    requires IsProse(line, lower)
    ensures ModeAfter([line], START, lower) == START && Emitted([line], START, lower) == [line]
  {
    Agree(line, lower);
    CommittedIsKept(line, lower);
    OneLine(line, START, lower);
    hide Emitted, ModeAfter, Committed, Read;
  }

  function AllLines(blocks: seq<Block>): seq<string> { if blocks == [] then [] else Lines(blocks[0]) + AllLines(blocks[1..]) }

  function AllKept(blocks: seq<Block>): seq<string> { if blocks == [] then [] else Kept(blocks[0]) + AllKept(blocks[1..]) }

  /** Of a record written in blocks, what is left is its prose, with the comments out of
      it, and nothing else. */
  lemma {:induction false} WrittenIsStripped(blocks: seq<Block>, lower: string -> string)
    requires forall b <- blocks :: IsBlock(b, lower)
    ensures Emitted(AllLines(blocks), START, lower) == AllKept(blocks)
    ensures ModeAfter(AllLines(blocks), START, lower) == START
  {
    hide Emitted, ModeAfter, IsBlock, Lines, Kept;
    if blocks == [] {
      NoLines(START, lower);
    } else {
      assert blocks[0] in blocks;
      BlockIsRead(blocks[0], lower);
      WrittenIsStripped(blocks[1..], lower);
      InTwo(Lines(blocks[0]), AllLines(blocks[1..]), START, lower);
    }
  }
}
