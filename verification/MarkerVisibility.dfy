/** Which lines of a decision record can carry an authorisation: what
    `_strip_uncommitted_prose` of scripts/live_posture_check.py leaves. */
module MarkerVisibility {
  import opened Text

  const TICKS := "```"
  const TILDES := "~~~"

  /** The text before and after the first occurrence of `part`, if there is one. */
  function Cut(s: string, part: string): (r: Option<(string, string)>)
    requires part != ""
    ensures r.Some? ==> s == r.value.0 + part + r.value.1
    ensures r.None? ==> forall i | 0 <= i <= |s| :: !OccursAt(s, part, i)
  {
    match Find(s, part, 0)
    case None => None
    case Some(i) => Some((s[..i], s[i + |part|..]))
  }

  /** A line without its comments, and whether a comment is still open at its end.
      What stands round a removed comment is looked at again as one text. */
  function Uncommented(line: string): (r: (string, bool))
    ensures |r.0| <= |line|
    decreases |line|
  {
    match Cut(line, OPEN)
    case None => (line, false)
    case Some((before, rest)) =>
      match Cut(rest, CLOSE)
      case None => (before, true)
      case Some((_, after)) => Uncommented(before + after)
  }

  method RemoveComments(start: string) returns (line: string, open: bool)
    ensures (line, open) == Uncommented(start)
  {
    line := start;
    while true
      invariant Uncommented(line) == Uncommented(start)
      decreases |line|
    {
      var opening := Cut(line, OPEN);
      if opening == None { return line, false; }
      var (before, rest) := opening.value;
      var closing := Cut(rest, CLOSE);
      if closing == None { return before, true; }
      line := before + closing.value.1;
    }
  }

  // ---------- the lines of a document ----------

  datatype Mode = Mode(fence: string, comment: bool, pre: bool)

  const START := Mode("", false, false)

  predicate Indented(line: string) { "    " <= line || "\t" <= line }

  predicate OpensPre(line: string, lower: string -> string) { "<pre" <= lower(Strip(line)) }

  predicate ClosesPre(line: string, lower: string -> string) { Contains(lower(Strip(line)), "</pre>") }

  /** A line with its comments taken out, once fences, indents and `<pre>` are looked
      at: what is emitted and the mode after. */
  function Show(line: string, mode: Mode, lower: string -> string): (Option<string>, Mode) {
    var s := Strip(line);
    if mode.fence != "" then (None, if mode.fence <= s then mode.(fence := "") else mode)
    else if TICKS <= s then (None, mode.(fence := TICKS))
    else if TILDES <= s then (None, mode.(fence := TILDES))
    else if Indented(line) then (None, mode)
    else
      var pre := mode.pre || OpensPre(line, lower);
      if pre then (None, mode.(pre := !ClosesPre(line, lower)))
      else (Some(line), mode.(pre := false))
  }

  /** What follows the close of a comment that was open. */
  function Rest(line: string, mode: Mode): (r: string)
    ensures |r| <= |line|
  {
    if mode.comment && Cut(line, CLOSE).Some? then Cut(line, CLOSE).value.1 else line
  }

  function Read(line: string, mode: Mode, lower: string -> string): (Option<string>, Mode) {
    if mode.comment && Cut(line, CLOSE) == None then (None, mode) else
    var (text, open) := Uncommented(Rest(line, mode));
    Show(text, mode.(comment := open), lower)
  }

  function ModeAfter(lines: seq<string>, mode: Mode, lower: string -> string): Mode {
    if lines == [] then mode
    else Read(lines[|lines| - 1], ModeAfter(lines[..|lines| - 1], mode, lower), lower).1
  }

  /** The lines that are emitted. */
  function Emitted(lines: seq<string>, mode: Mode, lower: string -> string): seq<string> {
    if lines == [] then [] else
    var n := |lines| - 1;
    var last := Read(lines[n], ModeAfter(lines[..n], mode, lower), lower).0;
    Emitted(lines[..n], mode, lower) + if last.Some? then [last.value] else []
  }

  function JoinLines(lines: seq<string>): string { if lines == [] then "" else Join(lines, '\n') }

  method StripUncommittedProse(text: string, lower: string -> string) returns (visible: string)
    ensures visible == JoinLines(Emitted(SplitLines(text), START, lower))
  {
    var raw := SplitLines(text);
    var out := [];
    var fence, inComment, inPre := "", false, false;
    for i := 0 to |raw|
      invariant out == Emitted(raw[..i], START, lower)
      invariant Mode(fence, inComment, inPre) == ModeAfter(raw[..i], START, lower)
    {
      assert raw[..i + 1][..i] == raw[..i];
      hide Strip, Uncommented, Indented, OpensPre, ClosesPre, SplitLines;
      var line := raw[i];
      if inComment {
        var closing := Cut(line, CLOSE);
        if closing == None { continue; }
        line := closing.value.1;
        inComment := false;
      }
      line, inComment := RemoveComments(line);
      var stripped := Strip(line);
      if fence != "" {
        if fence <= stripped { fence := ""; }
        continue;
      }
      if TICKS <= stripped {
        fence := TICKS;
        continue;
      }
      if TILDES <= stripped {
        fence := TILDES;
        continue;
      }
      if Indented(line) { continue; }
      if OpensPre(line, lower) { inPre := true; }
      if inPre {
        if ClosesPre(line, lower) { inPre := false; }
        continue;
      }
      out := out + [line];
    }
    assert raw[..|raw|] == raw;
    visible := JoinLines(out);
  }

  // ---------- what is emitted ----------

  /** A line that commits to what it says: no comment opener, no fence, no indented
      block, no `<pre>`. */
  predicate Committed(line: string, lower: string -> string) {
    && !Contains(line, OPEN)
    && !(TICKS <= Strip(line)) && !(TILDES <= Strip(line))
    && !Indented(line) && !OpensPre(line, lower)
  }

  lemma {:induction false} UncommentedHasNoOpener(line: string)
    ensures !Contains(Uncommented(line).0, OPEN)
    decreases |line|
  {
    var opening := Cut(line, OPEN);
    if opening.Some? {
      var (before, rest) := opening.value;
      var closing := Cut(rest, CLOSE);
      if closing.Some? {
        UncommentedHasNoOpener(before + closing.value.1);
      } else {
        CutIsFirst(line, OPEN);
      }
    }
  }

  /** The text before the first occurrence has none. */
  lemma {:induction false} CutIsFirst(s: string, part: string)
    requires part != "" && Cut(s, part).Some?
    ensures !Contains(Cut(s, part).value.0, part)
  {
    var before := Cut(s, part).value.0;
    forall i: nat | i <= |before| ensures !OccursAt(before, part, i) {
      if i + |part| <= |before| {
        assert !OccursAt(s, part, i);
        assert before[i..i + |part|] == s[i..i + |part|];
      }
    }
  }

  lemma {:induction false} ShownIsItself(text: string, mode: Mode, lower: string -> string)
    ensures var shown := Show(text, mode, lower).0;
            shown.Some? ==> shown.value == text && (!Contains(text, OPEN) ==> Committed(text, lower))
  {
  }

  lemma {:induction false} ReadIsCommitted(line: string, mode: Mode, lower: string -> string)
    ensures var shown := Read(line, mode, lower).0;
            shown.Some? ==> Committed(shown.value, lower) && |shown.value| <= |line|
  {
    var (text, open) := Uncommented(Rest(line, mode));
    UncommentedHasNoOpener(Rest(line, mode));
    ShownIsItself(text, mode.(comment := open), lower);
    hide Uncommented, Rest, Show, Committed;
  }

  /** Every line emitted commits to what it says. */
  lemma {:induction false} EmittedAreCommitted(lines: seq<string>, mode: Mode, lower: string -> string)
    ensures forall line <- Emitted(lines, mode, lower) :: Committed(line, lower)
  {
    if lines != [] {
      var n := |lines| - 1;
      EmittedAreCommitted(lines[..n], mode, lower);
      ReadIsCommitted(lines[n], ModeAfter(lines[..n], mode, lower), lower);
      hide Read, Committed;
    }
  }

  lemma {:induction false} NotCut(s: string, part: string)
    requires part != "" && !Contains(s, part)
    ensures Cut(s, part) == None
  {
    var cut := Cut(s, part);
    if cut.Some? {
      assert s[|cut.value.0|..|cut.value.0| + |part|] == part;
      assert OccursAt(s, part, |cut.value.0|);
    }
  }

  /** A committed line read with nothing open is emitted as it is. */
  lemma {:induction false} CommittedIsKept(line: string, lower: string -> string)
    requires Committed(line, lower)
    ensures Read(line, START, lower) == (Some(line), START)
  {
    NotCut(line, OPEN);
    hide Strip, Indented, OpensPre, ClosesPre, Contains, Cut;
  }

  lemma {:induction false} CommittedAreKept(lines: seq<string>, lower: string -> string)
    requires forall line <- lines :: Committed(line, lower)
    ensures Emitted(lines, START, lower) == lines && ModeAfter(lines, START, lower) == START
  {
    hide Read, Committed;
    if lines != [] {
      var n := |lines| - 1;
      assert lines[n] in lines && forall line <- lines[..n] :: line in lines;
      CommittedAreKept(lines[..n], lower);
      CommittedIsKept(lines[n], lower);
      assert lines == lines[..n] + [lines[n]];
    }
  }

  /** Running over the emitted lines again returns them unchanged. */
  lemma {:induction false} EmittedTwice(lines: seq<string>, lower: string -> string)
    ensures var once := Emitted(lines, START, lower); Emitted(once, START, lower) == once
  {
    EmittedAreCommitted(lines, START, lower);
    CommittedAreKept(Emitted(lines, START, lower), lower);
  }

  lemma {:induction false} CutChars(s: string, part: string, ok: char -> bool)
    requires part != "" && All(s, ok)
    ensures Cut(s, part).Some? ==> All(Cut(s, part).value.0, ok) && All(Cut(s, part).value.1, ok)
  {
  }

  lemma {:induction false} UncommentedChars(line: string, ok: char -> bool)
    requires All(line, ok)
    ensures All(Uncommented(line).0, ok)
    decreases |line|
  {
    CutChars(line, OPEN, ok);
    var opening := Cut(line, OPEN);
    if opening.Some? {
      CutChars(opening.value.1, CLOSE, ok);
      var closing := Cut(opening.value.1, CLOSE);
      if closing.Some? { UncommentedChars(opening.value.0 + closing.value.1, ok); }
    }
  }

  lemma {:induction false} ReadChars(line: string, mode: Mode, lower: string -> string, ok: char -> bool)
    requires All(line, ok)
    ensures var shown := Read(line, mode, lower).0; shown.Some? ==> All(shown.value, ok)
  {
    CutChars(line, CLOSE, ok);
    assert All(Rest(line, mode), ok);
    UncommentedChars(Rest(line, mode), ok);
    var (text, open) := Uncommented(Rest(line, mode));
    ShownIsItself(text, mode.(comment := open), lower);
    hide Uncommented, Rest, Show, Committed, All;
  }

  lemma {:induction false} EmittedChars(lines: seq<string>, mode: Mode, lower: string -> string, ok: char -> bool)
    requires forall line <- lines :: All(line, ok)
    ensures forall line <- Emitted(lines, mode, lower) :: All(line, ok)
  {
    if lines != [] {
      var n := |lines| - 1;
      EmittedChars(lines[..n], mode, lower, ok);
      assert lines[n] in lines;
      ReadChars(lines[n], ModeAfter(lines[..n], mode, lower), lower, ok);
      hide Read, All;
    }
  }

  /** The emitted text, stripped once more: the same text, unless it ends in an empty
      line after another; splitting drops that line. */
  lemma {:induction false} StrippedTwice(text: string, lower: string -> string)
    ensures var out := Emitted(SplitLines(text), START, lower);
            var once := JoinLines(out);
            JoinLines(Emitted(SplitLines(once), START, lower)) == once <==> |out| <= 1 || out[|out| - 1] != ""
  {
    var out := Emitted(SplitLines(text), START, lower);
    LinesAreUnbroken(text);
    EmittedChars(SplitLines(text), START, lower, NotBreak);
    EmittedAreCommitted(SplitLines(text), START, lower);
    hide Emitted, Committed, SplitLines, NotBreak;
    if out == [] {
      CommittedAreKept([], lower);
    } else {
      SplitJoined(out);
      var n := |out| - 1;
      CommittedAreKept(out, lower);
      CommittedAreKept(out[..n], lower);
      if out[n] == "" && n > 0 { JoinLast(out); }
    }
  }

  lemma {:induction false} JoinLast(lines: seq<string>)
    requires |lines| > 1
    ensures var n := |lines| - 1; Join(lines, '\n') == Join(lines[..n], '\n') + "\n" + lines[n]
  {
    var n := |lines| - 1;
    if n > 1 {
      JoinLast(lines[1..]);
      assert lines[1..][..n - 1] == lines[1..n] && lines[..n][1..] == lines[1..n];
    } else {
      assert lines[..1][0] == lines[0] && lines[1..][0] == lines[1];
    }
  }

  const BLANK_END := "a\n\n"

  lemma {:induction false} LetterIsCommitted(lower: string -> string)
    requires lower("a") == "a" && lower("") == ""
    ensures Committed("a", lower) && Committed("", lower) && All("a", NotBreak) && All("", NotBreak)
  {
    TrimPadded("", "a", "", IsPySpace);
    assert "" + "a" + "" == "a" && Strip("") == "";
    hide Strip;
  }

  lemma {:induction false} BlankEndLines()
    ensures SplitLines(BLANK_END) == ["a", ""] && SplitLines("a\n") == ["a"]
  {
    assert All("a", NotBreak) && All("", NotBreak);
    assert "a" + "\n" + ("" + "\n" + "") == BLANK_END && "a" + "\n" + "" == "a\n" && "" + "\n" + "" == "\n";
    hide SplitLines, All;
    SplitFirst("a", "\n");
    SplitFirst("", "");
    SplitFirst("a", "");
    assert ["a"] + [""] == ["a", ""] && ["a"] + [] == ["a"] && [""] + [] == [""];
  }

  /** Such a text: stripped once it is the letter and a line end, stripped twice the
      letter. */
  lemma {:induction false} BlankEndIsDropped(lower: string -> string)
    requires lower("a") == "a" && lower("") == ""
    ensures var once := JoinLines(Emitted(SplitLines(BLANK_END), START, lower));
            once == "a\n" && JoinLines(Emitted(SplitLines(once), START, lower)) == "a"
  {
    BlankEndLines();
    LetterIsCommitted(lower);
    hide SplitLines, Committed, Emitted, BLANK_END;
    CommittedAreKept(["a", ""], lower);
    CommittedAreKept(["a"], lower);
    assert Join(["a", ""], '\n') == "a" + ['\n'] + Join([""], '\n') == "a\n";
  }

  // ---------- what is not emitted ----------

  /** No line inside an open comment is emitted, whatever it says, until one closes it. */
  lemma {:induction false} CommentHides(lines: seq<string>, mode: Mode, lower: string -> string)
    requires mode.comment && forall line <- lines :: !Contains(line, CLOSE)
    ensures Emitted(lines, mode, lower) == [] && ModeAfter(lines, mode, lower) == mode
  {
    if lines != [] {
      var n := |lines| - 1;
      CommentHides(lines[..n], mode, lower);
      assert lines[n] in lines;
      NotCut(lines[n], CLOSE);
    }
  }

  /** No line inside an open fence is emitted until a line starts with that fence's
      own marker; the other marker does not close it. */
  lemma {:induction false} FenceHides(lines: seq<string>, mode: Mode, lower: string -> string)
    requires mode.fence != "" && !mode.comment
    requires forall line <- lines :: !Contains(line, OPEN) && !(mode.fence <= Strip(line))
    ensures Emitted(lines, mode, lower) == [] && ModeAfter(lines, mode, lower) == mode
  {
    if lines != [] {
      var n := |lines| - 1;
      FenceHides(lines[..n], mode, lower);
      assert lines[n] in lines;
      NotCut(lines[n], OPEN);
      hide Strip, Contains;
    }
  }
}
