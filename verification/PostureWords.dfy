/** How people keep a window alive: what a comment has to say, and that such a comment
    counts; the note's reading of the probes; and the two gates on a committed flag. */
module PostureWords {
  import opened Text
  import opened Json
  import opened FlyToml
  import opened FlyTomlLines
  import opened Posture
  import opened PostureParsing
  import opened PostureRuns
  import opened PostureVerdicts

  // ---------- the line that carries the token ----------

  const TOKEN := "REAFFIRM live-execution"

  /** A line of a comment that names an instant: Markdown and blanks, the token, a blank,
      the instant, perhaps between marks, and anything more after a blank. */
  function NamingLine(lead: string, open: string, word: string, close: string, tail: string): string {
    lead + (TOKEN + (" " + (open + word + close + tail)))
  }

  /** What Markdown may put before the token, and round the instant. */
  predicate IsDecor(c: char) {
    c == ' ' || c == '\t' || c == '`' || c == '>' || c == '*' || c == '-' || c == '+' || c == '#' || c == '\U{2022}'
  }

  predicate IsMarking(c: char) { c == '`' || c == '*' || c == '_' }

  lemma {:induction false} MarkdownAgrees(lead: string, mark: string, c: char)
    ensures All(lead, IsDecor) ==> All(lead, IsLeader)
    ensures All(mark, IsMarking) ==> All(mark, IsMark)
    ensures IsMarking(c) <==> IsMark(c)
  {
  }

  predicate IsNaming(lead: string, open: string, word: string, close: string, tail: string) {
    && All(lead, IsDecor) && All(open, IsMarking) && All(close, IsMarking)
    && word != "" && All(word, IsSolid) && !IsMarking(word[0]) && !IsMarking(word[|word| - 1])
    && (tail == "" || (tail[0] == ' ' && !IsPySpace(tail[|tail| - 1])))
  }

  lemma {:induction false} MarksAreSolid(s: string)
    requires All(s, IsMark)
    ensures All(s, IsSolid)
  {
  }

  lemma {:induction false} SolidPieces(a: string, b: string)
    requires All(a, IsSolid) && All(b, IsSolid)
    ensures All(a + b, IsSolid)
  {
  }

  /** The first word of what follows the token. */
  lemma {:induction false} FirstWord(open: string, word: string, close: string, tail: string)
    requires IsNaming("", open, word, close, tail)
    ensures var rest := open + word + close + tail;
            && Strip(" " + rest) == rest && rest != "" && rest[..RunLength(rest, IsSolid)] == open + word + close
            && Trim(open + word + close, IsMark) == word && !IsPySpace(rest[|rest| - 1])
  {
    var w := open + word + close;
    var rest := w + tail;
    MarkdownAgrees("", open, word[0]);
    MarkdownAgrees("", close, word[|word| - 1]);
    MarksAreSolid(open);
    MarksAreSolid(close);
    SolidPieces(open, word);
    SolidPieces(open + word, close);
    RunExact(w, tail, IsSolid);
    TrimPadded(open, word, close, IsMark);
    assert rest[..|w|] == w && w != "" && rest[0] == w[0];
    assert rest[|rest| - 1] == if tail == "" then w[|w| - 1] else tail[|tail| - 1];
    assert All(" ", IsPySpace) && All("", IsPySpace);
    hide RunLength, Trim;
    TrimPadded(" ", rest, "", IsPySpace);
    assert " " + rest + "" == " " + rest;
  }

  lemma {:induction false} TokenEnds()
    ensures TOKEN == REAFFIRM_TOKEN && TOKEN != "" && TOKEN[0] == 'R' && !IsLeader('R') && !IsPySpace('R')
  {
  }

  lemma {:induction false} LeadersComeOff(lead: string, core: string)
    requires All(lead, IsLeader) && core != "" && !IsLeader(core[0]) && !IsPySpace(core[0]) && !IsPySpace(core[|core| - 1])
    ensures Strip(TrimStart(Strip(lead + core), IsLeader)) == core
  {
    var k := RunLength(lead, IsPySpace);
    RunAll(lead, IsPySpace);
    var a, b := lead[..k], lead[k..];
    assert lead + core == a + (b + core) + "";
    assert All("", IsPySpace) && All(b, IsLeader);
    hide RunLength;
    TrimPadded(a, b + core, "", IsPySpace);
    TrimStartUnique(b, core, IsLeader);
    TrimPadded("", core, "", IsPySpace);
    assert "" + core + "" == core;
  }

  /** The line names its instant. */
  lemma {:induction false} NamingIsRead(lead: string, open: string, word: string, close: string, tail: string)
    requires IsNaming(lead, open, word, close, tail)
    ensures AfterToken(NamingLine(lead, open, word, close, tail)) == Some(open + word + close + tail)
  {
    var rest := open + word + close + tail;
    var core := TOKEN + (" " + rest);
    assert IsNaming("", open, word, close, tail);
    FirstWord(open, word, close, tail);
    MarkdownAgrees(lead, "", 'R');
    TokenEnds();
    assert core[0] == 'R' && core[|core| - 1] == rest[|rest| - 1] && core[|TOKEN|..] == " " + rest && TOKEN <= core;
    hide TOKEN, REAFFIRM_TOKEN, Strip, Trim, TrimStart, IsLeader, RunLength, All;
    LeadersComeOff(lead, core);
  }

  /** What may stand before the token on its line: Markdown and blanks. */
  predicate Decoration(c: char) {
    IsPySpace(c) || c == '`' || c == '>' || c == '*' || c == '-' || c == '+' || c == '#' || c == '\U{2022}'
  }

  /** The line starts with the token. */
  ghost predicate StartsWithToken(line: string) {
    exists lead: string, rest: string :: All(lead, Decoration) && line == lead + (TOKEN + rest)
  }

  lemma {:induction false} Decorations(a: string, b: string, c: string)
    requires All(a, IsPySpace) && All(b, IsLeader) && All(c, IsPySpace)
    ensures All(a + (b + c), Decoration)
  {
  }

  /** A line that does not start with the token names nothing. */
  lemma {:induction false} NoTokenNoWord(line: string)
    requires !StartsWithToken(line)
    ensures AfterToken(line) == None
  {
    TokenEnds();
    var u := Strip(line);
    var t := TrimStart(u, IsLeader);
    var s := Strip(t);
    if REAFFIRM_TOKEN <= s {
      TrimParts(line, IsPySpace);
      StartParts(u, IsLeader);
      TrimParts(t, IsPySpace);
      var a, b, c := Before(line, IsPySpace), Before(u, IsLeader), Before(t, IsPySpace);
      Decorations(a, b, c);
      hide TOKEN, TrimStart, TrimEnd, Before, After, All, IsLeader, Decoration, StartsWithToken;
      TokenBehind(line, a, b, c, s, After(t, IsPySpace), After(line, IsPySpace));
      assert false;
    }
  }

  lemma {:induction false} TokenBehind(line: string, a: string, b: string, c: string, s: string, d: string, e: string)
    requires TOKEN <= s && All(a + (b + c), Decoration) && line == a + (b + (c + s + d)) + e
    ensures StartsWithToken(line)
  {
    hide TOKEN, Decoration, All;
    assert s == TOKEN + s[|TOKEN|..];
    assert line == (a + (b + c)) + (TOKEN + (s[|TOKEN|..] + (d + e)));
  }

  /** The first line of a body that names an instant decides what the body names. */
  lemma {:induction false} BodyNames(
    py: Python, before: seq<string>, lead: string, open: string, word: string, close: string, tail: string, after: seq<string>)
    requires IsNaming(lead, open, word, close, tail) && forall line <- before :: !StartsWithToken(line)
    ensures ReaffirmedInstant(py, before + [NamingLine(lead, open, word, close, tail)] + after) == ParseInstant(py, JString(word))
  {
    var line := NamingLine(lead, open, word, close, tail);
    var lines := before + [line] + after;
    hide TOKEN, NamingLine, AfterToken, ParseInstant, StartsWithToken;
    if before == [] {
      NamingIsRead(lead, open, word, close, tail);
      FirstWord(open, word, close, tail);
      assert lines[0] == line;
    } else {
      NoTokenNoWord(before[0]);
      assert before[0] in before && lines[1..] == before[1..] + [line] + after && forall l <- before[1..] :: l in before;
      BodyNames(py, before[1..], lead, open, word, close, tail, after);
    }
  }

  // ---------- the word counts ----------

  /** What a person's comment that names an instant adds to a reading. */
  lemma {:induction false} CommentCounts(py: Python, c: Comment, now: int, target: int)
    requires Faithful(py, c.at) && c.at <= now && py.lower(Strip(c.kind)) != "bot" && !c.viaApp
    requires ReaffirmedInstant(py, SplitLines(c.body)) == At(target)
    ensures ReadComment(py, ToJson(py, c), now) == Value(Some(Reaffirmation(c.at, c.login, target)))
  {
    CommentFields(py, c);
    hide ParseInstant, ReaffirmedInstant, Strip, SplitLines, ToJson, Get;
  }

  lemma {:induction false} ReadingHolds(py: Python, some: seq<Comment>, c: Comment, now: int, e: Reaffirmation)
    requires ReadComments(py, Payload(py, some), now).Value? && c in some
    requires ReadComment(py, ToJson(py, c), now) == Value(Some(e))
    ensures e in ReadComments(py, Payload(py, some), now).value
  {
    hide ReadComment, ToJson;
    var n := |some| - 1;
    assert Payload(py, some)[..n] == Payload(py, some[..n]);
    if c in some[..n] {
      ReadingHolds(py, some[..n], c, now, e);
    }
  }

  /** An owner's word keeps the window: when the reading of its issue includes the
      comment, the window is attended for a day from then. */
  lemma {:induction false} OwnersWordKeeps(py: Python, w: Window, issue: int, some: seq<Comment>, c: Comment, now: int, read: Attention)
    requires w.reaffirmIssue == Some(issue) && issue in read && read[issue].Some?
    requires ReadComments(py, Payload(py, some), now) == Value(read[issue].value) && c in some
    requires Faithful(py, c.at) && c.at <= now < c.at + 24 * 3_600_000_000
    requires py.lower(Strip(c.kind)) != "bot" && !c.viaApp && Login(py, c.login) == Owner(py, w)
    requires ReaffirmedInstant(py, SplitLines(c.body)) == At(w.openedAt)
    ensures Kept(py, w, now, read)
  {
    CommentCounts(py, c, now, w.openedAt);
    var e := Reaffirmation(c.at, c.login, w.openedAt);
    hide ReadComments, ReadComment, ReaffirmedInstant, Strip, SplitLines, Login, Owner;
    ReadingHolds(py, some, c, now, e);
    assert AttendedBy(py, w, read, e);
  }

  /** An owner may be declared with at signs, and in any letter case. */
  lemma {:induction false} OwnerIsLogin(py: Python, w: Window, login: string, ats: string, name: string)
    requires All(ats, IsAt) && name != "" && !IsAt(name[0])
    requires py.lower(Strip(w.owner)) == ats + name
    ensures Login(py, login) == Owner(py, w) <==> py.lower(Strip(login)) == name
  {
    TrimStartUnique(ats, name, IsAt);
  }

  // ---------- the note and the gates ----------

  /** The note reads "on" exactly when some host reports a live state that the check
      knows; "off" exactly when every host answered, and with off; and cannot tell
      otherwise. */
  lemma {:induction false} NoteExactly(states: States)
    ensures LiveVerdict(states) == Some(true) <==>
      exists url, state :: Reports(states, url, state) && state in {"live", "offline_by_no_key", "offline_by_bad_key"}
    ensures LiveVerdict(states) == Some(false) <==>
      states != map[] && forall url <- states :: states[url] == Some("offline_by_config")
  {
    if url :| url in states && HostLive(states, url) && states[url].value in KNOWN_STATES {
      assert Reports(states, url, states[url].value);
    }
    if url, state :| Reports(states, url, state) && state in {"live", "offline_by_no_key", "offline_by_bad_key"} {
      assert HostLive(states, url) && states[url].value in KNOWN_STATES;
    }
    if states != map[] && forall url <- states :: states[url] == Some("offline_by_config") {
      var url :| url in states;
      assert Read(states, url);
    }
  }

  /** A flag counts as on when it is declared with anything but an off word. */
  ghost predicate On(value: Option<string>) { value.Some? && !OffWord(value.value) }

  /** The gates: the live flag may be committed on only inside a window, and nothing
      beside a declaration that cannot be read; the peer flag on only beside the live flag. */
  lemma {:induction false} GatesExactly(live: Option<string>, peer: Option<string>, windows: Option<seq<Window>>, now: int)
    ensures RefusesUndeclared(live, windows, now) <==> windows == None || (On(live) && NoneCovers(windows.value, now))
    ensures RefusesPeer(peer, live) <==> On(peer) && !On(live)
  {
    if live.Some? { OffWordsAreOff(live.value); }
    if peer.Some? { OffWordsAreOff(peer.value); }
    hide OffWord, IsOff;
  }
}
