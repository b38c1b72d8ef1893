/** Safety of the posture decision: over every run of openings, comments and
    clock ticks, against decoy windows and against reordering. */
module PostureRuns {
  import opened Text
  import opened Json
  import opened Posture
  import opened PostureParsing

  // ---------- the system ----------

  /** A comment as posted. Its author, the kind of the author's account, and the
      app it came through, are set by GitHub; so is the instant. */
  datatype Comment = Comment(issue: int, login: string, kind: string, viaApp: bool, body: string, at: int)

  datatype Event =
    | Tick(elapsed: nat)
    | Declare(windows: seq<Window>)
    | Post(issue: int, login: string, kind: string, viaApp: bool, body: string)

  datatype System = System(now: int, windows: seq<Window>, comments: seq<Comment>)

  function Next(s: System, e: Event): System {
    match e
    case Tick(d) => s.(now := s.now + d)
    case Declare(ws) => s.(windows := ws)
    case Post(i, l, k, a, b) => s.(comments := s.comments + [Comment(i, l, k, a, b, s.now)])
  }

  function Run(s: System, events: seq<Event>): System {
    if events == [] then s else Next(Run(s, events[..|events| - 1]), events[|events| - 1])
  }

  /** GitHub's JSON for a comment. */
  function ToJson(py: Python, c: Comment): Json {
    JObject(map[
      "user" := JObject(map["login" := JString(c.login), "type" := JString(c.kind)]),
      "body" := JString(c.body),
      "created_at" := JString(py.formatIso(c.at)),
      "performed_via_github_app" := if c.viaApp then JObject(map[]) else JNull])
  }

  function Payload(py: Python, comments: seq<Comment>): seq<Json> {
    seq(|comments|, i requires 0 <= i < |comments| => ToJson(py, comments[i]))
  }

  /** The instants of these comments are written and read back unchanged. */
  predicate FaithfulFor(py: Python, comments: seq<Comment>) {
    forall c <- comments :: Faithful(py, c.at)
  }

  /** What a cycle may have read of the issues: for each, nothing, or any selection
      of the comments that are there. A reading that stops the parser ends the cycle
      and is not among these. */
  ghost predicate ReadFrom(py: Python, s: System, read: Attention) {
    forall issue <- read :: read[issue].Some? ==>
      exists some: seq<Comment> {:trigger Payload(py, some)} ::
        && (forall c <- some :: c in s.comments && c.issue == issue)
        && ReadComments(py, Payload(py, some), s.now) == Value(read[issue].value)
  }

  // ---------- comments that stop a reading ----------

  /** A person's comment, posted by now, whose first line with the token names an
      instant that overflows. */
  predicate Stops(py: Python, c: Comment, now: int) {
    && py.lower(Strip(c.kind)) != "bot" && !c.viaApp && c.at <= now
    && ReaffirmedInstant(py, SplitLines(c.body)) == Overflow
  }

  lemma {:induction false} CommentFields(py: Python, c: Comment)
    ensures ToJson(py, c).JObject? && Get(ToJson(py, c).fields, "user").JObject?
    ensures var f := ToJson(py, c).fields; var user := Get(f, "user").fields;
            && Get(user, "login") == JString(c.login) && Get(user, "type") == JString(c.kind)
            && Get(f, "body") == JString(c.body) && Get(f, "created_at") == JString(py.formatIso(c.at))
            && (Get(f, "performed_via_github_app") == JNull <==> !c.viaApp)
  {
  }

  lemma {:induction false} CommentOfGitHub(py: Python, c: Comment, now: int)
    requires Faithful(py, c.at)
    ensures ReadComment(py, ToJson(py, c), now) == Raised <==> Stops(py, c, now)
    ensures ReadComment(py, ToJson(py, c), now) != Refused
  {
    CommentFields(py, c);
    hide ParseInstant, ReaffirmedInstant, Strip, SplitLines, ToJson, Get;
  }

  /** A reading of comments that GitHub recorded is never refused. It stops with an
      exception if and only if a comment in it does, whoever posted that comment. */
  lemma {:induction false} ReadingStops(py: Python, some: seq<Comment>, now: int)
    requires FaithfulFor(py, some)
    ensures ReadComments(py, Payload(py, some), now) == Raised <==> exists c <- some :: Stops(py, c, now)
    ensures ReadComments(py, Payload(py, some), now) != Refused
  {
    hide ReadComment, Stops;
    if some != [] {
      var n := |some| - 1;
      assert Payload(py, some)[..n] == Payload(py, some[..n]);
      assert some == some[..n] + [some[n]];
      ReadingStops(py, some[..n], now);
      CommentOfGitHub(py, some[n], now);
    }
  }

  /** REAFFIRM live-execution 0001-01-01T00:00:00+01:00 */
  const STOPPING := REAFFIRM_TOKEN + (" " + TOO_EARLY)

  /** A character that is neither a blank nor a line end. */
  predicate IsGraph(c: char) { '!' <= c <= '~' }

  lemma {:induction false} GraphParts(a: string, b: string)
    requires All(a, IsGraph) && All(b, IsGraph)
    ensures All(a + b, IsGraph)
  {
  }

  lemma {:induction false} EarlyParts()
    ensures TOO_EARLY == "0001-01-01" + ("T00:00:00" + "+01:00")
  {
  }

  lemma {:induction false} EarlyIsGraph()
    ensures All(TOO_EARLY, IsGraph)
  {
    EarlyParts();
    hide TOO_EARLY;
    GraphParts("T00:00:00", "+01:00");
    GraphParts("0001-01-01", "T00:00:00" + "+01:00");
  }

  /** A text of such characters that starts and ends with a digit or a letter. */
  lemma {:induction false} GraphIsSolid(s: string)
    requires All(s, IsGraph)
    ensures All(s, IsSolid) && All(s, NotBreak)
  {
  }

  lemma {:induction false} StoppingWord()
    ensures All(TOO_EARLY, IsSolid) && TOO_EARLY != "" && Trim(TOO_EARLY, IsMark) == TOO_EARLY
    ensures Strip(" " + TOO_EARLY) == TOO_EARLY
  {
    EarlyIsGraph();
    GraphIsSolid(TOO_EARLY);
    assert TOO_EARLY[0] == '0' && TOO_EARLY[|TOO_EARLY| - 1] == '0';
    hide TOO_EARLY, All, IsGraph;
    assert All("", IsMark) && All("", IsPySpace) && All(" ", IsPySpace) by { Blanks(); }
    TrimPadded("", TOO_EARLY, "", IsMark);
    TrimPadded(" ", TOO_EARLY, "", IsPySpace);
    assert "" + TOO_EARLY + "" == TOO_EARLY && " " + TOO_EARLY + "" == " " + TOO_EARLY;
  }

  lemma {:induction false} Blanks()
    ensures All("", IsMark) && All("", IsPySpace) && All(" ", IsPySpace) && All(" ", NotBreak)
  {
  }

  lemma {:induction false} TokenChars()
    ensures All(REAFFIRM_TOKEN, NotBreak) && REAFFIRM_TOKEN != "" && REAFFIRM_TOKEN[0] == 'R'
  {
    assert REAFFIRM_TOKEN == "REAFFIRM" + (" " + "live-execution");
  }

  lemma {:induction false} StoppingLine()
    ensures Strip(STOPPING) == STOPPING && TrimStart(STOPPING, IsLeader) == STOPPING && All(STOPPING, NotBreak)
    ensures REAFFIRM_TOKEN <= STOPPING && STOPPING[|REAFFIRM_TOKEN|..] == " " + TOO_EARLY && STOPPING != ""
  {
    EarlyIsGraph();
    GraphIsSolid(TOO_EARLY);
    TokenChars();
    Blanks();
    assert TOO_EARLY[|TOO_EARLY| - 1] == '0' && TOO_EARLY != "";
    hide REAFFIRM_TOKEN, TOO_EARLY, IsGraph;
    assert STOPPING[0] == 'R' && STOPPING[|STOPPING| - 1] == '0';
    TrimPadded("", STOPPING, "", IsPySpace);
    assert "" + STOPPING + "" == STOPPING;
  }

  lemma {:induction false} StoppingToken()
    ensures SplitLines(STOPPING) == [STOPPING]
    ensures AfterToken(STOPPING) == Some(TOO_EARLY)
  {
    StoppingLine();
    StoppingWord();
    hide STOPPING, TOO_EARLY, REAFFIRM_TOKEN, Strip, SplitLines, TrimStart, All;
    SplitFirst(STOPPING, "");
  }

  lemma {:induction false} SolidWord(s: string)
    requires All(s, IsSolid)
    ensures s[..RunLength(s, IsSolid)] == s
  {
    RunExact(s, "", IsSolid);
    assert s + "" == s;
  }

  lemma {:induction false} FirstLineNames(py: Python, line: string, word: string)
    requires AfterToken(line) == Some(word) && All(word, IsSolid) && Trim(word, IsMark) == word
    ensures ReaffirmedInstant(py, [line]) == ParseInstant(py, JString(word))
  {
    hide AfterToken, Trim, ParseInstant, All, RunLength;
    SolidWord(word);
  }

  lemma {:induction false} StoppingBody(py: Python)
    requires ReadsCalendarEnds(py)
    ensures ReaffirmedInstant(py, SplitLines(STOPPING)) == Overflow
  {
    hide *;
    CalendarEndsOverflow(py);
    StoppingToken();
    StoppingWord();
    FirstLineNames(py, STOPPING, TOO_EARLY);
  }

  /** One comment by anyone, as soon as it is posted, stops every reading of its issue
      that includes it. */
  lemma {:induction false} OneCommentStops(py: Python, some: seq<Comment>, c: Comment, now: int)
    requires ReadsCalendarEnds(py) && FaithfulFor(py, some) && c in some && c.at <= now
    requires c.body == STOPPING && py.lower(Strip(c.kind)) != "bot" && !c.viaApp
    ensures ReadComments(py, Payload(py, some), now) == Raised
  {
    hide ReaffirmedInstant, Strip, SplitLines, STOPPING, ReadsCalendarEnds, ReadComments;
    StoppingBody(py);
    ReadingStops(py, some, now);
  }

  // ---------- attention over whole runs ----------

  /** A person, and not a machine, said on the window's own issue that this
      window is still wanted. */
  predicate IsOwnersWord(py: Python, e: Event, w: Window) {
    && e.Post?
    && w.reaffirmIssue == Some(e.issue)
    && Login(py, e.login) == Owner(py, w)
    && py.lower(Strip(e.kind)) != "bot" && !e.viaApp
    && ReaffirmedInstant(py, SplitLines(e.body)) == At(w.openedAt)
  }

  /** The window was opened, or its owner spoke up, less than a day ago. */
  ghost predicate AttendedInRun(py: Python, start: System, events: seq<Event>, w: Window) {
    var now := Run(start, events).now;
    || now - w.openedAt < CADENCE
    || exists k :: 0 <= k < |events| && IsOwnersWord(py, events[k], w)
                   && Run(start, events[..k]).now <= now < Run(start, events[..k]).now + CADENCE
  }

  predicate PostedAt(e: Event, c: Comment) {
    e == Post(c.issue, c.login, c.kind, c.viaApp, c.body)
  }

  /** Every comment was posted by an event of the run, at the instant it bears. */
  lemma {:induction false} CommentsWerePosted(start: System, events: seq<Event>, c: Comment) returns (k: nat)
    requires start.comments == [] && c in Run(start, events).comments
    ensures k < |events| && PostedAt(events[k], c) && c.at == Run(start, events[..k]).now
  {
    var n := |events| - 1;
    var before := Run(start, events[..n]);
    if c in before.comments {
      k := CommentsWerePosted(start, events[..n], c);
      assert events[..n][..k] == events[..k];
    } else {
      k := n;
    }
  }

  lemma {:induction false} ReadCommentOf(py: Python, c: Comment, now: int, e: Reaffirmation)
    requires Faithful(py, c.at) && ReadComment(py, ToJson(py, c), now) == Value(Some(e))
    ensures e == Reaffirmation(c.at, c.login, e.windowOpenedAt) && c.at <= now
    ensures py.lower(Strip(c.kind)) != "bot" && !c.viaApp
    ensures ReaffirmedInstant(py, SplitLines(c.body)) == At(e.windowOpenedAt)
  {
    CommentFields(py, c);
    hide ParseInstant, ReaffirmedInstant, Strip, SplitLines, ToJson, Get;
  }

  lemma {:induction false} EntryComment(py: Python, some: seq<Comment>, now: int, e: Reaffirmation) returns (c: Comment)
    requires ReadComments(py, Payload(py, some), now).Value? && e in ReadComments(py, Payload(py, some), now).value
    ensures c in some && ReadComment(py, ToJson(py, c), now) == Value(Some(e))
  {
    var n := |some| - 1;
    var earlier := Payload(py, some[..n]);
    assert Payload(py, some)[..n] == earlier;
    if e in ReadComments(py, earlier, now).value {
      c := EntryComment(py, some[..n], now, e);
    } else {
      c := some[n];
    }
  }

  /** Where an entry of a cycle's reading came from. */
  lemma {:induction false} EntryOrigin(py: Python, start: System, events: seq<Event>, read: Attention, w: Window, e: Reaffirmation)
    returns (k: nat)
    requires start.comments == [] && FaithfulFor(py, Run(start, events).comments)
    requires ReadFrom(py, Run(start, events), read)
    requires e in Entries(w, read) && Attends(py, w, e)
    ensures k < |events| && IsOwnersWord(py, events[k], w)
    ensures e.at == Run(start, events[..k]).now <= Run(start, events).now
  {
    var s := Run(start, events);
    var issue := w.reaffirmIssue.value;
    var some: seq<Comment> :| (forall c <- some :: c in s.comments && c.issue == issue)
                              && ReadComments(py, Payload(py, some), s.now) == Value(read[issue].value);
    var c := EntryComment(py, some, s.now, e);
    ReadCommentOf(py, c, s.now, e);
    k := CommentsWerePosted(start, events, c);
  }

  /** One cycle: what the absence of an alert over a live posture establishes. */
  lemma {:induction false} SilentCycle(
    py: Python, states: States, windows: seq<Window>, now: int, judges: Judges, read: Attention)
    requires AnyLive(states) && !Evaluate(py, states, Some(windows), now, judges, read).decision.Alerts()
    ensures exists w <- windows :: w.Covers(now)
    ensures forall w <- windows :: w.Covers(now) ==> IsAttended(py, w, now, read)
    ensures JudgeOn(judges) ==> exists w <- windows :: w.Covers(now) && w.judge
  {
    var active := Active(windows, now);
    assert active[0] in windows;
    assert forall w <- active :: w in windows && w.Covers(now);
  }

  /** Over every run: a live posture that raises no alert lies inside a declared
      window, every window it lies inside was attended by its own owner within
      the day, and the judge, if any host reports it on, was declared. */
  lemma {:induction false} SilenceMeansAttended(
    py: Python, start: System, events: seq<Event>, states: States, judges: Judges, read: Attention)
    requires start.comments == [] && FaithfulFor(py, Run(start, events).comments)
    requires ReadFrom(py, Run(start, events), read)
    requires AnyLive(states)
    requires var s := Run(start, events); !Evaluate(py, states, Some(s.windows), s.now, judges, read).decision.Alerts()
    ensures var s := Run(start, events);
            && (exists w <- s.windows :: w.Covers(s.now))
            && (forall w <- s.windows :: w.Covers(s.now) ==> AttendedInRun(py, start, events, w))
            && (JudgeOn(judges) ==> exists w <- s.windows :: w.Covers(s.now) && w.judge)
  {
    var s := Run(start, events);
    SilentCycle(py, states, s.windows, s.now, judges, read);
    forall w | w in s.windows && w.Covers(s.now) ensures AttendedInRun(py, start, events, w) {
      var latest := Latest(py, w, Entries(w, read), w.openedAt);
      if latest != w.openedAt {
        var e :| e in Entries(w, read) && Attends(py, w, e) && e.at == latest;
        var k := EntryOrigin(py, start, events, read, w, e);
      }
    }
  }

  /** No entry the parser keeps can place a covering window's attention in the future. */
  lemma {:induction false} AttentionIsNotForwardDated(py: Python, w: Window, payload: seq<Json>, now: int)
    requires w.Covers(now) && ReadComments(py, payload, now).Value?
    ensures w.openedAt <= Latest(py, w, ReadComments(py, payload, now).value, w.openedAt) <= now
  {
  }

  // ---------- decoys ----------

  /** Whatever windows are added, and wherever, a lapsed window keeps the alert
      up. The reading may grow with the added windows; for the windows that were
      there it is the same. */
  lemma {:induction false} NoDecoys(
    py: Python, states: States, windows: seq<Window>, more: seq<Window>, now: int, judges: Judges,
    read: Attention, readMore: Attention)
    requires Evaluate(py, states, Some(windows), now, judges, read).decision == LiveReaffirmationLapsed
    requires forall w <- windows :: w in more
    requires forall w <- windows :: Entries(w, readMore) == Entries(w, read)
    ensures Evaluate(py, states, Some(more), now, judges, readMore).decision.Alerts()
    ensures Evaluate(py, states, None, now, judges, readMore).decision.Alerts()
  {
    var stale := LapsedWindow(py, states, windows, now, judges, read);
    assert stale in more && !IsAttended(py, stale, now, readMore);
    if !Evaluate(py, states, Some(more), now, judges, readMore).decision.Alerts() {
      SilentCycle(py, states, more, now, judges, readMore);
      assert false;
    }
  }

  lemma {:induction false} LapsedWindow(
    py: Python, states: States, windows: seq<Window>, now: int, judges: Judges, read: Attention)
    returns (stale: Window)
    requires Evaluate(py, states, Some(windows), now, judges, read).decision == LiveReaffirmationLapsed
    ensures AnyLive(states) && stale in windows && stale.Covers(now) && !IsAttended(py, stale, now, read)
  {
    stale :| stale in Active(windows, now) && !IsAttended(py, stale, now, read);
  }

  // ---------- order ----------

  predicate SameKey(py: Python, a: Window, b: Window) {
    py.timestamp(CoverEnd(a)) == py.timestamp(CoverEnd(b)) && a.openedAt == b.openedAt && a.owner == b.owner
  }

  lemma {:induction false} KeyOrder(py: Python, a: Window, b: Window, c: Window)
    ensures SameKey(py, a, b) || KeyLess(py, a, b) || KeyLess(py, b, a)
    ensures KeyLess(py, a, b) && KeyLess(py, b, c) ==> KeyLess(py, a, c)
    ensures !(KeyLess(py, a, b) && KeyLess(py, b, a))
  {
    StringOrder(a.owner, b.owner, c.owner);
  }

  lemma {:induction false} GoverningIsFirst(py: Python, active: seq<Window>)
    requires active != []
    ensures forall w <- active :: !KeyLess(py, w, Governing(py, active))
  {
    var n := |active| - 1;
    if n == 0 {
      KeyOrder(py, active[0], active[0], active[0]);
    } else {
      GoverningIsFirst(py, active[..n]);
      var g, last := Governing(py, active[..n]), active[n];
      forall w | w in active ensures !KeyLess(py, w, Governing(py, active)) {
        KeyOrder(py, last, g, last);
        KeyOrder(py, w, last, g);
        KeyOrder(py, last, last, last);
        assert w in active[..n] || w == last;
      }
    }
  }

  /** No two of the windows tie. */
  ghost predicate DistinctKeys(py: Python, windows: seq<Window>) {
    forall v <- windows, w <- windows :: SameKey(py, v, w) ==> v == w
  }

  lemma {:induction false} GoverningIgnoresOrder(py: Python, a: seq<Window>, b: seq<Window>)
    requires a != [] && b != [] && (forall w :: w in a <==> w in b) && DistinctKeys(py, a)
    ensures Governing(py, a) == Governing(py, b)
  {
    GoverningIsFirst(py, a);
    GoverningIsFirst(py, b);
    KeyOrder(py, Governing(py, a), Governing(py, b), Governing(py, a));
  }

  ghost predicate SameMembers(c: seq<Window>, d: seq<Window>) { forall w :: w in c <==> w in d }

  /** The window's issue was looked for and could not be read. */
  predicate Unreadable(w: Window, read: Attention) {
    w.reaffirmIssue.Some? && w.reaffirmIssue.value in read && read[w.reaffirmIssue.value] == None
  }

  /** Whichever of the two governs these windows, the verdict is the same: their
      issues are both unreadable or neither is, and they have one mode, unless
      something that all the windows share decides. */
  predicate Agree(
    py: Python, v: Window, w: Window, active: seq<Window>, now: int, judges: Judges, read: Attention)
  {
    || (judges != map[] && !AnyRead(judges))
    || (Unreadable(v, read) && Unreadable(w, read))
    || (!Unreadable(v, read) && !Unreadable(w, read)
        && (|| (exists u <- active :: !IsAttended(py, u, now, read))
            || (JudgeOn(judges) && !exists u <- active :: u.judge)
            || v.mode == w.mode))
  }

  lemma {:induction false} CoveredAgree(
    py: Python, c: seq<Window>, d: seq<Window>, now: int, judges: Judges, read: Attention, complete: bool)
    requires c != [] && d != [] && SameMembers(c, d)
    ensures EvaluateCovered(py, c, now, judges, read, complete) == EvaluateCovered(py, d, now, judges, read, complete)
       <==> Agree(py, Governing(py, c), Governing(py, d), c, now, judges, read)
  {
    hide Governing, IsAttended, AnyRead, JudgeOn;
  }

  /** The decision looks at the covering windows. */
  predicate Covered(states: States, windows: seq<Window>, now: int) {
    AnyRead(states) && !AnyUnheardOf(states) && AnyLive(states) && Active(windows, now) != []
  }

  lemma {:induction false} Permuted(a: seq<Window>, b: seq<Window>, now: int)
    requires multiset(a) == multiset(b)
    ensures SameMembers(a, b) && SameMembers(Active(a, now), Active(b, now))
    ensures Active(a, now) == [] <==> Active(b, now) == []
  {
    forall w ensures w in a <==> w in b {
      assert w in multiset(a) <==> w in multiset(b);
    }
    hide Active;
    var c, d := Active(a, now), Active(b, now);
    if c != [] { assert c[0] in d; }
    if d != [] { assert d[0] in c; }
  }

  /** Two orders of one list give the same result if and only if the windows that
      govern them agree, where covering windows decide at all. */
  lemma {:induction false} OrderExactly(
    py: Python, states: States, a: seq<Window>, b: seq<Window>, now: int, judges: Judges, read: Attention)
    requires multiset(a) == multiset(b)
    ensures Evaluate(py, states, Some(a), now, judges, read) == Evaluate(py, states, Some(b), now, judges, read)
       <==> (Covered(states, a, now) && Covered(states, b, now) ==>
              Agree(py, Governing(py, Active(a, now)), Governing(py, Active(b, now)), Active(a, now), now, judges, read))
  {
    Permuted(a, b, now);
    hide Active, EvaluateCovered, Agree, AnyRead, AnyUnheardOf, AnyLive;
    if Active(a, now) != [] {
      CoveredAgree(py, Active(a, now), Active(b, now), now, judges, read, AllRead(states) && AllRead(judges));
    }
  }

  /** When no two covering windows tie, the decision does not depend on the
      order in which the file lists the windows. */
  lemma {:induction false} OrderDoesNotMatter(
    py: Python, states: States, a: seq<Window>, b: seq<Window>, now: int, judges: Judges, read: Attention)
    requires multiset(a) == multiset(b) && DistinctKeys(py, Active(a, now))
    ensures Evaluate(py, states, Some(a), now, judges, read) == Evaluate(py, states, Some(b), now, judges, read)
  {
    hide Active, Evaluate, Covered, DistinctKeys, Governing;
    OrderExactly(py, states, a, b, now, judges, read);
    Permuted(a, b, now);
    if Active(a, now) != [] {
      GoverningIgnoresOrder(py, Active(a, now), Active(b, now));
    }
  }

  // ---------- which ties matter ----------

  /** No window precedes it; it governs when it is listed first. */
  ghost predicate TiesForFirst(py: Python, active: seq<Window>, g: Window) {
    g in active && forall w <- active :: !KeyLess(py, w, g)
  }

  lemma {:induction false} ListedFirstGoverns(py: Python, g: Window, rest: seq<Window>)
    requires forall w <- rest :: !KeyLess(py, w, g)
    ensures Governing(py, [g] + rest) == g
  {
    hide KeyLess;
    if rest != [] {
      var n := |rest| - 1;
      assert ([g] + rest)[..n + 1] == [g] + rest[..n];
      ListedFirstGoverns(py, g, rest[..n]);
    }
  }

  /** The list with one of its windows moved to the front. */
  lemma {:induction false} MovedToFront(py: Python, a: seq<Window>, g: Window, now: int) returns (b: seq<Window>)
    requires TiesForFirst(py, Active(a, now), g)
    ensures multiset(b) == multiset(a) && Active(b, now) != [] && Governing(py, Active(b, now)) == g
  {
    hide KeyLess;
    var i :| 0 <= i < |a| && a[i] == g;
    var rest := a[..i] + a[i + 1..];
    b := [g] + rest;
    assert a == a[..i] + [g] + a[i + 1..];
    assert multiset(b) == multiset(a);
    assert b[0] == g && b[1..] == rest && Active(b, now) == [g] + Active(rest, now);
    forall w | w in Active(rest, now) ensures !KeyLess(py, w, g) { assert w in a; }
    ListedFirstGoverns(py, g, Active(rest, now));
  }

  /** The order of the list never matters if and only if any two windows that tie for
      first agree. */
  lemma {:induction false} TiesExactly(
    py: Python, states: States, a: seq<Window>, now: int, judges: Judges, read: Attention)
    requires Covered(states, a, now)
    ensures (forall v, w | TiesForFirst(py, Active(a, now), v) && TiesForFirst(py, Active(a, now), w) ::
               Agree(py, v, w, Active(a, now), now, judges, read))
       <==> (forall b: seq<Window> | multiset(b) == multiset(a) ::
               Evaluate(py, states, Some(b), now, judges, read) == Evaluate(py, states, Some(a), now, judges, read))
  {
    hide Active, Evaluate, Agree, TiesForFirst, Governing, AnyRead, AnyUnheardOf, AnyLive, SameMembers;
    if forall v, w | TiesForFirst(py, Active(a, now), v) && TiesForFirst(py, Active(a, now), w) ::
         Agree(py, v, w, Active(a, now), now, judges, read) {
      forall b: seq<Window> | multiset(b) == multiset(a)
        ensures Evaluate(py, states, Some(b), now, judges, read) == Evaluate(py, states, Some(a), now, judges, read)
      {
        GoverningTies(py, a, a, now);
        GoverningTies(py, a, b, now);
        OrderExactly(py, states, a, b, now, judges, read);
      }
    } else {
      var v, w :| TiesForFirst(py, Active(a, now), v) && TiesForFirst(py, Active(a, now), w)
               && !Agree(py, v, w, Active(a, now), now, judges, read);
      TwoOrders(py, states, a, v, w, now, judges, read);
    }
  }

  lemma {:induction false} GoverningTies(py: Python, a: seq<Window>, b: seq<Window>, now: int)
    requires multiset(a) == multiset(b) && Active(a, now) != []
    ensures Active(b, now) != [] && TiesForFirst(py, Active(a, now), Governing(py, Active(b, now)))
  {
    Permuted(a, b, now);
    hide Active, KeyLess, Governing;
    GoverningIsFirst(py, Active(b, now));
  }

  /** Two windows that tie for first and do not agree give two verdicts. */
  lemma {:induction false} TwoOrders(
    py: Python, states: States, a: seq<Window>, v: Window, w: Window, now: int, judges: Judges, read: Attention)
    requires Covered(states, a, now) && TiesForFirst(py, Active(a, now), v) && TiesForFirst(py, Active(a, now), w)
    requires !Agree(py, v, w, Active(a, now), now, judges, read)
    ensures exists b: seq<Window> :: multiset(b) == multiset(a)
              && Evaluate(py, states, Some(b), now, judges, read) != Evaluate(py, states, Some(a), now, judges, read)
  {
    var b := MovedToFront(py, a, v, now);
    var c := MovedToFront(py, a, w, now);
    Permuted(a, b, now);
    hide Active, Evaluate, Governing, AnyRead, KeyLess, IsAttended, JudgeOn;
    OrderExactly(py, states, b, c, now, judges, read);
    assert Agree(py, v, w, Active(b, now), now, judges, read) <==> Agree(py, v, w, Active(a, now), now, judges, read);
    hide Agree, SameMembers;
    assert Covered(states, b, now);
  }

  const ONE_HOST: States := map["host" := Some("live")]

  lemma {:induction false} OneHostIsLive()
    ensures AnyRead(ONE_HOST) && !AnyUnheardOf(ONE_HOST) && AnyLive(ONE_HOST)
  {
    assert HostLive(ONE_HOST, "host") && Read(ONE_HOST, "host");
  }

  lemma {:induction false} LiveHostIsCovered(py: Python, windows: seq<Window>, now: int, read: Attention)
    requires Active(windows, now) == windows != []
    ensures Evaluate(py, ONE_HOST, Some(windows), now, map[], read)
         == EvaluateCovered(py, windows, now, map[], read, AllRead(ONE_HOST) && AllRead<bool>(map[]))
  {
    OneHostIsLive();
    hide Active, EvaluateCovered, AnyRead, AnyUnheardOf, AnyLive, AllRead, ONE_HOST;
  }

  /** A pair of fresh time-boxed windows, of which the first governs. */
  lemma {:induction false} GovernedPair(py: Python, v: Window, w: Window, now: int, read: Attention, complete: bool)
    requires v.openedAt == now && w.openedAt == now && v.mode == TimeBoxed && Governing(py, [v, w]) == v
    ensures EvaluateCovered(py, [v, w], now, map[], read, complete).decision
         == if Unreadable(v, read) then Unknown else LiveWithinDeclaredWindow
  {
    assert IsAttended(py, v, now, read) && IsAttended(py, w, now, read);
    hide Governing, IsAttended;
    assert !JudgeOn(map[]);
  }

  /** With a tie the order can matter: of two windows that differ only in their
      issue, the one listed first decides whether an unreadable issue shows. */
  lemma {:induction false} TiesDependOnOrder(py: Python, w: Window, now: int)
    requires w.openedAt == now && w.Covers(now) && w.reaffirmIssue == Some(1) && w.mode == TimeBoxed
    ensures var v := w.(reaffirmIssue := Some(2));
            var read: Attention := map[1 := None];
            && Evaluate(py, ONE_HOST, Some([w, v]), now, map[], read).decision == Unknown
            && Evaluate(py, ONE_HOST, Some([v, w]), now, map[], read).decision == LiveWithinDeclaredWindow
  {
    var v := w.(reaffirmIssue := Some(2));
    var read: Attention := map[1 := None];
    assert SameKey(py, v, w) && SameKey(py, w, v) && v.Covers(now);
    assert Unreadable(w, read) && !Unreadable(v, read);
    hide Active, Governing, Evaluate, EvaluateCovered, AllRead, ONE_HOST, SameKey, Unreadable;
    TiedPair(py, w, v, now);
    TiedPair(py, v, w, now);
    LiveHostIsCovered(py, [w, v], now, read);
    LiveHostIsCovered(py, [v, w], now, read);
    GovernedPair(py, w, v, now, read, AllRead(ONE_HOST) && AllRead<bool>(map[]));
    GovernedPair(py, v, w, now, read, AllRead(ONE_HOST) && AllRead<bool>(map[]));
  }

  lemma {:induction false} TiedPair(py: Python, v: Window, w: Window, now: int)
    requires SameKey(py, v, w) && v.Covers(now) && w.Covers(now)
    ensures Active([v, w], now) == [v, w] && Governing(py, [v, w]) == v
  {
    StringOrder(w.owner, w.owner, w.owner);
    assert [v, w][1..] == [w] && [v, w][..1] == [v];
    assert Active([w], now) == [w];
  }

  // ---------- the two readings of "live" ----------

  /** What the note's reading of the probes says about the decision: "off" exactly
      where the decision is off and every host answered, which is complete exactly when
      every judge answered too, "on" never where it is
      off, and "cannot tell" only where it is unknown or off over a partial reading. */
  lemma {:induction false} LiveVerdictAgrees(
    py: Python, states: States, windows: seq<Window>, now: int, judges: Judges, read: Attention)
    ensures LiveVerdict(states) == Some(false) <==>
            Evaluate(py, states, Some(windows), now, judges, read).decision == OffAsDeclared && AllRead(states)
    ensures LiveVerdict(states) == Some(false) && AllRead(judges) <==>
            Evaluate(py, states, Some(windows), now, judges, read) == Result(OffAsDeclared, true)
    ensures LiveVerdict(states) == Some(true) ==>
            Evaluate(py, states, Some(windows), now, judges, read).decision != OffAsDeclared
    ensures LiveVerdict(states) == None ==>
            Evaluate(py, states, Some(windows), now, judges, read).decision in {OffAsDeclared, Unknown}
  {
  }
}
