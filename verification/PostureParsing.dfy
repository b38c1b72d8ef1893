/** Exactly when scripts/live_posture_check.py parses a declared window, and exactly
    when parsing stops with an exception instead of refusing the declaration. */
module PostureParsing {
  import opened Text
  import opened Json
  import opened Posture

  // ---------- the owner and the reason ----------

  /** GitHub's rule for a login, said of its characters. */
  ghost predicate SpellsLogin(s: string) {
    && 1 <= |s| <= 39
    && (forall c <- s :: 'A' <= c <= 'Z' || 'a' <= c <= 'z' || '0' <= c <= '9' || c == '-')
    && s[0] != '-' && s[|s| - 1] != '-' && forall i | 0 < i < |s| :: s[i] != '-' || s[i - 1] != '-'
  }

  lemma {:induction false} LoginExactly(s: string)
    ensures IsLogin(s) <==> SpellsLogin(s)
  {
    if SpellsLogin(s) {
      assert s[0] in s;
      forall i | 0 < i < |s| ensures MayFollow(s, i) {
        assert s[i] in s;
        if s[i] == '-' { assert i + 1 < |s| && s[i + 1] in s; }
      }
    }
    if IsLogin(s) {
      assert |s| > 1 ==> MayFollow(s, |s| - 1);
      forall i | 0 < i < |s| ensures s[i] != '-' || s[i - 1] != '-' { assert i > 1 ==> MayFollow(s, i - 1); }
      forall i | 0 <= i < |s| ensures IsAlnum(s[i]) || s[i] == '-' { assert i > 0 ==> MayFollow(s, i); }
    }
  }

  /** Blanks, at signs, a login, and blanks. */
  ghost predicate SpellsOwner(s: string) {
    exists before, ats, login, after :: SpelledOwner(s, before, ats, login, after)
  }

  ghost predicate SpelledOwner(s: string, before: string, ats: string, login: string, after: string) {
    && All(before, IsPySpace) && (forall c <- ats :: c == '@') && SpellsLogin(login) && All(after, IsPySpace)
    && s == before + (ats + login) + after
  }

  ghost predicate SaysSomething(s: string) { exists i | 0 <= i < |s| :: !IsPySpace(s[i]) }

  lemma {:induction false} LoginEnds(login: string)
    requires SpellsLogin(login)
    ensures login != "" && login[0] != '@' && !IsPySpace(login[0]) && !IsPySpace(login[|login| - 1])
  {
    assert login[0] in login && login[|login| - 1] in login;
  }

  lemma {:induction false} OwnerExactly(s: string)
    ensures IsLogin(TrimStart(Strip(s), IsAt)) <==> SpellsOwner(s)
  {
    var core := Strip(s);
    var login := TrimStart(core, IsAt);
    LoginExactly(login);
    hide IsLogin, SpellsLogin, IsPySpace, TrimStart, Trim;
    if SpellsLogin(login) {
      TrimParts(s, IsPySpace);
      StartParts(core, IsAt);
      assert SpelledOwner(s, Before(s, IsPySpace), Before(core, IsAt), login, After(s, IsPySpace));
    }
    if SpellsOwner(s) {
      var before: string, ats: string, name: string, after: string :| SpelledOwner(s, before, ats, name, after);
      LoginEnds(name);
      AtsEnd(ats, name);
      TrimPadded(before, ats + name, after, IsPySpace);
      TrimStartUnique(ats, name, IsAt);
    }
  }

  lemma {:induction false} AtsEnd(ats: string, name: string)
    requires (forall c <- ats :: c == '@') && name != "" && !IsPySpace(name[0]) && !IsPySpace(name[|name| - 1])
    ensures var s := ats + name; All(ats, IsAt) && !IsPySpace(s[0]) && !IsPySpace(s[|s| - 1])
  {
    forall i | 0 <= i < |ats| ensures IsAt(ats[i]) { assert ats[i] in ats; }
  }

  /** The names are in order exactly when the owner spells a login and the reason says
      something. */
  lemma {:induction false} NamesExactly(f: map<string, Json>)
    ensures NamesOk(f) <==>
      && Get(f, "owner").JString? && SpellsOwner(Get(f, "owner").s)
      && Get(f, "reason").JString? && SaysSomething(Get(f, "reason").s)
  {
    var owner, reason := Get(f, "owner"), Get(f, "reason");
    if owner.JString? {
      OwnerExactly(owner.s);
      if Strip(owner.s) == "" { assert TrimStart("", IsAt) == "" && !IsLogin(""); }
    }
    if reason.JString? { TrimEmpty(reason.s, IsPySpace); }
    hide IsLogin, SpellsOwner, IsPySpace, TrimStart;
  }

  // ---------- one window ----------

  /** How an entry spells an optional issue number. */
  function SpellIssue(issue: Option<int>): Json {
    if issue.Some? then JInt(issue.value) else JNull
  }

  predicate DescribesStanding(f: map<string, Json>, authorised: set<string>, w: Window) {
    && Get(f, "mode") == JString("standing") && Get(f, "expires_at") == JNull && w.expiresAt == None
    && w.reaffirmIssue.Some?
    && Get(f, "adr").JString? && w.adr == Some(Strip(Get(f, "adr").s))
    && SpellsRecord(w.adr.value)
    && w.adr.value in authorised && w.adr.value != "ADR-0070" && w.adr.value != "ADR-0071"
  }

  /** The name of a decision record: four digits behind `ADR-`. */
  predicate SpellsRecord(s: string) { |s| == 8 && "ADR-" <= s && All(s[4..], IsDigit) }

  predicate DescribesTimeBoxed(py: Python, f: map<string, Json>, w: Window) {
    && Get(f, "mode") == JString("time_boxed") && Get(f, "adr") == JNull && w.adr == None
    && w.expiresAt.Some? && ParseInstant(py, Get(f, "expires_at")) == At(w.expiresAt.value)
    && w.openedAt < w.expiresAt.value
    && (w.reaffirmIssue == None ==> w.expiresAt.value - w.openedAt <= 24 * 3_600_000_000)
  }

  /** The entry spells out this window, field by field, and the window is one that
      may be declared. */
  predicate Describes(py: Python, f: map<string, Json>, authorised: set<string>, w: Window) {
    && NamesOk(f) && DescribesCommon(py, f, w)
    && if w.mode.Standing? then DescribesStanding(f, authorised, w) else DescribesTimeBoxed(py, f, w)
  }

  /** The fields that a window has in either mode. */
  predicate DescribesCommon(py: Python, f: map<string, Json>, w: Window) {
    && Get(f, "owner") == JString(w.owner) && Get(f, "reason") == JString(w.reason)
    && ParseInstant(py, Get(f, "opened_at")) == At(w.openedAt)
    && Get(f, "judge") == JBool(w.judge)
    && Get(f, "reaffirm_issue") == SpellIssue(w.reaffirmIssue)
    && (w.reaffirmIssue.Some? ==> w.reaffirmIssue.value > 0)
  }

  lemma {:induction false} StandingExactly(py: Python, f: map<string, Json>, authorised: set<string>, w: Window)
    requires HeaderOk(py, f) && Get(f, "mode") == JString("standing") && Get(f, "judge").JBool? && IssueOk(Get(f, "reaffirm_issue"))
    ensures ParseStanding(py, f, authorised) == Value(w) <==>
      w.mode.Standing? && DescribesCommon(py, f, w) && DescribesStanding(f, authorised, w)
  {
    if Get(f, "adr").JString? { RecordName(Strip(Get(f, "adr").s)); }
    NamesAreStrings(f);
    hide NamesOk, ParseInstant, IsAdrName, Strip, SpellsRecord;
  }

  lemma {:induction false} TimeBoxedExactly(py: Python, f: map<string, Json>, w: Window)
    requires HeaderOk(py, f) && Get(f, "mode") == JString("time_boxed") && Get(f, "judge").JBool? && IssueOk(Get(f, "reaffirm_issue"))
    ensures ParseTimeBoxed(py, f) == Value(w) <==> w.mode.TimeBoxed? && DescribesCommon(py, f, w) && DescribesTimeBoxed(py, f, w)
  {
    NamesAreStrings(f);
    hide NamesOk, ParseInstant;
  }

  /** A window is parsed from the entries that spell it out, and from no others. */
  lemma {:induction false} ParsesExactly(py: Python, entry: Json, authorised: set<string>, w: Window)
    ensures ParseWindow(py, entry, authorised) == Value(w) <==> entry.JObject? && Describes(py, entry.fields, authorised, w)
  {
    hide NamesOk, ParseInstant, IsAdrName, Strip, SpellsRecord, ParseStanding, ParseTimeBoxed;
    if entry.JObject? && HeaderOk(py, entry.fields) && Get(entry.fields, "judge").JBool? && IssueOk(Get(entry.fields, "reaffirm_issue")) {
      var f := entry.fields;
      if Get(f, "mode") == JString("standing") {
        StandingExactly(py, f, authorised, w);
        hide DescribesStanding;
      } else if Get(f, "mode") == JString("time_boxed") {
        TimeBoxedExactly(py, f, w);
        hide DescribesTimeBoxed;
      }
    }
  }

  lemma {:induction false} RecordName(s: string)
    ensures IsAdrName(s) <==> SpellsRecord(s)
  {
    if |s| == 8 { assert forall i | 4 <= i < 8 :: s[i] == s[4..][i - 4]; }
  }

  lemma {:induction false} NamesAreStrings(f: map<string, Json>)
    requires NamesOk(f)
    ensures Get(f, "owner").JString? && Get(f, "reason").JString?
  {
  }

  /** The expiry is read: the entry is time-boxed and cites no record, and all else
      that is read before is in order. */
  predicate ReadsExpiry(f: map<string, Json>) {
    && Get(f, "mode") == JString("time_boxed") && Get(f, "judge").JBool? && IssueOk(Get(f, "reaffirm_issue"))
    && Get(f, "adr") == JNull
  }

  /** An entry that stops the parser: with the owner and the reason in order, the
      opening overflows, or the mode is a list or an object, or the expiry is read
      and overflows. */
  predicate Raises(py: Python, entry: Json) {
    && entry.JObject? && NamesOk(entry.fields)
    && match ParseInstant(py, Get(entry.fields, "opened_at"))
       case NoInstant => false
       case Overflow => true
       case At(_) =>
         || Unhashable(Get(entry.fields, "mode"))
         || (ReadsExpiry(entry.fields) && ParseInstant(py, Get(entry.fields, "expires_at")).Overflow?)
  }

  lemma {:induction false} RaisesExactly(py: Python, entry: Json, authorised: set<string>)
    ensures ParseWindow(py, entry, authorised) == Raised <==> Raises(py, entry)
  {
    hide NamesOk, ParseInstant, IsAdrName, Strip;
    if entry.JObject? && NamesOk(entry.fields) { NamesAreStrings(entry.fields); }
  }

  // ---------- the whole declaration ----------

  lemma {:induction false} CollectRaises<T>(results: seq<Parsed<T>>)
    ensures Collect(results) == Raised <==>
      exists k | 0 <= k < |results| :: results[k].Raised? && forall i | 0 <= i < k :: results[i].Value?
  {
    if results != [] && results[0].Value? {
      CollectRaises(results[1..]);
      if k :| 0 <= k < |results| && results[k].Raised? && forall i | 0 <= i < k :: results[i].Value? {
        assert results[1..][k - 1].Raised? && forall i | 0 <= i < k - 1 :: results[1..][i].Value?;
      }
      if k :| 0 <= k < |results[1..]| && results[1..][k].Raised? && forall i | 0 <= i < k :: results[1..][i].Value? {
        assert results[k + 1].Raised? && forall i | 0 < i < k + 1 :: results[i] == results[1..][i - 1];
      }
    }
  }

  lemma {:induction false} CollectValues<T>(results: seq<Parsed<T>>, values: seq<T>)
    ensures Collect(results) == Value(values) <==>
      |results| == |values| && forall i | 0 <= i < |results| :: results[i] == Value(values[i])
  {
    var r := Collect(results);
    if |results| == |values| && forall i | 0 <= i < |results| :: results[i] == Value(values[i]) {
      assert r.value == values;
    }
  }

  predicate HasList(payload: Json) { payload.JObject? && Get(payload.fields, "windows").JArray? }

  /** An entry of the list stops the parser, and every one before it is a window. */
  ghost predicate ListRaises(py: Python, entries: seq<Json>, authorised: set<string>) {
    exists k | 0 <= k < |entries| ::
      Raises(py, entries[k]) && forall i | 0 <= i < k :: ParseWindow(py, entries[i], authorised).Value?
  }

  /** Parsing the declaration stops with an exception exactly when an entry of its
      list does, before any other entry is refused. */
  lemma {:induction false} DeclarationRaises(py: Python, payload: Json, authorised: set<string>)
    ensures ParseWindows(py, payload, authorised) == Raised <==>
      HasList(payload) && ListRaises(py, Get(payload.fields, "windows").items, authorised)
  {
    hide ParseWindow, Raises, Collect;
    if HasList(payload) {
      var raw := Get(payload.fields, "windows").items;
      var results := seq(|raw|, i requires 0 <= i < |raw| => ParseWindow(py, raw[i], authorised));
      CollectRaises(results);
      forall i | 0 <= i < |raw| ensures results[i] == Raised <==> Raises(py, raw[i]) { RaisesExactly(py, raw[i], authorised); }
    }
  }

  /** Parsing gives these windows exactly when the entries spell them out, in order. */
  lemma {:induction false} DeclarationParses(py: Python, payload: Json, authorised: set<string>, ws: seq<Window>)
    ensures ParseWindows(py, payload, authorised) == Value(ws) <==>
      && HasList(payload) && |Get(payload.fields, "windows").items| == |ws|
      && forall i | 0 <= i < |ws| ::
           var entry := Get(payload.fields, "windows").items[i]; entry.JObject? && Describes(py, entry.fields, authorised, ws[i])
  {
    hide ParseWindow, Describes, Collect;
    if HasList(payload) {
      var raw := Get(payload.fields, "windows").items;
      var results := seq(|raw|, i requires 0 <= i < |raw| => ParseWindow(py, raw[i], authorised));
      CollectValues(results, ws);
      if |raw| == |ws| {
        forall i | 0 <= i < |ws| { ParsesExactly(py, raw[i], authorised, ws[i]); }
      }
    }
  }

  // ---------- entries that raise ----------

  lemma {:induction false} OneLetterOwner()
    ensures Strip("a") == "a" && Strip("r") == "r" && TrimStart("a", IsAt) == "a" && IsLogin("a")
  {
    TrimPadded("", "a", "", IsPySpace);
    TrimPadded("", "r", "", IsPySpace);
    assert "" + "a" + "" == "a" && "" + "r" + "" == "r";
  }

  /** An entry with this opening, this expiry and this mode, and nothing amiss in the
      rest. */
  function SampleEntry(start: string, expires: Json, mode: Json): Json {
    JObject(map["owner" := JString("a"), "reason" := JString("r"), "judge" := JBool(false),
                "opened_at" := JString(start), "expires_at" := expires, "mode" := mode])
  }

  lemma {:induction false} SampleFields(start: string, expires: Json, mode: Json)
    ensures var entry := SampleEntry(start, expires, mode);
            && entry.JObject? && NamesOk(entry.fields)
            && Get(entry.fields, "opened_at") == JString(start) && Get(entry.fields, "expires_at") == expires
            && Get(entry.fields, "mode") == mode && Get(entry.fields, "judge") == JBool(false)
            && Get(entry.fields, "adr") == JNull && Get(entry.fields, "reaffirm_issue") == JNull
  {
    OneLetterOwner();
    hide Strip, TrimStart, IsLogin;
  }

  function Alone(entry: Json): Json { JObject(map["windows" := JArray([entry])]) }

  lemma {:induction false} AloneRaises(py: Python, entry: Json, authorised: set<string>)
    requires Raises(py, entry)
    ensures ParseWindows(py, Alone(entry), authorised) == Raised
  {
    hide ParseWindows, Raises;
    var entries := Get(Alone(entry).fields, "windows").items;
    assert HasList(Alone(entry)) && entries == [entry] && Raises(py, entries[0]);
    DeclarationRaises(py, Alone(entry), authorised);
  }

  /** A list for the mode, with any instant as the opening. */
  lemma {:induction false} ModeListRaises(py: Python, start: string, authorised: set<string>)
    requires ParseInstant(py, JString(start)).At?
    ensures ParseWindows(py, Alone(SampleEntry(start, JNull, JArray([]))), authorised) == Raised
  {
    hide ParseInstant, NamesOk, SampleEntry, ParseWindows, Alone;
    SampleFields(start, JNull, JArray([]));
    AloneRaises(py, SampleEntry(start, JNull, JArray([])), authorised);
  }

  /** An opening in the first hour of the calendar, east of Greenwich, whatever the
      mode and the expiry. */
  lemma {:induction false} EarlyOpeningRaises(py: Python, expires: Json, mode: Json, authorised: set<string>)
    requires ReadsCalendarEnds(py)
    ensures ParseWindows(py, Alone(SampleEntry(TOO_EARLY, expires, mode)), authorised) == Raised
  {
    CalendarEndsOverflow(py);
    hide ParseInstant, NamesOk, SampleEntry, ParseWindows, Alone, TOO_EARLY, TOO_LATE, ReadsCalendarEnds;
    SampleFields(TOO_EARLY, expires, mode);
    AloneRaises(py, SampleEntry(TOO_EARLY, expires, mode), authorised);
  }

  /** An expiry in the last hours of the calendar, west of Greenwich. */
  lemma {:induction false} LateExpiryRaises(py: Python, start: string, authorised: set<string>)
    requires ReadsCalendarEnds(py) && ParseInstant(py, JString(start)).At?
    ensures ParseWindows(py, Alone(SampleEntry(start, JString(TOO_LATE), JString("time_boxed"))), authorised) == Raised
  {
    CalendarEndsOverflow(py);
    hide ParseInstant, NamesOk, SampleEntry, ParseWindows, Alone, TOO_EARLY, TOO_LATE, ReadsCalendarEnds;
    SampleFields(start, JString(TOO_LATE), JString("time_boxed"));
    AloneRaises(py, SampleEntry(start, JString(TOO_LATE), JString("time_boxed")), authorised);
  }

  // ---------- comments ----------

  predicate IsBot(py: Python, kind: Json) { kind.JString? && py.lower(Strip(kind.s)) == "bot" }

  /** A comment that stops the parser: GitHub's own instant of it overflows, or it is
      a person's, not dated after `now`, and the instant that it names overflows. */
  predicate CommentRaises(py: Python, comment: Json, now: int) {
    && comment.JObject? && Get(comment.fields, "user").JObject?
    && var user, body := Get(comment.fields, "user").fields, Get(comment.fields, "body");
       match ParseInstant(py, Get(comment.fields, "created_at"))
       case NoInstant => false
       case Overflow => true
       case At(created) =>
         && Get(user, "login").JString? && Get(user, "type").JString? && body.JString?
         && !IsBot(py, Get(user, "type")) && Get(comment.fields, "performed_via_github_app") == JNull
         && created <= now && ReaffirmedInstant(py, SplitLines(body.s)) == Overflow
  }

  lemma {:induction false} CommentRaisesExactly(py: Python, comment: Json, now: int)
    ensures ReadComment(py, comment, now) == Raised <==> CommentRaises(py, comment, now)
  {
    hide ParseInstant, ReaffirmedInstant, Strip, SplitLines;
  }

  /** A comment that is not to be trusted: GitHub records who posted it, as what, when
      and with which text, and this one lacks one of the four. */
  predicate Malformed(py: Python, comment: Json) {
    || !comment.JObject? || !Get(comment.fields, "user").JObject?
    || (&& ParseInstant(py, Get(comment.fields, "created_at")) != Overflow
        && (|| !Get(Get(comment.fields, "user").fields, "login").JString?
            || !Get(Get(comment.fields, "user").fields, "type").JString?
            || !Get(comment.fields, "body").JString?
            || ParseInstant(py, Get(comment.fields, "created_at")) == NoInstant))
  }

  /** A comment by a person, not through an app and not dated after `now`, that names the
      instant of the entry. */
  predicate Says(py: Python, comment: Json, now: int, e: Reaffirmation) {
    && comment.JObject? && Get(comment.fields, "user").JObject?
    && var user, body := Get(comment.fields, "user").fields, Get(comment.fields, "body");
       && Get(user, "login") == JString(e.login) && Get(user, "type").JString? && !IsBot(py, Get(user, "type")) && body.JString?
       && ParseInstant(py, Get(comment.fields, "created_at")) == At(e.at) && e.at <= now
       && Get(comment.fields, "performed_via_github_app") == JNull
       && ReaffirmedInstant(py, SplitLines(body.s)) == At(e.windowOpenedAt)
  }

  /** What one comment yields, in every case. */
  lemma {:induction false} CommentExactly(py: Python, comment: Json, now: int, e: Reaffirmation)
    ensures ReadComment(py, comment, now) == Raised <==> CommentRaises(py, comment, now)
    ensures ReadComment(py, comment, now) == Refused <==> Malformed(py, comment)
    ensures ReadComment(py, comment, now) == Value(Some(e)) <==> Says(py, comment, now, e)
  {
    hide ParseInstant, ReaffirmedInstant, Strip, SplitLines;
  }

  /** Reading the comments gives nothing exactly when one of them is malformed, before
      any other stops the parser. */
  lemma {:induction false} CommentsRefuse(py: Python, comments: seq<Json>, now: int)
    ensures ReadComments(py, comments, now) == Refused <==>
      exists k | 0 <= k < |comments| ::
        Malformed(py, comments[k]) && forall i | 0 <= i < k :: ReadComment(py, comments[i], now).Value?
  {
    hide ReadComment, Malformed;
    if comments != [] {
      var n := |comments| - 1;
      CommentsRefuse(py, comments[..n], now);
      CommentsRaise(py, comments[..n], now);
      CommentExactly(py, comments[n], now, Reaffirmation(0, "", 0));
      assert forall i | 0 <= i < n :: comments[..n][i] == comments[i];
      if k :| 0 <= k < |comments| && Malformed(py, comments[k]) && forall i | 0 <= i < k :: ReadComment(py, comments[i], now).Value? {
        CommentExactly(py, comments[k], now, Reaffirmation(0, "", 0));
        if k < n { assert Malformed(py, comments[..n][k]); }
      }
      if k :| 0 <= k < n && Malformed(py, comments[..n][k]) && forall i | 0 <= i < k :: ReadComment(py, comments[..n][i], now).Value? {
        assert Malformed(py, comments[k]) && forall i | 0 <= i < k :: comments[i] == comments[..n][i];
      }
    }
  }

  /** Reading the comments stops with an exception exactly when one of them does,
      before any other is refused. */
  lemma {:induction false} CommentsRaise(py: Python, comments: seq<Json>, now: int)
    ensures ReadComments(py, comments, now) == Raised <==>
      exists k | 0 <= k < |comments| ::
        CommentRaises(py, comments[k], now) && forall i | 0 <= i < k :: ReadComment(py, comments[i], now).Value?
    ensures ReadComments(py, comments, now).Value? <==> forall i | 0 <= i < |comments| :: ReadComment(py, comments[i], now).Value?
  {
    hide ReadComment, CommentRaises;
    if comments != [] {
      var n := |comments| - 1;
      CommentsRaise(py, comments[..n], now);
      CommentRaisesExactly(py, comments[n], now);
      assert forall i | 0 <= i < n :: comments[..n][i] == comments[i];
      if k :| 0 <= k < |comments| && CommentRaises(py, comments[k], now) && forall i | 0 <= i < k :: ReadComment(py, comments[i], now).Value? {
        CommentRaisesExactly(py, comments[k], now);
        if k < n { assert CommentRaises(py, comments[..n][k], now); }
      }
      if k :| 0 <= k < n && CommentRaises(py, comments[..n][k], now) && forall i | 0 <= i < k :: ReadComment(py, comments[..n][i], now).Value? {
        assert CommentRaises(py, comments[k], now) && forall i | 0 <= i < k :: comments[i] == comments[..n][i];
      }
    }
  }
}
