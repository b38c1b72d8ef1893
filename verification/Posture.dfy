/** Declared live-execution windows and the posture decision of
    scripts/live_posture_check.py. Instants are microseconds. */
module Posture {
  import opened Text
  import opened Json
  import opened FlyToml

  /** How long a window may go without its owner saying it is still wanted. */
  const CADENCE := 24 * HOUR

  const FLAG_OFF_STATE := "offline_by_config"

  const KNOWN_STATES: set<string> := {"live", "offline_by_config", "offline_by_no_key", "offline_by_bad_key"}

  const MECHANISM_OWN_ADRS: set<string> := {"ADR-0070", "ADR-0071"}

  datatype Mode = TimeBoxed | Standing

  datatype Window = Window(
    owner: string,
    reason: string,
    openedAt: int,
    expiresAt: Option<int>,
    mode: Mode,
    judge: bool,
    adr: Option<string>,
    reaffirmIssue: Option<int>)
  {
    /** Half open: the opening instant is covered, the expiry is not. */
    predicate Covers(now: int) {
      openedAt <= now && (expiresAt == None || now < expiresAt.value)
    }
  }

  datatype Reaffirmation = Reaffirmation(at: int, login: string, windowOpenedAt: int)

  /** What a parser may do: give a value, say that its input is not to be
      trusted, or stop with an exception. */
  datatype Parsed<+T> = Value(value: T) | Refused | Raised

  // ---------- parsing the declaration ----------

  predicate IsAlnum(c: char) { 'A' <= c <= 'Z' || 'a' <= c <= 'z' || '0' <= c <= '9' }

  predicate IsAt(c: char) { c == '@' }

  /** GitHub's rule for a login: letters and digits with single inner hyphens, at most 39. */
  predicate IsLogin(s: string) {
    1 <= |s| <= 39 && IsAlnum(s[0]) && forall i :: 0 < i < |s| ==> MayFollow(s, i)
  }

  predicate MayFollow(s: string, i: nat)
    requires i < |s|
  {
    IsAlnum(s[i]) || (s[i] == '-' && i + 1 < |s| && IsAlnum(s[i + 1]))
  }

  predicate IsAdrName(s: string) {
    |s| == 8 && s[..4] == "ADR-" && forall i :: 4 <= i < 8 ==> '0' <= s[i] <= '9'
  }

  /** The owner and the reason that every window needs, whatever its mode. */
  predicate NamesOk(f: map<string, Json>) {
    var owner, reason := Get(f, "owner"), Get(f, "reason");
    && owner.JString? && Strip(owner.s) != "" && IsLogin(TrimStart(Strip(owner.s), IsAt))
    && reason.JString? && Strip(reason.s) != ""
  }

  /** What is read before the mode is in order. */
  predicate HeaderOk(py: Python, f: map<string, Json>) {
    NamesOk(f) && ParseInstant(py, Get(f, "opened_at")).At?
  }

  /** `mode in WINDOW_MODES` raises for a value that cannot be hashed. */
  predicate Unhashable(j: Json) { j.JArray? || j.JObject? }

  predicate IssueOk(j: Json) { j == JNull || (j.JInt? && j.i > 0) }

  function Issue(j: Json): Option<int> { if j.JInt? then Some(j.i) else None }

  function ParseStanding(py: Python, f: map<string, Json>, authorised: set<string>): Parsed<Window>
    requires HeaderOk(py, f) && Get(f, "judge").JBool? && IssueOk(Get(f, "reaffirm_issue"))
  {
    var adr := Get(f, "adr");
    if Get(f, "expires_at") != JNull then Refused
    else if !adr.JString? || !IsAdrName(Strip(adr.s)) then Refused
    else if Strip(adr.s) in MECHANISM_OWN_ADRS || Strip(adr.s) !in authorised then Refused
    else if Get(f, "reaffirm_issue") == JNull then Refused
    else Value(Window(Get(f, "owner").s, Get(f, "reason").s, ParseInstant(py, Get(f, "opened_at")).t,
                      None, Standing, Get(f, "judge").b, Some(Strip(adr.s)), Issue(Get(f, "reaffirm_issue"))))
  }

  function ParseTimeBoxed(py: Python, f: map<string, Json>): Parsed<Window>
    requires HeaderOk(py, f) && Get(f, "judge").JBool? && IssueOk(Get(f, "reaffirm_issue"))
  {
    if Get(f, "adr") != JNull then Refused else
    var start := ParseInstant(py, Get(f, "opened_at")).t;
    match ParseInstant(py, Get(f, "expires_at"))
    case NoInstant => Refused
    case Overflow => Raised
    case At(expires) =>
      if expires <= start then Refused
      else if Get(f, "reaffirm_issue") == JNull && expires - start > CADENCE then Refused
      else Value(Window(Get(f, "owner").s, Get(f, "reason").s, start, Some(expires), TimeBoxed,
                        Get(f, "judge").b, None, Issue(Get(f, "reaffirm_issue"))))
  }

  function ParseWindow(py: Python, entry: Json, authorised: set<string>): (r: Parsed<Window>)
    ensures r.Value? ==> (r.value.mode == Standing <==> r.value.expiresAt == None)
    ensures r.Value? && r.value.mode == TimeBoxed ==> r.value.openedAt < r.value.expiresAt.value
    ensures r.Value? && r.value.reaffirmIssue == None ==>
      r.value.mode == TimeBoxed && r.value.expiresAt.value - r.value.openedAt <= CADENCE
  {
    if !entry.JObject? then Refused else
    var f := entry.fields;
    if !NamesOk(f) || ParseInstant(py, Get(f, "opened_at")).NoInstant? then Refused
    else if ParseInstant(py, Get(f, "opened_at")).Overflow? then Raised
    else if Unhashable(Get(f, "mode")) then Raised
    else if Get(f, "mode") != JString("standing") && Get(f, "mode") != JString("time_boxed") then Refused
    else if !Get(f, "judge").JBool? || !IssueOk(Get(f, "reaffirm_issue")) then Refused
    else if Get(f, "mode") == JString("standing") then ParseStanding(py, f, authorised)
    else ParseTimeBoxed(py, f)
  }

  /** All the values, in order; the first that is not a value decides. */
  function Collect<T>(results: seq<Parsed<T>>): (r: Parsed<seq<T>>)
    ensures r.Value? <==> forall i :: 0 <= i < |results| ==> results[i].Value?
    ensures r.Value? ==> |r.value| == |results| && forall i :: 0 <= i < |results| ==> results[i] == Value(r.value[i])
  {
    if results == [] then Value([]) else
    match results[0]
    case Refused => Refused
    case Raised => Raised
    case Value(first) =>
      match Collect(results[1..])
      case Value(rest) => Value([first] + rest)
      case Refused => Refused
      case Raised => Raised
  }

  function ParseEntries(py: Python, raw: seq<Json>, authorised: set<string>): Parsed<seq<Window>> {
    Collect(seq(|raw|, i requires 0 <= i < |raw| => ParseWindow(py, raw[i], authorised)))
  }

  function ParseWindows(py: Python, payload: Json, authorised: set<string>): Parsed<seq<Window>> {
    if !payload.JObject? || !Get(payload.fields, "windows").JArray? then Refused
    else ParseEntries(py, Get(payload.fields, "windows").items, authorised)
  }

  // ---------- re-affirmations ----------

  /** Markdown that may stand before the token. */
  predicate IsLeader(c: char) {
    c == ' ' || c == '\t' || c == '`' || c == '>' || c == '*' || c == '-' || c == '+' || c == '#' || c == '\U{2022}'
  }

  predicate IsMark(c: char) { c == '`' || c == '*' || c == '_' }

  const REAFFIRM_TOKEN := "REAFFIRM live-execution"

  /** The text after the token on one line of a comment, when the line starts
      with the token. */
  function AfterToken(line: string): Option<string> {
    var s := Strip(TrimStart(Strip(line), IsLeader));
    if REAFFIRM_TOKEN <= s && Strip(s[|REAFFIRM_TOKEN|..]) != "" then Some(Strip(s[|REAFFIRM_TOKEN|..]))
    else None
  }

  /** The window instant a comment body names: the first line that starts with
      the token decides. */
  function ReaffirmedInstant(py: Python, lines: seq<string>): Instant {
    if lines == [] then NoInstant else
    match AfterToken(lines[0])
    case None => ReaffirmedInstant(py, lines[1..])
    case Some(rest) => ParseInstant(py, JString(Trim(rest[..RunLength(rest, IsSolid)], IsMark)))
  }

  /** What GitHub's record of one comment yields: nothing for a machine's
      comment, one dated after `now`, or one that names no window. An instant that
      overflows stops the parser. */
  function ReadComment(py: Python, comment: Json, now: int): (r: Parsed<Option<Reaffirmation>>)
    ensures r.Value? && r.value.Some? ==> r.value.value.at <= now
  {
    if !comment.JObject? || !Get(comment.fields, "user").JObject? then Refused else
    var user := Get(comment.fields, "user").fields;
    var login, kind, body := Get(user, "login"), Get(user, "type"), Get(comment.fields, "body");
    var created := ParseInstant(py, Get(comment.fields, "created_at"));
    if created == Overflow then Raised
    else if !login.JString? || !kind.JString? || !body.JString? || created == NoInstant then Refused
    else if py.lower(Strip(kind.s)) == "bot" then Value(None)
    else if Get(comment.fields, "performed_via_github_app") != JNull then Value(None)
    else if created.t > now then Value(None)
    else
      match ReaffirmedInstant(py, SplitLines(body.s))
      case NoInstant => Value(None)
      case Overflow => Raised
      case At(target) => Value(Some(Reaffirmation(created.t, login.s, target)))
  }

  /** The entries of all the comments; the first comment that is malformed or stops
      the parser decides. */
  function ReadComments(py: Python, comments: seq<Json>, now: int): (r: Parsed<seq<Reaffirmation>>)
    ensures r.Value? ==> forall e <- r.value :: e.at <= now
  {
    if comments == [] then Value([]) else
    match ReadComments(py, comments[..|comments| - 1], now)
    case Refused => Refused
    case Raised => Raised
    case Value(earlier) =>
      match ReadComment(py, comments[|comments| - 1], now)
      case Refused => Refused
      case Raised => Raised
      case Value(entry) => Value(if entry.Some? then earlier + [entry.value] else earlier)
  }

  lemma {:induction false} StoppedPrefix(py: Python, comments: seq<Json>, k: nat, now: int)
    requires k <= |comments| && !ReadComments(py, comments[..k], now).Value?
    ensures ReadComments(py, comments, now) == ReadComments(py, comments[..k], now)
  {
    hide ReadComment;
    if k == |comments| {
      assert comments[..k] == comments;
    } else {
      var shorter := comments[..|comments| - 1];
      assert shorter[..k] == comments[..k];
      StoppedPrefix(py, shorter, k, now);
    }
  }

  /** `parse_reaffirmations`; refused when the payload is not a list of comments. */
  method ParseReaffirmations(py: Python, payload: Json, now: int) returns (found: Parsed<seq<Reaffirmation>>)
    ensures found == if payload.JArray? then ReadComments(py, payload.items, now) else Refused
  {
    hide ReadComment;
    if !payload.JArray? { return Refused; }
    var comments := payload.items;
    var entries: seq<Reaffirmation> := [];
    for i := 0 to |comments|
      invariant ReadComments(py, comments[..i], now) == Value(entries)
    {
      assert comments[..i + 1][..i] == comments[..i];
      var r := ReadComment(py, comments[i], now);
      if !r.Value? {
        StoppedPrefix(py, comments, i + 1, now);
        return if r.Raised? then Raised else Refused;
      }
      if r.value.Some? { entries := entries + [r.value.value]; }
    }
    assert comments[..|comments|] == comments;
    return Value(entries);
  }

  // ---------- attention ----------

  function Login(py: Python, s: string): string { py.lower(Strip(s)) }

  function Owner(py: Python, w: Window): string { TrimStart(Login(py, w.owner), IsAt) }

  /** Whether an entry names this window and comes from its declared owner. */
  predicate Attends(py: Python, w: Window, e: Reaffirmation) {
    e.windowOpenedAt == w.openedAt && Login(py, e.login) == Owner(py, w)
  }

  /** The latest of `latest` and the entries that attend the window. */
  function Latest(py: Python, w: Window, entries: seq<Reaffirmation>, latest: int): (r: int)
    ensures r >= latest
    ensures forall e <- entries :: Attends(py, w, e) ==> e.at <= r
    ensures r == latest || exists e <- entries :: Attends(py, w, e) && e.at == r
  {
    if entries == [] then latest
    else Latest(py, w, entries[1..], if Attends(py, w, entries[0]) && entries[0].at > latest then entries[0].at else latest)
  }

  method AttendedSince(py: Python, w: Window, entries: seq<Reaffirmation>) returns (latest: int)
    ensures latest == Latest(py, w, entries, w.openedAt)
  {
    latest := w.openedAt;
    var owner := TrimStart(py.lower(Strip(w.owner)), IsAt);
    for i := 0 to |entries|
      invariant Latest(py, w, entries, w.openedAt) == Latest(py, w, entries[i..], latest)
    {
      assert entries[i..][1..] == entries[i + 1..];
      if entries[i].windowOpenedAt != w.openedAt { continue; }
      if py.lower(Strip(entries[i].login)) != owner { continue; }
      if entries[i].at > latest { latest := entries[i].at; }
    }
    assert entries[|entries|..] == [];
  }

  type Attention = map<int, Option<seq<Reaffirmation>>>

  /** The entries read from the window's own issue; none when it names no issue
      or the issue could not be read. */
  function Entries(w: Window, read: Attention): seq<Reaffirmation> {
    if w.reaffirmIssue.Some? && w.reaffirmIssue.value in read && read[w.reaffirmIssue.value].Some?
    then read[w.reaffirmIssue.value].value else []
  }

  predicate IsAttended(py: Python, w: Window, now: int, read: Attention) {
    now - Latest(py, w, Entries(w, read), w.openedAt) < CADENCE
  }

  // ---------- the decision ----------

  datatype Decision =
    | OffAsDeclared
    | LiveWithinDeclaredWindow
    | LiveWithinStandingDeclaration
    | LiveUndeclared
    | LivePastDeclaredWindow
    | LiveReaffirmationLapsed
    | LiveJudgeUndeclared
    | Unknown
  {
    predicate Alerts() {
      LiveUndeclared? || LivePastDeclaredWindow? || LiveReaffirmationLapsed? || LiveJudgeUndeclared? || Unknown?
    }
  }

  /** `complete`: every endpoint probed answered, so the verdict may retire an alert. */
  datatype Result = Result(decision: Decision, complete: bool)

  type States = map<string, Option<string>>
  type Judges = map<string, Option<bool>>

  predicate Read<T>(m: map<string, Option<T>>, url: string) { url in m && m[url].Some? }

  predicate HostLive(states: States, url: string) {
    Read(states, url) && states[url].value != FLAG_OFF_STATE
  }

  predicate AnyRead<T(!new)>(m: map<string, Option<T>>) { exists url :: url in m && Read(m, url) }

  predicate AllRead<T(!new)>(m: map<string, Option<T>>) { forall url :: url in m ==> Read(m, url) }

  predicate AnyLive(states: States) { exists url :: url in states && HostLive(states, url) }

  predicate AnyUnheardOf(states: States) {
    exists url :: url in states && Read(states, url) && states[url].value !in KNOWN_STATES
  }

  predicate JudgeOn(judges: Judges) { exists url :: url in judges && judges[url] == Some(true) }

  function CoverEnd(w: Window): int { if w.expiresAt.Some? then w.expiresAt.value else FOREVER }

  /** The order that picks the window named in the verdict: the longest cover
      first, by its floating-point timestamp, then the earliest opening, then the
      owner. */
  predicate KeyLess(py: Python, a: Window, b: Window) {
    || py.timestamp(CoverEnd(a)) > py.timestamp(CoverEnd(b))
    || (py.timestamp(CoverEnd(a)) == py.timestamp(CoverEnd(b))
        && (a.openedAt < b.openedAt || (a.openedAt == b.openedAt && StringLess(a.owner, b.owner))))
  }

  /** `min`: the first window that no other one precedes. */
  function Governing(py: Python, active: seq<Window>): (g: Window)
    requires active != []
    ensures g in active
  {
    if |active| == 1 then active[0] else
    var g := Governing(py, active[..|active| - 1]);
    if KeyLess(py, active[|active| - 1], g) then active[|active| - 1] else g
  }

  function Active(windows: seq<Window>, now: int): (r: seq<Window>)
    ensures forall w :: w in r <==> w in windows && w.Covers(now)
  {
    if windows == [] then []
    else if windows[0].Covers(now) then [windows[0]] + Active(windows[1..], now)
    else Active(windows[1..], now)
  }

  /** The verdict once the posture is known to be live inside some window. */
  function EvaluateCovered(py: Python, active: seq<Window>, now: int, judges: Judges, read: Attention, complete: bool): Result
    requires active != []
  {
    var g := Governing(py, active);
    if g.reaffirmIssue.Some? && g.reaffirmIssue.value in read && read[g.reaffirmIssue.value] == None then
      Result(Unknown, false)
    else if judges != map[] && !AnyRead(judges) then Result(Unknown, false)
    else if exists w <- active :: !IsAttended(py, w, now, read) then Result(LiveReaffirmationLapsed, complete)
    else if JudgeOn(judges) && !exists w <- active :: w.judge then Result(LiveJudgeUndeclared, complete)
    else if g.mode == Standing then Result(LiveWithinStandingDeclaration, complete)
    else Result(LiveWithinDeclaredWindow, complete)
  }

  /** `_evaluate_posture_core` */
  function Evaluate(py: Python, states: States, windows: Option<seq<Window>>, now: int, judges: Judges, read: Attention): Result
  {
    var complete := AllRead(states) && AllRead(judges);
    if !AnyRead(states) then Result(Unknown, false)
    else if AnyUnheardOf(states) then Result(Unknown, complete)
    else if windows == None then Result(Unknown, complete)
    else if !AnyLive(states) then Result(OffAsDeclared, complete)
    else
      var active := Active(windows.value, now);
      if active == [] then
        if exists w <- windows.value :: w.expiresAt.Some? && w.expiresAt.value <= now
        then Result(LivePastDeclaredWindow, complete) else Result(LiveUndeclared, complete)
      else EvaluateCovered(py, active, now, judges, read, complete)
  }

  /** `_live_verdict`: is live execution on? Nothing when that cannot be told. */
  function LiveVerdict(states: States): Option<bool> {
    if exists url :: url in states && HostLive(states, url) && states[url].value in KNOWN_STATES then Some(true)
    else if !AnyRead(states) || AnyUnheardOf(states) || !AllRead(states) then None
    else Some(false)
  }

  // ---------- the gates on a committed flag ----------

  /** How each gate reads a flag's value: an absent key is off, and anything that
      is not an off word, a typo included, is on. */
  predicate FlagOn(value: Option<string>) {
    value.Some? && !IsOff(value.value)
  }

  /** `refuse_undeclared_flag`: the live flag may be committed on only inside a
      window, and not beside a declaration that cannot be read. */
  predicate RefusesUndeclared(live: Option<string>, windows: Option<seq<Window>>, now: int) {
    windows == None || (FlagOn(live) && !exists w <- windows.value :: w.Covers(now))
  }

  /** `refuse_peer_without_live`: the peer flag may be on only beside the live flag. */
  predicate RefusesPeer(peer: Option<string>, live: Option<string>) {
    FlagOn(peer) && !FlagOn(live)
  }
}
