/** What closing keeps: the declaration stays trusted, no write leaves the flags
    on beside a changed declaration, and a second run has nothing to do. */
module CloseWindowProofs {
  import opened Text
  import opened Json
  import opened FlyToml
  import opened FlyTomlProofs
  import opened FlyTomlLines
  import opened CloseWindow
  import Posture
  import PostureParsing

  type Window = Posture.Window

  // ---------- the declaration keeps its trust ----------

  predicate Picks(w: Window, now: int) { w.mode.TimeBoxed? && w.Covers(now) }

  function ClosedWindow(w: Window, now: int): Window {
    if Picks(w, now) then w.(expiresAt := Some(now)) else w
  }

  /** The raw reading of an entry agrees with its parsed form. */
  lemma {:induction false} OpenIsCovering(py: Python, entry: Json, authorised: set<string>, w: Window, now: int)
    requires Posture.ParseWindow(py, entry, authorised) == Posture.Value(w)
    ensures IsOpen(py, entry, now) <==> Picks(w, now)
    ensures !Breaks(py, entry)
  {
    hide Posture.ParseWindow, Posture.NamesOk, ParseInstant;
    PostureParsing.ParsesExactly(py, entry, authorised, w);
  }

  /** Stamping an open entry gives the same window, ended now; unless the window
      opened now, when it would cover nothing and is refused. */
  lemma {:induction false} StampedParses(py: Python, f: map<string, Json>, authorised: set<string>, w: Window, now: int)
    requires Faithful(py, now) && Posture.ParseWindow(py, JObject(f), authorised) == Posture.Value(w) && Picks(w, now)
    ensures Posture.ParseWindow(py, JObject(Stamped(py, f, now)), authorised)
         == if w.openedAt < now then Posture.Value(w.(expiresAt := Some(now))) else Posture.Refused
  {
    var g := Stamped(py, f, now);
    assert forall key :: key != "expires_at" ==> Get(g, key) == Get(f, key);
    assert Get(g, "expires_at") == JString(py.formatIso(now));
    assert Posture.HeaderOk(py, g);
    assert Posture.ParseWindow(py, JObject(f), authorised) == Posture.ParseTimeBoxed(py, f);
    assert Posture.ParseWindow(py, JObject(g), authorised) == Posture.ParseTimeBoxed(py, g);
  }

  lemma {:induction false} ClosedParses(py: Python, entry: Json, authorised: set<string>, w: Window, now: int)
    requires Faithful(py, now) && Posture.ParseWindow(py, entry, authorised) == Posture.Value(w)
    ensures Posture.ParseWindow(py, Closed(py, entry, now), authorised)
         == if Picks(w, now) && w.openedAt == now then Posture.Refused else Posture.Value(ClosedWindow(w, now))
  {
    OpenIsCovering(py, entry, authorised, w, now);
    if Picks(w, now) {
      assert entry == JObject(entry.fields);
      StampedParses(py, entry.fields, authorised, w, now);
    }
  }

  function Payload(fields: map<string, Json>): Json { JObject(fields) }

  lemma {:induction false} ParsedEntry(py: Python, fields: map<string, Json>, authorised: set<string>, ws: seq<Window>, i: nat)
    requires Posture.ParseWindows(py, Payload(fields), authorised) == Posture.Value(ws) && i < |ws|
    ensures Get(fields, "windows").JArray? && |ws| == |EntriesOf(fields)|
    ensures Posture.ParseWindow(py, EntriesOf(fields)[i], authorised) == Posture.Value(ws[i])
  {
  }

  /** The raw scan picks exactly the time-boxed windows that cover `now`. */
  lemma {:induction false} FindsExactlyTheCovering(
    py: Python, fields: map<string, Json>, authorised: set<string>, ws: seq<Window>, now: int)
    requires Posture.ParseWindows(py, Payload(fields), authorised) == Posture.Value(ws)
    ensures |EntriesOf(fields)| == |ws|
    ensures forall i :: 0 <= i < |ws| ==> (IsOpen(py, EntriesOf(fields)[i], now) <==> Picks(ws[i], now))
    ensures AnyOpen(py, fields, now) <==> exists w <- ws :: Picks(w, now)
    ensures !ScanBreaks(py, EntriesOf(fields))
  {
    hide Posture.ParseWindow, IsOpen, Breaks;
    forall i | 0 <= i < |ws|
      ensures IsOpen(py, EntriesOf(fields)[i], now) <==> Picks(ws[i], now)
      ensures !Breaks(py, EntriesOf(fields)[i])
    {
      ParsedEntry(py, fields, authorised, ws, i);
      OpenIsCovering(py, EntriesOf(fields)[i], authorised, ws[i], now);
    }
    assert |EntriesOf(fields)| == |ws|;
    if AnyOpen(py, fields, now) {
      var i :| 0 <= i < |ws| && IsOpen(py, EntriesOf(fields)[i], now);
      assert ws[i] in ws && Picks(ws[i], now);
    }
    if w :| w in ws && Picks(w, now) {
      var i :| 0 <= i < |ws| && ws[i] == w;
      assert EntriesOf(fields)[i] in EntriesOf(fields);
    }
  }

  predicate Refusable(w: Window, now: int) { Picks(w, now) && w.openedAt == now }

  /** What a closed entry parses to. */
  function ClosedParse(w: Window, now: int): Posture.Parsed<Window> {
    if Refusable(w, now) then Posture.Refused else Posture.Value(ClosedWindow(w, now))
  }

  lemma {:induction false} ClosedEntries(
    py: Python, fields: map<string, Json>, authorised: set<string>, ws: seq<Window>, now: int)
    requires Faithful(py, now) && Posture.ParseWindows(py, Payload(fields), authorised) == Posture.Value(ws)
    ensures var g := ClosedPayload(py, fields, now);
            && Get(g, "windows").JArray? && |EntriesOf(g)| == |ws|
            && forall i :: 0 <= i < |ws| ==> Posture.ParseWindow(py, EntriesOf(g)[i], authorised) == ClosedParse(ws[i], now)
  {
    hide Posture.ParseWindow, IsOpen, Closed;
    FindsExactlyTheCovering(py, fields, authorised, ws, now);
    if ws != [] { ParsedEntry(py, fields, authorised, ws, 0); }
    assert Get(fields, "windows").JArray?;
    var raw := EntriesOf(fields);
    assert EntriesOf(ClosedPayload(py, fields, now)) == ClosedAll(py, raw, now);
    forall i | 0 <= i < |ws|
      ensures Posture.ParseWindow(py, ClosedAll(py, raw, now)[i], authorised) == ClosedParse(ws[i], now)
    {
      ParsedEntry(py, fields, authorised, ws, i);
      ClosedParses(py, raw[i], authorised, ws[i], now);
    }
  }

  lemma {:induction false} CollectsRefusal<T>(results: seq<Posture.Parsed<T>>, k: nat)
    requires k < |results| && results[k].Refused? && forall i :: 0 <= i < |results| ==> !results[i].Raised?
    ensures Posture.Collect(results) == Posture.Refused
  {
    if results[0].Value? {
      assert results[1..][k - 1] == results[k];
      CollectsRefusal(results[1..], k - 1);
    }
  }

  function ClosedWindows(ws: seq<Window>, now: int): seq<Window> {
    seq(|ws|, i requires 0 <= i < |ws| => ClosedWindow(ws[i], now))
  }

  /** Closing a trusted declaration leaves it trusted, with the same windows in
      the same order and only the picked windows' expiry changed, exactly when no
      picked window opened at `now`; otherwise the whole file is refused. */
  lemma {:induction false} ClosingKeepsTrust(
    py: Python, fields: map<string, Json>, authorised: set<string>, ws: seq<Window>, now: int)
    requires Faithful(py, now) && Posture.ParseWindows(py, Payload(fields), authorised) == Posture.Value(ws)
    ensures Posture.ParseWindows(py, Payload(ClosedPayload(py, fields, now)), authorised)
         == if exists w <- ws :: Refusable(w, now) then Posture.Refused else Posture.Value(ClosedWindows(ws, now))
  {
    hide Posture.ParseWindow, ClosedPayload, Posture.Collect, Refusable;
    ClosedEntries(py, fields, authorised, ws, now);
    var raw := EntriesOf(ClosedPayload(py, fields, now));
    var parsed := seq(|raw|, i requires 0 <= i < |raw| => Posture.ParseWindow(py, raw[i], authorised));
    assert Posture.ParseWindows(py, Payload(ClosedPayload(py, fields, now)), authorised) == Posture.Collect(parsed);
    if w :| w in ws && Refusable(w, now) {
      var i :| 0 <= i < |ws| && ws[i] == w;
      CollectsRefusal(parsed, i);
    } else {
      assert forall i :: 0 <= i < |ws| ==> ws[i] in ws;
      PostureParsing.CollectValues(parsed, ClosedWindows(ws, now));
    }
  }

  /** A declaration of one window that opens at this instant, for an hour. */
  function OpenedAt(py: Python, now: int): map<string, Json> {
    map["windows" := JArray([JObject(map[
      "owner" := JString("a"), "reason" := JString("r"), "mode" := JString("time_boxed"), "judge" := JBool(false),
      "opened_at" := JString(py.formatIso(now)), "expires_at" := JString(py.formatIso(now + HOUR))])])]
  }

  /** The window it declares. */
  function FreshWindow(now: int): Window {
    Posture.Window("a", "r", now, Some(now + HOUR), Posture.TimeBoxed, false, None, None)
  }

  lemma {:induction false} OpenedAtParses(py: Python, now: int, authorised: set<string>)
    requires Faithful(py, now) && Faithful(py, now + HOUR)
    ensures Posture.ParseWindows(py, Payload(OpenedAt(py, now)), authorised) == Posture.Value([FreshWindow(now)])
  {
    hide ParseInstant, Posture.ParseWindows, Strip, TrimStart, Posture.IsLogin;
    PostureParsing.OneLetterOwner();
    var entries := Get(OpenedAt(py, now), "windows").items;
    var f := entries[0].fields;
    assert Get(f, "owner") == JString("a") && Get(f, "reason") == JString("r") && Get(f, "mode") == JString("time_boxed");
    assert Get(f, "judge") == JBool(false) && Get(f, "adr") == JNull && Get(f, "reaffirm_issue") == JNull;
    assert PostureParsing.Describes(py, f, authorised, FreshWindow(now));
    hide OpenedAt, PostureParsing.Describes;
    PostureParsing.DeclarationParses(py, Payload(OpenedAt(py, now)), authorised, [FreshWindow(now)]);
  }

  /** Such a declaration is trusted, and once it is closed at that instant it is not. */
  lemma {:induction false} OpenedNowIsRefused(py: Python, now: int, authorised: set<string>)
    requires Faithful(py, now) && Faithful(py, now + HOUR)
    ensures Posture.ParseWindows(py, Payload(OpenedAt(py, now)), authorised).Value?
    ensures Posture.ParseWindows(py, Payload(ClosedPayload(py, OpenedAt(py, now), now)), authorised) == Posture.Refused
  {
    hide OpenedAt, ClosedPayload, Posture.ParseWindows;
    OpenedAtParses(py, now, authorised);
    assert FreshWindow(now) in [FreshWindow(now)] && Refusable(FreshWindow(now), now);
    ClosingKeepsTrust(py, OpenedAt(py, now), authorised, [FreshWindow(now)], now);
  }

  /** What was closed covers neither `now` nor any later instant. */
  lemma {:induction false} ClosedForGood(w: Window, now: int, later: int)
    requires Picks(w, now) && now <= later
    ensures !ClosedWindow(w, now).Covers(later)
  {
  }

  // ---------- the two writes ----------

  ghost predicate BothOff(fly: Option<string>) {
    fly.Some? && ReadsOff(fly.value, LIVE_FLAG) && ReadsOff(fly.value, PEER_FLAG)
  }

  /** The one text on which the command takes the live flag's line away instead
      of turning it off: the peer flag's quoted value runs on over that line. */
  ghost predicate PeerSwallowsLive(fly: Option<string>) {
    fly.Some? && SetFlagFalse(fly.value, LIVE_FLAG).Edited?
    && RunsOver(SetFlagFalse(fly.value, LIVE_FLAG).text, PEER_FLAG, LIVE_FLAG)
  }

  lemma {:induction false} KeysDiffer()
    ensures IsKey(LIVE_FLAG) && IsKey(PEER_FLAG) && Disjoint(LIVE_FLAG, PEER_FLAG) && Disjoint(PEER_FLAG, LIVE_FLAG)
  {
  }

  /** The edited text reads off in both flags exactly when no value is swallowed;
      in any case a second edit of it changes nothing. */
  lemma {:induction false} BothEdited(text: string)
    requires EditBoth(text).Some?
    ensures BothOff(Some(EditBoth(text).value.0)) <==> !PeerSwallowsLive(Some(text))
    ensures var again := EditBoth(EditBoth(text).value.0);
            again == if PeerSwallowsLive(Some(text)) then None else Some((EditBoth(text).value.0, false))
  {
    hide SetFlagFalse, RunsOver, ReadsOff, LIVE_FLAG, PEER_FLAG;
    KeysDiffer();
    var once := SetFlagFalse(text, LIVE_FLAG).text;
    var twice := EditBoth(text).value.0;
    EditReadsOff(text, LIVE_FLAG);
    EditReadsOff(once, PEER_FLAG);
    EditAndOther(once, PEER_FLAG, LIVE_FLAG);
    OffIsUnedited(twice, LIVE_FLAG);
    OffIsUnedited(twice, PEER_FLAG);
  }

  /** At every point of every run, and whatever a broken write leaves behind,
      either the declaration is as it was or both flags read off. */
  lemma {:induction false} EveryStepIsSafe(py: Python, disk: Disk, now: int, f: Outcome<string>, d: Outcome<Json>, k: nat)
    requires !PeerSwallowsLive(disk.fly)
    requires k < |Steps(Decide(py, disk, now), disk, f, d)|
    ensures var after := Steps(Decide(py, disk, now), disk, f, d)[k];
            after.declaration == disk.declaration || BothOff(after.fly)
  {
    hide EditBoth, BothOff, PeerSwallowsLive, ClosedPayload, AnyOpen, HasStanding, Posture.ParseWindows;
    var plan := Decide(py, disk, now);
    if plan.FlagsThenDeclaration? {
      BothEdited(disk.fly.value);
      if !plan.changed { UnchangedEdit(disk.fly.value); }
    }
  }

  lemma {:induction false} UnchangedEdit(text: string)
    requires EditBoth(text).Some? && !EditBoth(text).value.1
    ensures EditBoth(text).value.0 == text
  {
    assert SetFlagFalse(text, LIVE_FLAG).text == text;
  }

  /** And the exception is real: with both writes whole, the declaration is
      closed beside a text from which the live flag's line is gone. */
  lemma {:induction false} SwallowedIsUnsafe(py: Python, disk: Disk, now: int)
    requires PeerSwallowsLive(disk.fly) && Decide(py, disk, now).FlagsThenDeclaration?
    ensures var steps := Steps(Decide(py, disk, now), disk, Written, Written);
            && steps != [] && steps[|steps| - 1].declaration == Some(Decide(py, disk, now).declaration)
            && !BothOff(steps[|steps| - 1].fly)
  {
    hide EditBoth, BothOff, PeerSwallowsLive, ClosedPayload, AnyOpen, HasStanding, Posture.ParseWindows;
    BothEdited(disk.fly.value);
    if !Decide(py, disk, now).changed { UnchangedEdit(disk.fly.value); }
  }

  /** The flags are turned off alone only when the declaration can be trusted,
      nothing in it covers `now`, and nothing in it is standing; the declaration
      is then never written. */
  lemma {:induction false} LapsedPath(py: Python, disk: Disk, now: int, f: Outcome<string>, d: Outcome<Json>)
    requires Decide(py, disk, now).FlagsOnly?
    ensures disk.declaration.Some? && Posture.ParseWindows(py, disk.declaration.value, {}).Value?
    ensures var ws := Posture.ParseWindows(py, disk.declaration.value, {}).value;
            forall w <- ws :: w.mode.TimeBoxed? && !w.Covers(now)
    ensures forall after <- Steps(Decide(py, disk, now), disk, f, d) :: after.declaration == disk.declaration
  {
    hide EditBoth, ClosedPayload, AnyOpen, Posture.ParseWindows;
    var fields := disk.declaration.value.fields;
    var ws := Posture.ParseWindows(py, JObject(fields), {}).value;
    FindsExactlyTheCovering(py, fields, {}, ws, now);
    forall w | w in ws ensures w.mode.TimeBoxed? && !w.Covers(now) {
      var i :| 0 <= i < |ws| && ws[i] == w;
      ParsedEntry(py, fields, {}, ws, i);
    }
  }

  /** The command ends with an exception before any write exactly when the declaration
      is an object and either the scan stops at a time-boxed entry whose instant
      overflows, whatever else the list holds; or nothing in the list is open or
      standing and an entry stops the parser, with windows only before it. */
  lemma {:induction false} FaultBeforeWriting(py: Python, disk: Disk, now: int)
    ensures Decide(py, disk, now) == Stop(Fault) <==>
      && disk.declaration.Some? && disk.declaration.value.JObject?
      && var fields := disk.declaration.value.fields;
         || ScanBreaks(py, EntriesOf(fields))
         || (&& PostureParsing.HasList(disk.declaration.value)
             && !AnyOpen(py, fields, now) && !HasStanding(fields)
             && PostureParsing.ListRaises(py, EntriesOf(fields), {}))
  {
    hide EditBoth, AnyOpen, HasStanding, ClosedPayload, Posture.ParseWindows, PostureParsing.ListRaises, ScanBreaks;
    if disk.declaration.Some? { PostureParsing.DeclarationRaises(py, disk.declaration.value, {}); }
  }

  /** An entry that is not time-boxed and stops the parser ends the command when it
      stands alone. */
  lemma {:induction false} LoneEntryFaults(py: Python, entry: Json, fly: Option<string>, now: int)
    requires PostureParsing.Raises(py, entry)
    requires Get(entry.fields, "mode") != JString("time_boxed") && Get(entry.fields, "mode") != JString("standing")
    ensures Decide(py, Disk(fly, Some(PostureParsing.Alone(entry))), now) == Stop(Fault)
  {
    var payload := PostureParsing.Alone(entry);
    PostureParsing.AloneRaises(py, entry, {});
    hide Posture.ParseWindows, EditBoth, ParseInstant, PostureParsing.Raises;
    assert EntriesOf(payload.fields) == [entry];
    assert !AnyOpen(py, payload.fields, now) && !HasStanding(payload.fields);
  }

  /** A list for the mode, or an opening that overflows under any mode but the two. */
  lemma {:induction false} UnscannedEntryFaults(py: Python, start: string, mode: Json, fly: Option<string>, now: int)
    requires ReadsCalendarEnds(py) && mode != JString("time_boxed") && mode != JString("standing")
    requires (ParseInstant(py, JString(start)).At? && mode == JArray([])) || start == TOO_EARLY
    ensures Decide(py, Disk(fly, Some(PostureParsing.Alone(PostureParsing.SampleEntry(start, JNull, mode)))), now) == Stop(Fault)
  {
    CalendarEndsOverflow(py);
    hide ParseInstant, Posture.NamesOk, PostureParsing.SampleEntry, Decide, PostureParsing.Alone, TOO_EARLY, TOO_LATE, ReadsCalendarEnds;
    PostureParsing.SampleFields(start, JNull, mode);
    LoneEntryFaults(py, PostureParsing.SampleEntry(start, JNull, mode), fly, now);
  }

  lemma {:induction false} LateBreaks(py: Python, start: string)
    requires ReadsCalendarEnds(py)
    ensures Breaks(py, PostureParsing.SampleEntry(start, JString(TOO_LATE), JString("time_boxed")))
  {
    CalendarEndsOverflow(py);
    hide ParseInstant, Posture.NamesOk, PostureParsing.SampleEntry, TOO_EARLY, TOO_LATE, ReadsCalendarEnds;
    PostureParsing.SampleFields(start, JString(TOO_LATE), JString("time_boxed"));
  }

  /** One time-boxed window meant to last for ever ends the command, whatever else the
      declaration holds and wherever it stands there. */
  lemma {:induction false} LateExpiryFaults(
    py: Python, before: seq<Json>, start: string, after: seq<Json>, fly: Option<string>, now: int)
    requires ReadsCalendarEnds(py)
    ensures var late := PostureParsing.SampleEntry(start, JString(TOO_LATE), JString("time_boxed"));
            Decide(py, Disk(fly, Some(JObject(map["windows" := JArray(before + [late] + after)]))), now) == Stop(Fault)
  {
    var late := PostureParsing.SampleEntry(start, JString(TOO_LATE), JString("time_boxed"));
    LateBreaks(py, start);
    hide PostureParsing.SampleEntry, DecideFor, Breaks, TOO_LATE, ReadsCalendarEnds;
    var entries := before + [late] + after;
    assert entries[|before|] == late && late in entries;
    assert EntriesOf(map["windows" := JArray(entries)]) == entries;
    assert ScanBreaks(py, entries);
  }

  /** The last disk of a run in which every write is whole. */
  function Final(py: Python, disk: Disk, now: int): Disk {
    var steps := Steps(Decide(py, disk, now), disk, Written, Written);
    if steps == [] then disk else steps[|steps| - 1]
  }

  lemma {:induction false} NothingOpenAfterClosing(py: Python, fields: map<string, Json>, now: int)
    requires Faithful(py, now)
    ensures !AnyOpen(py, ClosedPayload(py, fields, now), now)
  {
  }

  /** The covering path, from its disk to its last disk. */
  lemma {:induction false} FinalOfClosing(py: Python, disk: Disk, now: int)
    requires Decide(py, disk, now).FlagsThenDeclaration?
    ensures disk.declaration.Some? && disk.declaration.value.JObject? && disk.fly.Some? && EditBoth(disk.fly.value).Some?
    ensures AnyOpen(py, disk.declaration.value.fields, now)
    ensures Final(py, disk, now) == Disk(Some(EditBoth(disk.fly.value).value.0),
                                         Some(JObject(ClosedPayload(py, disk.declaration.value.fields, now))))
  {
    hide EditBoth, AnyOpen, HasStanding, Posture.ParseWindows, ClosedPayload;
    var plan := Decide(py, disk, now);
    if !plan.changed { UnchangedEdit(disk.fly.value); }
  }

  /** A text whose edit changes nothing, or cannot be made, is not written. */
  lemma {:induction false} NothingToWrite(py: Python, fly: string, fields: map<string, Json>, now: int)
    requires !AnyOpen(py, fields, now) && (EditBoth(fly) == None || EditBoth(fly) == Some((fly, false)))
    ensures DecideFor(py, Some(fly), fields, now).Stop?
  {
  }

  /** Running the command again at the same instant writes nothing. */
  lemma {:induction false} SecondRunWritesNothing(py: Python, disk: Disk, now: int)
    requires Faithful(py, now)
    ensures Decide(py, Final(py, disk, now), now).Stop?
  {
    var plan := Decide(py, disk, now);
    if plan.FlagsThenDeclaration? {
      FinalOfClosing(py, disk, now);
      SecondAfterClosing(py, disk, now);
    } else if plan.FlagsOnly? {
      SecondAfterLapsed(py, disk, now);
    }
  }

  lemma {:induction false} SecondAfterClosing(py: Python, disk: Disk, now: int)
    requires Faithful(py, now) && Decide(py, disk, now).FlagsThenDeclaration?
    ensures Decide(py, Final(py, disk, now), now).Stop?
  {
    hide EditBoth, AnyOpen, PeerSwallowsLive, BothOff, ClosedPayload, DecideFor, Final, HasStanding, ScanBreaks, EntriesOf,
         Posture.ParseWindows, Faithful;
    FinalOfClosing(py, disk, now);
    var fields := disk.declaration.value.fields;
    BothEdited(disk.fly.value);
    NothingOpenAfterClosing(py, fields, now);
    NothingToWrite(py, EditBoth(disk.fly.value).value.0, ClosedPayload(py, fields, now), now);
  }

  lemma {:induction false} SecondAfterLapsed(py: Python, disk: Disk, now: int)
    requires Decide(py, disk, now).FlagsOnly?
    ensures Decide(py, Final(py, disk, now), now).Stop?
  {
    hide EditBoth, AnyOpen, HasStanding, Posture.ParseWindows, PeerSwallowsLive, BothOff;
    BothEdited(disk.fly.value);
    NothingToWrite(py, EditBoth(disk.fly.value).value.0, disk.declaration.value.fields, now);
  }

  /** The disk of a run that stopped between its two writes. */
  function Between(py: Python, disk: Disk, now: int): Disk { disk.(fly := Final(py, disk, now).fly) }

  /** A run stopped between the two writes is finished by running again, and ends on
      the disk the first would have reached, exactly when no value is swallowed. */
  lemma {:induction false} StoppedRunIsFinished(py: Python, disk: Disk, now: int)
    requires Faithful(py, now) && Decide(py, disk, now).FlagsThenDeclaration?
    ensures Final(py, Between(py, disk, now), now) == Final(py, disk, now) <==> !PeerSwallowsLive(disk.fly)
  {
    hide EditBoth, AnyOpen, HasStanding, Posture.ParseWindows, ClosedPayload, PeerSwallowsLive, BothOff, Final;
    FinalOfClosing(py, disk, now);
    BothEdited(disk.fly.value);
    var between := Between(py, disk, now);
    if PeerSwallowsLive(disk.fly) {
      assert Decide(py, between, now) == Stop(Refuses);
      StoppedStays(py, between, now);
      NothingOpenAfterClosing(py, disk.declaration.value.fields, now);
    } else {
      assert Decide(py, between, now).FlagsThenDeclaration?;
      FinalOfClosing(py, between, now);
    }
  }

  lemma {:induction false} StoppedStays(py: Python, disk: Disk, now: int)
    requires Decide(py, disk, now).Stop?
    ensures Final(py, disk, now) == disk
  {
    hide Decide;
  }

  // ---------- the gates after a run ----------

  /** The one value a flag is declared with. */
  function FlagValue(fly: string, key: string): Option<string> {
    if |Flags(fly, key, 0)| == 1 && FlagAt(fly, key, Flags(fly, key, 0)[0]).Some?
    then Some(FlagAt(fly, key, Flags(fly, key, 0)[0]).value.value) else None
  }

  lemma {:induction false} ReadsOffIsNotOn(fly: string, key: string)
    requires IsKey(key) && ReadsOff(fly, key)
    ensures !Posture.FlagOn(FlagValue(fly, key))
  {
    OffIsUnedited(fly, key);
    hide ReadsOff, FlagAt, IsOff;
  }

  lemma {:induction false} OffPassesTheGates(live: Option<string>, peer: Option<string>, ws: seq<Window>, now: int)
    requires !Posture.FlagOn(live) && !Posture.FlagOn(peer)
    ensures !Posture.RefusesUndeclared(live, Some(ws), now) && !Posture.RefusesPeer(peer, live)
  {
  }

  lemma {:induction false} NoneCoversNow(ws: seq<Window>, now: int)
    ensures forall w <- ClosedWindows(ws, now) :: w.mode.TimeBoxed? ==> !w.Covers(now)
  {
  }

  /** After closing a trusted declaration, both gates on what may be committed
      let the two files through, and no time-boxed window of the declaration
      covers `now` any more. */
  lemma {:induction false} ClosedFilesPassTheGates(
    py: Python, disk: Disk, now: int, authorised: set<string>, ws: seq<Window>)
    returns (fly: string, declaration: Json)
    requires Faithful(py, now) && !PeerSwallowsLive(disk.fly) && Decide(py, disk, now).FlagsThenDeclaration?
    requires disk.declaration.Some? && Posture.ParseWindows(py, disk.declaration.value, authorised) == Posture.Value(ws)
    requires forall w <- ws :: !Refusable(w, now)
    ensures Final(py, disk, now) == Disk(Some(fly), Some(declaration))
    ensures Posture.ParseWindows(py, declaration, authorised) == Posture.Value(ClosedWindows(ws, now))
    ensures !Posture.RefusesUndeclared(FlagValue(fly, LIVE_FLAG), Some(ClosedWindows(ws, now)), now)
    ensures !Posture.RefusesPeer(FlagValue(fly, PEER_FLAG), FlagValue(fly, LIVE_FLAG))
    ensures forall w <- ClosedWindows(ws, now) :: w.mode.TimeBoxed? ==> !w.Covers(now)
  {
    hide EditBoth, AnyOpen, Posture.ParseWindows, ClosedPayload, PeerSwallowsLive, FlagValue, ReadsOff, Decide, Final, ClosedWindows,
         Posture.FlagOn, Posture.RefusesUndeclared, Posture.RefusesPeer, Refusable;
    FinalOfClosing(py, disk, now);
    fly := EditBoth(disk.fly.value).value.0;
    declaration := JObject(ClosedPayload(py, disk.declaration.value.fields, now));
    ClosingKeepsTrust(py, disk.declaration.value.fields, authorised, ws, now);
    BothEdited(disk.fly.value);
    ReadsOffIsNotOn(fly, LIVE_FLAG);
    ReadsOffIsNotOn(fly, PEER_FLAG);
    OffPassesTheGates(FlagValue(fly, LIVE_FLAG), FlagValue(fly, PEER_FLAG), ClosedWindows(ws, now), now);
    NoneCoversNow(ws, now);
  }

  // ---------- the exception, concretely ----------

  /** A peer flag whose string is left open on its line, then the live flag. */
  function Unclosed(word: string): string {
    (PEER_FLAG + " = ") + "\"" + ("x\n" + (LIVE_FLAG + " = ") + "\"" + (word + "\""))
  }

  const LIVE_AT: nat := |PEER_FLAG| + 6

  /** The first flag of such a text: its value runs past the second one's line. */
  lemma {:induction false} FirstFlagLine(peer: string, live: string, hp: string, middle: string, rest: string)
    requires IsKey(peer) && IsKey(live) && Disjoint(live, peer) && hp == peer + " = " && All(middle, IsValueChar)
    ensures var text := hp + "\"" + (middle + "\"" + rest);
            && FlagAt(text, peer, 0).Some? && FlagAt(text, peer, 0).value.length == |hp| + |middle| + 2
            && FlagAt(text, live, 0) == None
  {
    hide IsHead, FlagHere, FlagTail;
    var tail := middle + "\"" + rest;
    var text := hp + "\"" + tail;
    OffHead("", peer);
    assert "" + peer + " = " == hp && text[0..] == text;
    HeadChars(hp, peer);
    HeadOfOneKey(hp, live, peer);
    FlagSplit(hp, tail, peer);
    FlagSplit(hp, tail, live);
    ReadTail(hp, middle, rest);
  }

  /** The flag that stands last, after a line end. */
  lemma {:induction false} LastFlagLine(before: string, peer: string, live: string, hl: string, word: string)
    requires IsKey(peer) && IsKey(live) && Disjoint(peer, live) && hl == live + " = " && All(word, IsValueChar)
    requires before != "" && before[|before| - 1] == '\n'
    ensures var text := before + (hl + "\"" + (word + "\""));
            && FlagAt(text, live, |before|) == Some(Flag("", word, |text| - |before|))
            && FlagAt(text, peer, |before|) == None
  {
    hide IsHead, FlagHere, FlagTail;
    var line := hl + "\"" + (word + "\"");
    var text := before + line;
    OffHead("", live);
    assert "" + live + " = " == hl && text[|before|..] == line && hl[..0] == "";
    HeadChars(hl, live);
    HeadOfOneKey(hl, peer, live);
    FlagSplit(hl, word + "\"", live);
    FlagSplit(hl, word + "\"", peer);
    ReadTail(hl, word, "");
    assert word + "\"" + "" == word + "\"";
  }

  lemma {:induction false} SameTwoLines(hp: string, hl: string, end: string)
    ensures hp + "\"" + ("x\n" + hl + "\"" + end) == (hp + "\"" + "x\n") + (hl + "\"" + end)
  {
  }

  lemma {:induction false} HeadValueChars(key: string)
    requires IsKey(key)
    ensures All("x\n" + (key + " = "), IsValueChar)
  {
    assert forall k :: 0 <= k < |key| ==> key[k] in key;
  }

  lemma {:induction false} UnclosedParts(word: string)
    requires word == "true" || word == "false"
    ensures var hp, hl := PEER_FLAG + " = ", LIVE_FLAG + " = ";
            && Unclosed(word) == hp + "\"" + (("x\n" + hl) + "\"" + (word + "\""))
            && |hp| + 3 == LIVE_AT && All(word, IsValueChar)
  {
  }

  lemma {:induction false} UnclosedHeads(word: string)
    requires word == "true" || word == "false"
    ensures FlagAt(Unclosed(word), PEER_FLAG, 0).Some? && FlagAt(Unclosed(word), PEER_FLAG, 0).value.length > LIVE_AT
    ensures FlagAt(Unclosed(word), LIVE_FLAG, LIVE_AT) == Some(Flag("", word, |Unclosed(word)| - LIVE_AT))
    ensures FlagAt(Unclosed(word), LIVE_FLAG, 0) == None && FlagAt(Unclosed(word), PEER_FLAG, LIVE_AT) == None
  {
    hide *;
    UnclosedParts(word);
    KeysDiffer();
    var hp, hl := PEER_FLAG + " = ", LIVE_FLAG + " = ";
    SameTwoLines(hp, hl, word + "\"");
    HeadValueChars(LIVE_FLAG);
    FirstFlagLine(PEER_FLAG, LIVE_FLAG, hp, "x\n" + hl, word + "\"");
    LastFlagLine(hp + "\"" + "x\n", PEER_FLAG, LIVE_FLAG, hl, word);
  }

  lemma {:induction false} ReadTail(head: string, value: string, rest: string)
    requires All(value, IsValueChar)
    ensures FlagTail(head, value + "\"" + rest) == Some(Flag(head[..RunLength(head, IsTab)], value, |head| + |value| + 2))
  {
    var t := value + "\"" + rest;
    assert t == value + ("\"" + rest);
    RunExact(value, "\"" + rest, IsValueChar);
    assert t[..|value|] == value;
  }

  lemma {:induction false} UnclosedLines(word: string, i: nat)
    requires word == "true" || word == "false"
    requires i <= |Unclosed(word)| && LineStart(Unclosed(word), i)
    ensures i == 0 || i == LIVE_AT
  {
    var text := Unclosed(word);
    assert text[..LIVE_AT - 1] == (PEER_FLAG + " = ") + "\"" + "x";
    assert text[LIVE_AT..] == (LIVE_FLAG + " = ") + "\"" + (word + "\"");
    KeysDiffer();
    assert forall k :: 0 <= k < |PEER_FLAG| ==> PEER_FLAG[k] in PEER_FLAG;
    assert forall k :: 0 <= k < |LIVE_FLAG| ==> LIVE_FLAG[k] in LIVE_FLAG;
    assert forall k :: LIVE_AT <= k < |text| ==> text[k] == text[LIVE_AT..][k - LIVE_AT];
  }

  lemma {:induction false} UnclosedFlags(word: string)
    requires word == "true" || word == "false"
    ensures Flags(Unclosed(word), PEER_FLAG, 0) == [0] && Flags(Unclosed(word), LIVE_FLAG, 0) == [LIVE_AT]
  {
    hide FlagHere, Unclosed;
    var text := Unclosed(word);
    UnclosedHeads(word);
    forall i, key | i > LIVE_AT || 0 < i < LIVE_AT ensures FlagAt(text, key, i) == None {
      if i <= |text| && LineStart(text, i) { UnclosedLines(word, i); }
    }
    SingleFlags(text, PEER_FLAG, 0);
    SingleFlags(text, LIVE_FLAG, LIVE_AT);
  }

  lemma {:induction false} TrueIsOn()
    ensures !IsOff("true")
  {
  }

  lemma {:induction false} UnclosedEdit()
    ensures SetFlagFalse(Unclosed("true"), LIVE_FLAG) == Edited(Unclosed("false"), true)
  {
    UnclosedFlags("true");
    UnclosedHeads("true");
    TrueIsOn();
    UnclosedRest();
    hide FlagAt, Flags, IsOff, Unclosed, OffLine;
  }

  lemma {:induction false} UnclosedRest()
    ensures |Unclosed("true")| >= LIVE_AT
    ensures Unclosed("true")[..LIVE_AT] + OffLine("", LIVE_FLAG) + Unclosed("true")[|Unclosed("true")|..] == Unclosed("false")
  {
    var prefix := (PEER_FLAG + " = ") + "\"" + "x\n";
    forall word: string ensures Unclosed(word) == prefix + ((LIVE_FLAG + " = ") + "\"" + (word + "\"")) {
    }
    assert |prefix| == LIVE_AT;
    assert Unclosed("true")[..LIVE_AT] == prefix;
    assert OffLine("", LIVE_FLAG) == (LIVE_FLAG + " = ") + "\"" + ("false" + "\"");
  }

  /** The property fails on a concrete text: an unclosed peer string above a live
      flag that is on. */
  lemma {:induction false} SwallowingText()
    ensures PeerSwallowsLive(Some(Unclosed("true")))
  {
    UnclosedEdit();
    UnclosedFlags("false");
    UnclosedHeads("false");
    KeysDiffer();
    hide FlagAt, Flags, Unclosed, SetFlagFalse, LIVE_FLAG, PEER_FLAG, RunsOver;
    RunsOverIsSwallows(Unclosed("false"), PEER_FLAG, LIVE_FLAG);
  }
}
