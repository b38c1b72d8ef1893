/** The command that closes a window, said over its two files alone: which files make it
    write the flags only, which make it close the declaration as well, what it leaves, and
    which make it stop. */
module CloseWindowExact {
  import opened Text
  import opened Json
  import opened FlyToml
  import opened FlyTomlProofs
  import opened FlyTomlLines
  import opened CloseWindow
  import opened PostureParsing
  import CloseWindowProofs
  import Posture

  // ---------- the two flags ----------

  const LIVE := "OPENROUTER_LIVE_EXECUTION_ENABLED"
  const PEER := "PEER_CRITIQUE_ENABLED"

  lemma {:induction false} TheFlags()
    ensures LIVE == LIVE_FLAG && PEER == PEER_FLAG && IsKey(LIVE) && IsKey(PEER)
  {
    CloseWindowProofs.KeysDiffer();
  }

  /** The text with this line turned off, if it is not off already. */
  ghost function TurnedOff(text: string, key: string, s: nat, l: Line): string
    requires s + |Spelled(l)| <= |text|
  {
    if OffWord(l.value) then text else text[..s] + (l.indent + key + " = \"false\"") + text[s + |Spelled(l)|..]
  }

  /** One line declares the live flag; with that turned off, one line declares the peer
      flag; with both turned off this is what is left. */
  ghost predicate BothTurnedOff(text: string, left: string) {
    exists s: nat, l: Line, a: nat, m: Line :: TurnedOffAt(text, s, l, a, m, left)
  }

  ghost predicate TurnedOffAt(text: string, s: nat, l: Line, a: nat, m: Line, left: string) {
    && DeclaredAt(text, LIVE, s, l) && DeclaredAt(TurnedOff(text, LIVE, s, l), PEER, a, m)
    && left == TurnedOff(TurnedOff(text, LIVE, s, l), PEER, a, m)
  }

  ghost predicate Editable(fly: Option<string>) { fly.Some? && exists left :: BothTurnedOff(fly.value, left) }

  ghost predicate BothReadOff(text: string) { ReadsOff(text, LIVE) && ReadsOff(text, PEER) }

  lemma {:induction false} DeclaredOnce(text: string, key: string, s: nat, l: Line)
    requires IsKey(key) && DeclaredAt(text, key, s, l)
    ensures ReadsOff(text, key) <==> OffWord(l.value)
    ensures SetFlagFalse(text, key) == Edited(TurnedOff(text, key, s, l), !OffWord(l.value))
  {
    DeclaredEdit(text, key, s, l);
    OffIsUnedited(text, key);
    hide DeclaredAt, ReadsOff, SetFlagFalse, OffWord;
    if !OffWord(l.value) { assert !Unedited(text, key); }
  }

  lemma {:induction false} TwoEdits(text: string, s: nat, l: Line, a: nat, m: Line)
    requires DeclaredAt(text, LIVE, s, l) && DeclaredAt(TurnedOff(text, LIVE, s, l), PEER, a, m)
    ensures TurnedOffAt(text, s, l, a, m, TurnedOff(TurnedOff(text, LIVE, s, l), PEER, a, m))
    ensures EditBoth(text) == Some((TurnedOff(TurnedOff(text, LIVE, s, l), PEER, a, m), !BothReadOff(text)))
  {
    TheFlags();
    var once := TurnedOff(text, LIVE, s, l);
    hide DeclaredAt, ReadsOff, SetFlagFalse, OffWord, LIVE, PEER, LIVE_FLAG, PEER_FLAG;
    DeclaredOnce(text, LIVE, s, l);
    DeclaredOnce(once, PEER, a, m);
    if OffWord(l.value) { assert once == text; }
  }

  /** Both flags are edited exactly when each is declared once, and the text changes
      exactly when they do not both read off already. */
  lemma {:induction false} EditBothExactly(text: string)
    ensures EditBoth(text).Some? <==> Editable(Some(text))
    ensures EditBoth(text).Some? ==>
      BothTurnedOff(text, EditBoth(text).value.0) && (EditBoth(text).value.1 <==> !BothReadOff(text))
  {
    TheFlags();
    hide DeclaredAt, ReadsOff, SetFlagFalse, OffWord, TurnedOff, LIVE, PEER, LIVE_FLAG, PEER_FLAG;
    if EditBoth(text).Some? {
      var s, l := EditedIsDeclared(text, LIVE);
      DeclaredOnce(text, LIVE, s, l);
      var once := SetFlagFalse(text, LIVE).text;
      var a, m := EditedIsDeclared(once, PEER);
      TwoEdits(text, s, l, a, m);
      assert BothTurnedOff(text, EditBoth(text).value.0);
    } else if left :| BothTurnedOff(text, left) {
      var s: nat, l: Line, a: nat, m: Line :| TurnedOffAt(text, s, l, a, m, left);
      TwoEdits(text, s, l, a, m);
    }
  }

  // ---------- the declaration ----------

  /** The declaration is a list of entries that spell out these windows. */
  ghost predicate Trusted(py: Python, declaration: Option<Json>, ws: seq<Posture.Window>) {
    && declaration.Some? && HasList(declaration.value)
    && var items := Get(declaration.value.fields, "windows").items;
       && |items| == |ws|
       && forall i | 0 <= i < |ws| :: items[i].JObject? && Describes(py, items[i].fields, {}, ws[i])
  }

  ghost predicate IsTrusted(py: Python, declaration: Option<Json>) { exists ws :: Trusted(py, declaration, ws) }

  /** The declaration stops the parser with an exception. */
  ghost predicate StopsParser(py: Python, declaration: Option<Json>) {
    declaration.Some? && HasList(declaration.value) && ListRaises(py, Get(declaration.value.fields, "windows").items, {})
  }

  /** The entry is time-boxed and `now` lies between its instants. */
  predicate OpenNow(py: Python, entry: Json, now: int) {
    && entry.JObject? && Get(entry.fields, "mode") == JString("time_boxed")
    && match ParseInstant(py, Get(entry.fields, "opened_at"))
       case At(start) =>
         (match ParseInstant(py, Get(entry.fields, "expires_at")) case At(end) => start <= now && now < end case _ => false)
       case _ => false
  }

  /** A time-boxed entry with an instant that cannot be written in UTC. */
  predicate Unwritable(py: Python, entry: Json) {
    && entry.JObject? && Get(entry.fields, "mode") == JString("time_boxed")
    && (ParseInstant(py, Get(entry.fields, "opened_at")) == Overflow || ParseInstant(py, Get(entry.fields, "expires_at")) == Overflow)
  }

  predicate IsObject(declaration: Option<Json>) { declaration.Some? && declaration.value.JObject? }

  /** The entries of a declaration: none when it has no list. */
  ghost predicate HasEntry(declaration: Option<Json>, entry: Json) {
    declaration.Some? && HasList(declaration.value) && entry in Get(declaration.value.fields, "windows").items
  }

  ghost predicate SomeOpen(py: Python, declaration: Option<Json>, now: int) {
    exists e :: HasEntry(declaration, e) && OpenNow(py, e, now)
  }

  ghost predicate SomeStanding(declaration: Option<Json>) {
    exists e :: HasEntry(declaration, e) && e.JObject? && Get(e.fields, "mode") == JString("standing")
  }

  ghost predicate SomeUnwritable(py: Python, declaration: Option<Json>) {
    exists e :: HasEntry(declaration, e) && Unwritable(py, e)
  }

  /** The declaration is an object that can be read through. */
  ghost predicate Readable(py: Python, declaration: Option<Json>) { IsObject(declaration) && !SomeUnwritable(py, declaration) }

  lemma {:induction false} EntriesAgree(py: Python, declaration: Option<Json>, now: int)
    requires IsObject(declaration)
    ensures var fields := declaration.value.fields;
            && (AnyOpen(py, fields, now) <==> SomeOpen(py, declaration, now))
            && (HasStanding(fields) <==> SomeStanding(declaration))
            && (ScanBreaks(py, EntriesOf(fields)) <==> SomeUnwritable(py, declaration))
  {
    hide ParseInstant;
    assert forall e :: IsOpen(py, e, now) <==> OpenNow(py, e, now);
    assert forall e :: Breaks(py, e) <==> Unwritable(py, e);
    hide IsOpen, OpenNow, Breaks, Unwritable;
    assert forall e :: e in EntriesOf(declaration.value.fields) <==> HasEntry(declaration, e);
    hide HasEntry, EntriesOf;
  }

  lemma {:induction false} TrustAgrees(py: Python, declaration: Option<Json>)
    requires IsObject(declaration)
    ensures var parsed := Posture.ParseWindows(py, JObject(declaration.value.fields), {});
            && (parsed.Value? <==> IsTrusted(py, declaration))
            && (parsed == Posture.Raised <==> StopsParser(py, declaration))
  {
    hide Posture.ParseWindows, Describes, ListRaises;
    forall ws ensures Trusted(py, declaration, ws) <==> Posture.ParseWindows(py, declaration.value, {}) == Posture.Value(ws) {
      DeclarationParses(py, declaration.value, {}, ws);
    }
    DeclarationRaises(py, declaration.value, {});
    var parsed := Posture.ParseWindows(py, declaration.value, {});
    assert JObject(declaration.value.fields) == declaration.value;
    if parsed.Value? { assert Trusted(py, declaration, parsed.value); }
  }

  /** Nothing in it is open at `now`, and none is standing. */
  ghost predicate Idle(py: Python, declaration: Option<Json>, now: int) {
    Readable(py, declaration) && !SomeOpen(py, declaration, now) && !SomeStanding(declaration)
  }

  // ---------- the plan ----------

  /** What the command decides, case by case, by the two files. */
  lemma {:induction false} PlanExactly(py: Python, disk: Disk, now: int)
    ensures var plan, d := Decide(py, disk, now), disk.declaration;
            && (plan.FlagsThenDeclaration? <==> Readable(py, d) && SomeOpen(py, d, now) && Editable(disk.fly))
            && (plan.FlagsOnly? <==> Idle(py, d, now) && IsTrusted(py, d) && Editable(disk.fly) && !BothReadOff(disk.fly.value))
            && (plan == Stop(Nothing) <==>
                  || (Readable(py, d) && !SomeOpen(py, d, now) && SomeStanding(d))
                  || (Idle(py, d, now) && IsTrusted(py, d) && Editable(disk.fly) && BothReadOff(disk.fly.value)))
            && (plan == Stop(Refuses) <==>
                  || !IsObject(d)
                  || (Readable(py, d) && SomeOpen(py, d, now) && !Editable(disk.fly))
                  || (Idle(py, d, now) && !IsTrusted(py, d) && !StopsParser(py, d))
                  || (Idle(py, d, now) && IsTrusted(py, d) && !Editable(disk.fly)))
            && (plan == Stop(Fault) <==> (IsObject(d) && SomeUnwritable(py, d)) || (Idle(py, d, now) && StopsParser(py, d)))
            && plan != Stop(Done)
  {
    hide AnyOpen, HasStanding, ScanBreaks, SomeOpen, SomeStanding, SomeUnwritable, Posture.ParseWindows, EditBoth, IsTrusted, BothTurnedOff,
         StopsParser, BothReadOff, ClosedPayload, EntriesOf, Editable;
    if disk.fly.Some? { EditBothExactly(disk.fly.value); } else { NothingToEdit(disk.fly); }
    if IsObject(disk.declaration) {
      EntriesAgree(py, disk.declaration, now);
      TrustAgrees(py, disk.declaration);
    }
  }

  lemma {:induction false} NothingToEdit(fly: Option<string>)
    requires fly == None
    ensures !Editable(fly)
  {
  }

  // ---------- what a whole run leaves ----------

  /** The entry with `now` for its expiry, and with every other field as it is. */
  ghost predicate Expired(py: Python, was: Json, left: Json, now: int) {
    && was.JObject? && left.JObject?
    && forall key ::
         Get(left.fields, key) == if key == "expires_at" then JString(py.formatIso(now)) else Get(was.fields, key)
  }

  /** The declaration with its open entries expired, in their places, and all else as it
      is. */
  ghost predicate Closes(py: Python, was: Json, left: Json, now: int) {
    && HasList(was) && HasList(left)
    && (forall key | key != "windows" :: Get(left.fields, key) == Get(was.fields, key))
    && var before, after := Get(was.fields, "windows").items, Get(left.fields, "windows").items;
       && |after| == |before|
       && forall i | 0 <= i < |before| ::
            if OpenNow(py, before[i], now) then Expired(py, before[i], after[i], now) else after[i] == before[i]
  }

  lemma {:induction false} ClosedExpires(py: Python, entry: Json, now: int)
    ensures if OpenNow(py, entry, now) then Expired(py, entry, Closed(py, entry, now), now) else Closed(py, entry, now) == entry
  {
    hide ParseInstant;
    assert IsOpen(py, entry, now) <==> OpenNow(py, entry, now);
    hide IsOpen, OpenNow;
  }

  lemma {:induction false} ClosedPayloadCloses(py: Python, fields: map<string, Json>, now: int)
    requires HasList(JObject(fields))
    ensures Closes(py, JObject(fields), JObject(ClosedPayload(py, fields, now)), now)
  {
    var before := Get(fields, "windows").items;
    var left := ClosedPayload(py, fields, now);
    assert Get(left, "windows").items == ClosedAll(py, before, now);
    forall i | 0 <= i < |before|
      ensures if OpenNow(py, before[i], now) then Expired(py, before[i], ClosedAll(py, before, now)[i], now) else ClosedAll(py, before, now)[i] == before[i]
    {
      ClosedExpires(py, before[i], now);
    }
    hide OpenNow, Expired, Closed;
  }

  /** With whole writes, the flags-only path leaves the declaration as it was and the
      covering path closes it; both turn both flags off, and nothing else of the text;
      and then, and only then, the command ends well. */
  lemma {:induction false} WholeRunLeaves(py: Python, disk: Disk, now: int)
    ensures var plan, left := Decide(py, disk, now), CloseWindowProofs.Final(py, disk, now);
            && (plan.Stop? ==> left == disk)
            && (!plan.Stop? ==> disk.fly.Some? && left.fly.Some? && BothTurnedOff(disk.fly.value, left.fly.value))
            && (plan.FlagsOnly? ==> left.declaration == disk.declaration)
            && (plan.FlagsThenDeclaration? ==>
                  && disk.declaration.Some? && left.declaration.Some?
                  && Closes(py, disk.declaration.value, left.declaration.value, now))
            && (ExitOf(plan, Written, Written) == Done <==> !plan.Stop?)
  {
    PlanExactly(py, disk, now);
    hide SomeOpen, SomeStanding, SomeUnwritable, IsTrusted, BothTurnedOff, StopsParser, BothReadOff, ClosedPayload, Closes, EditBoth,
         AnyOpen, HasStanding, ScanBreaks, Posture.ParseWindows;
    var plan := Decide(py, disk, now);
    if plan.FlagsThenDeclaration? {
      EditBothExactly(disk.fly.value);
      CloseWindowProofs.FinalOfClosing(py, disk, now);
      OpenHasList(py, disk.declaration, now);
      ClosedPayloadCloses(py, disk.declaration.value.fields, now);
    } else if plan.FlagsOnly? {
      EditBothExactly(disk.fly.value);
    }
  }

  lemma {:induction false} OpenHasList(py: Python, declaration: Option<Json>, now: int)
    requires SomeOpen(py, declaration, now)
    ensures declaration.Some? && HasList(declaration.value)
  {
    hide OpenNow;
  }
}
