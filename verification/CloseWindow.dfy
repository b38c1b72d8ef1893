/** scripts/close_live_window.py: closing a live-execution window by two file
    writes, the flags first and the declaration second. */
module CloseWindow {
  import opened Text
  import opened Json
  import opened FlyToml
  import Posture

  // ---------- the declaration as JSON ----------

  /** A time-boxed entry whose span contains `now`, read off the raw fields. */
  predicate IsOpen(py: Python, entry: Json, now: int) {
    && entry.JObject?
    && Get(entry.fields, "mode") == JString("time_boxed")
    && var start, end := ParseInstant(py, Get(entry.fields, "opened_at")), ParseInstant(py, Get(entry.fields, "expires_at"));
       start.At? && end.At? && start.t <= now < end.t
  }

  /** A time-boxed entry one of whose instants overflows stops the scan. */
  predicate Breaks(py: Python, entry: Json) {
    && entry.JObject?
    && Get(entry.fields, "mode") == JString("time_boxed")
    && (ParseInstant(py, Get(entry.fields, "opened_at")).Overflow? || ParseInstant(py, Get(entry.fields, "expires_at")).Overflow?)
  }

  predicate ScanBreaks(py: Python, entries: seq<Json>) { exists e <- entries :: Breaks(py, e) }

  function Stamped(py: Python, fields: map<string, Json>, now: int): map<string, Json> {
    fields["expires_at" := JString(py.formatIso(now))]
  }

  /** The entry after closing at `now`. */
  function Closed(py: Python, entry: Json, now: int): Json {
    if IsOpen(py, entry, now) then JObject(Stamped(py, entry.fields, now)) else entry
  }

  function ClosedAll(py: Python, entries: seq<Json>, now: int): seq<Json> {
    seq(|entries|, i requires 0 <= i < |entries| => Closed(py, entries[i], now))
  }

  /** The entries of the declaration; none when `windows` is not a list. */
  function EntriesOf(fields: map<string, Json>): seq<Json> {
    if Get(fields, "windows").JArray? then Get(fields, "windows").items else []
  }

  function ClosedPayload(py: Python, fields: map<string, Json>, now: int): map<string, Json> {
    if Get(fields, "windows").JArray?
    then fields["windows" := JArray(ClosedAll(py, EntriesOf(fields), now))] else fields
  }

  predicate AnyOpen(py: Python, fields: map<string, Json>, now: int) {
    exists e <- EntriesOf(fields) :: IsOpen(py, e, now)
  }

  predicate HasStanding(fields: map<string, Json>) {
    exists e <- EntriesOf(fields) :: e.JObject? && Get(e.fields, "mode") == JString("standing")
  }

  // ---------- the declaration in memory ----------

  /** One entry as loaded: an object that is edited in place. */
  class Entry {
    var fields: map<string, Json>

    constructor (fields: map<string, Json>)
      ensures this.fields == fields
    {
      this.fields := fields;
    }
  }

  datatype Item = Object(entry: Entry) | Other(value: Json)

  predicate Separate(items: seq<Item>) {
    forall i, j :: 0 <= i < j < |items| && items[i].Object? && items[j].Object? ==> items[i].entry != items[j].entry
  }

  function Objects(items: seq<Item>): set<Entry> {
    set item <- items | item.Object? :: item.entry
  }

  /** What one loaded item stands for. */
  predicate Shows(item: Item, value: Json)
    reads if item.Object? then {item.entry} else {}
  {
    match item case Object(e) => value == JObject(e.fields) case Other(v) => value == v && !v.JObject?
  }

  /** What the list in memory stands for. */
  predicate Holds(items: seq<Item>, values: seq<Json>)
    reads Objects(items)
  {
    && |items| == |values|
    && forall i :: 0 <= i < |items| ==> (items[i] in items) && Shows(items[i], values[i])
  }

  method Load(values: seq<Json>) returns (items: seq<Item>)
    ensures Holds(items, values) && Separate(items) && fresh(Objects(items))
  {
    items := [];
    for i := 0 to |values|
      invariant |items| == i && Separate(items)
      invariant forall k :: 0 <= k < i ==> Shows(items[k], values[k])
      invariant forall k :: 0 <= k < i && items[k].Object? ==> fresh(items[k].entry)
    {
      if values[i].JObject? {
        var e := new Entry(values[i].fields);
        items := items + [Object(e)];
      } else {
        items := items + [Other(values[i])];
      }
    }
  }

  /** The loaded objects whose value is an open entry, in order. */
  ghost function Picked(py: Python, items: seq<Item>, values: seq<Json>, now: int): (r: seq<Entry>)
    requires |items| == |values|
    ensures forall e <- r :: Object(e) in items
  {
    if items == [] then [] else
    var n := |items| - 1;
    var r := Picked(py, items[..n], values[..n], now);
    if items[n].Object? && IsOpen(py, values[n], now) then r + [items[n].entry] else r
  }

  lemma {:induction false} PickedMembers(py: Python, items: seq<Item>, values: seq<Json>, now: int)
    requires |items| == |values| && Separate(items)
    ensures forall i :: 0 <= i < |items| && items[i].Object? ==>
      (items[i].entry in Picked(py, items, values, now) <==> IsOpen(py, values[i], now))
  {
    hide IsOpen;
    if items != [] {
      var n := |items| - 1;
      PickedMembers(py, items[..n], values[..n], now);
      forall i | 0 <= i < n && items[i].Object?
        ensures items[i].entry in Picked(py, items, values, now) <==> IsOpen(py, values[i], now)
      {
        assert items[..n][i] == items[i] && values[..n][i] == values[i];
      }
      forall e | e in Picked(py, items[..n], values[..n], now) ensures items[n].Object? ==> e != items[n].entry {
        var i :| 0 <= i < n && items[..n][i] == Object(e);
      }
    }
  }

  lemma {:induction false} NothingPicked(py: Python, now: int)
    ensures Picked(py, [], [], now) == []
  {
  }

  lemma {:induction false} PickedNext(py: Python, items: seq<Item>, values: seq<Json>, i: nat, now: int)
    requires i < |items| == |values|
    ensures Picked(py, items[..i + 1], values[..i + 1], now)
         == Picked(py, items[..i], values[..i], now)
            + if items[i].Object? && IsOpen(py, values[i], now) then [items[i].entry] else []
  {
    hide IsOpen;
    assert items[..i + 1][..i] == items[..i] && values[..i + 1][..i] == values[..i];
  }

  lemma {:induction false} BreaksAt(py: Python, values: seq<Json>)
    ensures ScanBreaks(py, values) <==> exists k :: 0 <= k < |values| && Breaks(py, values[k])
  {
    hide Breaks;
  }

  /** `find_open_windows`: the entries themselves, not copies; none when the scan stops
      with an exception. */
  method FindOpenWindows(py: Python, items: seq<Item>, ghost values: seq<Json>, now: int) returns (found: Option<seq<Entry>>)
    requires Holds(items, values)
    ensures found == if ScanBreaks(py, values) then None else Some(Picked(py, items, values, now))
  {
    hide ParseInstant, ScanBreaks, Picked;
    NothingPicked(py, now);
    assert ScanBreaks(py, values) <==> exists k :: 0 <= k < |values| && Breaks(py, values[k]) by { BreaksAt(py, values); }
    var open: seq<Entry> := [];
    for i := 0 to |items|
      invariant open == Picked(py, items[..i], values[..i], now)
      invariant forall k :: 0 <= k < i ==> !Breaks(py, values[k])
    {
      PickedNext(py, items, values, i, now);
      assert Shows(items[i], values[i]);
      if items[i].Other? { continue; }
      var fields := items[i].entry.fields;
      if Get(fields, "mode") != JString("time_boxed") { continue; }
      var start := ParseInstant(py, Get(fields, "opened_at"));
      var end := ParseInstant(py, Get(fields, "expires_at"));
      if start.Overflow? || end.Overflow? {
        assert Breaks(py, values[i]);
        return None;
      }
      if start.NoInstant? || end.NoInstant? { continue; }
      if start.t <= now < end.t { open := open + [items[i].entry]; }
    }
    assert items[..|items|] == items && values[..|items|] == values;
    return Some(open);
  }

  lemma {:induction false} PickedNone(py: Python, items: seq<Item>, values: seq<Json>, now: int)
    requires |items| == |values| && forall i :: 0 <= i < |items| && values[i].JObject? ==> items[i].Object?
    ensures Picked(py, items, values, now) == [] <==> forall v <- values :: !IsOpen(py, v, now)
  {
    if items != [] {
      var n := |items| - 1;
      PickedNone(py, items[..n], values[..n], now);
      assert values == values[..n] + [values[n]];
    }
  }

  /** An item while the stamps are being written: `done` are those already stamped. */
  predicate ShowsStamped(py: Python, item: Item, value: Json, done: seq<Entry>, now: int)
    reads if item.Object? then {item.entry} else {}
  {
    match item
    case Object(e) => value.JObject? && e.fields == if e in done then Stamped(py, value.fields, now) else value.fields
    case Other(v) => value == v && !v.JObject?
  }

  /** `close_windows`: stamps every open entry in place and returns them. Nothing
      else of any entry changes, and nothing at all when the scan stops. */
  method CloseWindows(py: Python, items: seq<Item>, ghost values: seq<Json>, now: int) returns (found: Option<seq<Entry>>)
    requires Holds(items, values) && Separate(items)
    modifies Objects(items)
    ensures Holds(items, if ScanBreaks(py, values) then values else ClosedAll(py, values, now))
    ensures found == if ScanBreaks(py, values) then None else Some(Picked(py, items, values, now))
    ensures found.Some? ==> (found.value != [] <==> exists v <- values :: IsOpen(py, v, now))
  {
    found := FindOpenWindows(py, items, values, now);
    if found == None { return; }
    var closed := found.value;
    PickedMembers(py, items, values, now);
    assert forall i :: 0 <= i < |items| ==> Shows(items[i], values[i]);
    PickedNone(py, items, values, now);
    hide IsOpen, Picked, Stamped, Holds, Shows, ScanBreaks;
    for k := 0 to |closed|
      invariant forall i :: 0 <= i < |items| ==> ShowsStamped(py, items[i], values[i], closed[..k], now)
    {
      assert Object(closed[k]) in items;
      Stamp(py, items, values, closed, k, now);
    }
    assert closed[..|closed|] == closed;
    AllStamped(py, items, values, closed, now);
  }

  lemma {:induction false} AllStamped(py: Python, items: seq<Item>, values: seq<Json>, closed: seq<Entry>, now: int)
    requires |items| == |values|
    requires forall i :: 0 <= i < |items| ==> ShowsStamped(py, items[i], values[i], closed, now)
    requires forall i :: 0 <= i < |items| && items[i].Object? ==> (items[i].entry in closed <==> IsOpen(py, values[i], now))
    ensures Holds(items, ClosedAll(py, values, now))
  {
  }

  method Stamp(py: Python, items: seq<Item>, ghost values: seq<Json>, closed: seq<Entry>, k: nat, now: int)
    requires |items| == |values| && Separate(items) && k < |closed| && Object(closed[k]) in items
    requires forall i :: 0 <= i < |items| ==> ShowsStamped(py, items[i], values[i], closed[..k], now)
    modifies closed[k]
    ensures forall i :: 0 <= i < |items| ==> ShowsStamped(py, items[i], values[i], closed[..k + 1], now)
  {
    var e := closed[k];
    e.fields := e.fields["expires_at" := JString(py.formatIso(now))];
    assert closed[..k + 1] == closed[..k] + [e];
  }

  // ---------- the command ----------

  /** The two files: each may be unreadable. */
  datatype Disk = Disk(fly: Option<string>, declaration: Option<Json>)

  /** Exit codes 0, 1 and 2, and a run ended by an exception. */
  datatype Exit = Done | Nothing | Refuses | Fault

  /** How a write ends: whole, or stopped part way with anything left behind. */
  datatype Outcome<T> = Written | Torn(left: Option<T>)

  function Left<T>(outcome: Outcome<T>, content: T): Option<T> {
    if outcome.Written? then Some(content) else outcome.left
  }

  /** Both flags turned off in one text, and whether that changed it. */
  function EditBoth(text: string): Option<(string, bool)> {
    match SetFlagFalse(text, LIVE_FLAG)
    case Missing => None
    case Duplicated => None
    case Edited(once, live) =>
      match SetFlagFalse(once, PEER_FLAG)
      case Missing => None
      case Duplicated => None
      case Edited(twice, peer) => Some((twice, live || peer))
  }

  datatype Plan =
    | Stop(exit: Exit)
    | FlagsOnly(fly: string)
    | FlagsThenDeclaration(fly: string, changed: bool, declaration: Json)

  /** What the command decides to write, from what it reads. */
  function Decide(py: Python, disk: Disk, now: int): Plan {
    if disk.declaration == None || !disk.declaration.value.JObject? then Stop(Refuses)
    else if ScanBreaks(py, EntriesOf(disk.declaration.value.fields)) then Stop(Fault)
    else DecideFor(py, disk.fly, disk.declaration.value.fields, now)
  }

  function DecideFor(py: Python, fly: Option<string>, fields: map<string, Json>, now: int): Plan {
    if AnyOpen(py, fields, now) then
      if fly == None || EditBoth(fly.value) == None then Stop(Refuses)
      else FlagsThenDeclaration(EditBoth(fly.value).value.0, EditBoth(fly.value).value.1,
                                JObject(ClosedPayload(py, fields, now)))
    else if HasStanding(fields) then Stop(Nothing)
    else
      match Posture.ParseWindows(py, JObject(fields), {})
      case Refused => Stop(Refuses)
      case Raised => Stop(Fault)
      case Value(_) =>
        if fly == None || EditBoth(fly.value) == None then Stop(Refuses)
        else if EditBoth(fly.value).value.1 then FlagsOnly(EditBoth(fly.value).value.0)
        else Stop(Nothing)
  }

  /** The disk after each write of a plan. */
  function Steps(plan: Plan, disk: Disk, f: Outcome<string>, d: Outcome<Json>): seq<Disk> {
    match plan
    case Stop(_) => []
    case FlagsOnly(text) => [disk.(fly := Left(f, text))]
    case FlagsThenDeclaration(text, changed, json) =>
      if !changed then [disk.(declaration := Left(d, json))]
      else
        var once := disk.(fly := Left(f, text));
        if f.Torn? then [once] else [once, once.(declaration := Left(d, json))]
  }

  function ExitOf(plan: Plan, f: Outcome<string>, d: Outcome<Json>): Exit {
    match plan
    case Stop(exit) => exit
    case FlagsOnly(_) => if f.Torn? then Fault else Done
    case FlagsThenDeclaration(_, changed, _) => if (changed && f.Torn?) || d.Torn? then Fault else Done
  }

  /** The files on disk, with a record of every state they have been in. */
  class Files {
    var fly: Option<string>
    var declaration: Option<Json>
    ghost var history: seq<Disk>

    ghost function Now(): Disk
      reads this
    {
      Disk(fly, declaration)
    }

    method WriteFly(text: string, outcome: Outcome<string>) returns (whole: bool)
      modifies this
      ensures declaration == old(declaration) && fly == Left(outcome, text)
      ensures history == old(history) + [Now()] && whole == outcome.Written?
    {
      fly := if outcome.Written? then Some(text) else outcome.left;
      history := history + [Now()];
      whole := outcome.Written?;
    }

    method WriteDeclaration(json: Json, outcome: Outcome<Json>) returns (whole: bool)
      modifies this
      ensures fly == old(fly) && declaration == Left(outcome, json)
      ensures history == old(history) + [Now()] && whole == outcome.Written?
    {
      declaration := if outcome.Written? then Some(json) else outcome.left;
      history := history + [Now()];
      whole := outcome.Written?;
    }
  }

  method Dump(items: seq<Item>, ghost values: seq<Json>) returns (written: seq<Json>)
    requires Holds(items, values)
    ensures written == values
  {
    written := [];
    for i := 0 to |items|
      invariant written == values[..i]
    {
      assert Shows(items[i], values[i]);
      written := written + [if items[i].Object? then JObject(items[i].entry.fields) else items[i].value];
    }
  }

  method AnyStanding(items: seq<Item>, ghost values: seq<Json>) returns (standing: bool)
    requires Holds(items, values)
    ensures standing <==> exists e <- values :: e.JObject? && Get(e.fields, "mode") == JString("standing")
  {
    for i := 0 to |items|
      invariant forall k :: 0 <= k < i ==> !(values[k].JObject? && Get(values[k].fields, "mode") == JString("standing"))
    {
      assert Shows(items[i], values[i]);
      if items[i].Object? && Get(items[i].entry.fields, "mode") == JString("standing") { return true; }
    }
    return false;
  }

  /** The lapsed path: nothing covers `now` and no window is standing. */
  method RevertStranded(py: Python, files: Files, fields: map<string, Json>, now: int, f: Outcome<string>)
    returns (exit: Exit)
    requires !AnyOpen(py, fields, now) && !HasStanding(fields)
    modifies files
    ensures var plan := DecideFor(py, old(files.fly), fields, now);
            && files.history == old(files.history) + Steps(plan, old(files.Now()), f, Written)
            && exit == ExitOf(plan, f, Written)
            && (plan.Stop? ==> files.fly == old(files.fly))
    ensures files.declaration == old(files.declaration)
  {
    var parsed := Posture.ParseWindows(py, JObject(fields), {});
    hide Posture.ParseWindows, SetFlagFalse;
    if parsed.Refused? { return Refuses; }
    if parsed.Raised? { return Fault; }
    if files.fly == None { return Refuses; }
    var edit := EditBoth(files.fly.value);
    if edit == None { return Refuses; }
    if !edit.value.1 { return Nothing; }
    var whole := files.WriteFly(edit.value.0, f);
    exit := if whole then Done else Fault;
  }

  /** The covering path: the flags first, the declaration second. */
  method CloseBoth(py: Python, files: Files, fields: map<string, Json>, json: Json, now: int, f: Outcome<string>, d: Outcome<Json>)
    returns (exit: Exit)
    requires AnyOpen(py, fields, now) && json == JObject(ClosedPayload(py, fields, now))
    modifies files
    ensures var plan := DecideFor(py, old(files.fly), fields, now);
            && files.history == old(files.history) + Steps(plan, old(files.Now()), f, d)
            && exit == ExitOf(plan, f, d)
            && (plan.Stop? ==> files.Now() == old(files.Now()))
  {
    hide SetFlagFalse, AnyOpen, ClosedPayload;
    if files.fly == None { return Refuses; }
    var edit := EditBoth(files.fly.value);
    if edit == None { return Refuses; }
    if edit.value.1 {
      var whole := files.WriteFly(edit.value.0, f);
      if !whole { return Fault; }
    }
    var whole := files.WriteDeclaration(json, d);
    exit := if whole then Done else Fault;
  }

  /** `main`: loads the declaration, closes its open windows in memory, then
      writes what the plan says and in its order. */
  method Run(py: Python, files: Files, now: int, f: Outcome<string>, d: Outcome<Json>) returns (exit: Exit)
    modifies files
    ensures var plan := Decide(py, old(files.Now()), now);
            && files.history == old(files.history) + Steps(plan, old(files.Now()), f, d)
            && exit == ExitOf(plan, f, d)
            && (plan.Stop? ==> files.Now() == old(files.Now()))
  {
    hide IsOpen, Closed, Picked, SetFlagFalse, Posture.ParseWindows, EditBoth, ScanBreaks;
    if files.declaration == None { return Refuses; }
    if !files.declaration.value.JObject? { return Refuses; }
    var fields := files.declaration.value.fields;
    var values := if Get(fields, "windows").JArray? then Get(fields, "windows").items else [];
    var items := Load(values);
    var closed := CloseWindows(py, items, values, now);
    if closed == None { return Fault; }
    if closed.value == [] {
      ClosedNone(py, values, now);
      var standing := AnyStanding(items, values);
      if standing { return Nothing; }
      exit := RevertStranded(py, files, fields, now, f);
    } else {
      var written := Dump(items, ClosedAll(py, values, now));
      exit := CloseBoth(py, files, fields, JObject(fields["windows" := JArray(written)]), now, f, d);
    }
  }

  lemma {:induction false} ClosedNone(py: Python, values: seq<Json>, now: int)
    requires forall v <- values :: !IsOpen(py, v, now)
    ensures ClosedAll(py, values, now) == values
  {
  }
}
