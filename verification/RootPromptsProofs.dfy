/** The walker finds exactly the pages that show a process paragraph, where that
    is said over the list of events alone, with no paragraph state. */
module RootPromptsProofs {
  import opened Text
  import opened RootPrompts

  // ---------- the page, without the walker ----------

  predicate IsContainer(tag: string) { tag == "blockquote" || tag == "ul" || tag == "ol" || tag == "li" }

  predicate IsInline(tag: string) { tag == "strong" || tag == "em" || tag == "code" || tag == "a" }

  /** Elements that hold nothing, and are closed as they are opened when they close
      themselves. */
  predicate IsVoid(tag: string) {
    || tag == "area" || tag == "base" || tag == "br" || tag == "col" || tag == "embed" || tag == "hr" || tag == "img"
    || tag == "input" || tag == "link" || tag == "meta" || tag == "source" || tag == "track" || tag == "wbr"
  }

  /** The start of a numbered list, and the target and the title of a link, are the only
      attributes. */
  predicate FromMarkdown(tag: string, attrs: seq<string>) {
    forall a <- attrs :: (tag == "ol" && a == "start") || (tag == "a" && (a == "href" || a == "title"))
  }

  const SKILL := ".agents/skills/work-item-delivery/SKILL.md"

  /** Self-closing tags as the start and end events they stand for. */
  function Expanded(events: seq<Event>): seq<Event> {
    if events == [] then [] else
    var e := events[|events| - 1];
    Expanded(events[..|events| - 1]) +
    if !e.StartEnd? then [e]
    else if IsVoid(e.tag) then [Start(e.tag, e.attrs), End(e.tag)] else [Start(e.tag, e.attrs)]
  }

  predicate IsCore(events: seq<Event>) { forall e <- events :: !e.StartEnd? }

  /** An open element, by the event that opened it. */
  datatype Frame = Frame(tag: string, plain: bool, bare: bool, at: nat)

  predicate HasFrame(frames: seq<Frame>, tag: string) { exists f <- frames :: f.tag == tag }

  function CloseFrames(frames: seq<Frame>, tag: string): (r: seq<Frame>)
    requires HasFrame(frames, tag)
    ensures |r| < |frames| && r == frames[..|r|] && frames[|r|].tag == tag
    ensures forall k :: |r| < k < |frames| ==> frames[k].tag != tag
  {
    var n := |frames| - 1;
    if frames[n].tag == tag then frames[..n]
    else
      assert forall f <- frames :: f in frames[..n] || f == frames[n];
      CloseFrames(frames[..n], tag)
  }

  /** The open elements after the events. */
  function Frames(events: seq<Event>): (r: seq<Frame>)
    ensures forall k :: 0 <= k < |r| ==> r[k].at < |events|
    ensures forall j, k :: 0 <= j < k < |r| ==> r[j].at < r[k].at
  {
    if events == [] then [] else
    var n := |events| - 1;
    var before := Frames(events[..n]);
    match events[n]
    case Start(tag, attrs) => before + [Frame(tag, FromMarkdown(tag, attrs), attrs == [], n)]
    case End(tag) => if HasFrame(before, tag) then CloseFrames(before, tag) else before
    case _ => before
  }

  predicate IsParagraph(frames: seq<Frame>, k: nat)
    requires k < |frames|
  {
    && (frames[k].tag == "p" || frames[k].tag == "li") && frames[k].bare
    && forall j :: 0 <= j < k ==> IsContainer(frames[j].tag) && frames[j].plain
  }

  /** Text shown at this moment belongs to the paragraph opened at `at`: it is the
      innermost paragraph, and only plain inline elements are open inside it. */
  predicate ShownIn(frames: seq<Frame>, at: nat) {
    exists k :: 0 <= k < |frames| && frames[k].at == at && IsParagraph(frames, k)
      && forall j :: k < j < |frames| ==> !IsParagraph(frames, j) && IsInline(frames[j].tag) && frames[j].plain
  }

  /** The text of the paragraph opened at `at`, as far as the events go. */
  function TextOf(events: seq<Event>, at: nat): string {
    if |events| <= at + 1 then "" else
    var n := |events| - 1;
    TextOf(events[..n], at) + if events[n].Data? && ShownIn(Frames(events[..n]), at) then events[n].text else ""
  }

  /** All the text of a run of events. */
  function DataOf(events: seq<Event>): string {
    if events == [] then "" else
    DataOf(events[..|events| - 1]) + if events[|events| - 1].Data? then events[|events| - 1].text else ""
  }

  /** No start tag and no text but blanks. */
  predicate Quiet(events: seq<Event>) {
    forall e <- events :: e.End? || (e.Data? && Strip(e.text) == "")
  }

  predicate DataOnly(events: seq<Event>) { forall e <- events :: e.Data? }

  /** What stands first in the paragraph opened at `at`: blanks, then a plain
      `strong` from event `a` to event `b` that reads exactly `Process:`. */
  predicate LeadsAt(events: seq<Event>, at: nat, a: nat, b: nat) {
    && at < a < b < |events|
    && Quiet(events[at + 1..a])
    && events[a] == Start("strong", [])
    && DataOnly(events[a + 1..b]) && DataOf(events[a + 1..b]) == "Process:"
    && events[b] == End("strong")
  }

  ghost predicate LeadsWithProcess(events: seq<Event>, at: nat) {
    exists a: nat, b: nat :: LeadsAt(events, at, a, b)
  }

  predicate IsOpenAt(events: seq<Event>, at: nat) { exists f <- Frames(events) :: f.at == at }

  predicate OpensParagraph(events: seq<Event>, at: nat) {
    at < |events| && events[at].Start? && (events[at].tag == "p" || events[at].tag == "li") && events[at].attrs == []
    && forall f <- Frames(events[..at]) :: IsContainer(f.tag) && f.plain
  }

  /** A paragraph opened at `at` and closed by event `j` passes the check. */
  ghost predicate IsProcessParagraph(events: seq<Event>, at: nat, j: nat) {
    && at < j < |events| && OpensParagraph(events, at)
    && IsOpenAt(events[..j], at) && !IsOpenAt(events[..j + 1], at)
    && LeadsWithProcess(events[..j], at)
    && Contains(TextOf(events[..j], at), SKILL)
  }

  // ---------- the opening, event by event ----------

  /** How far the opening of a paragraph has come; `a` and `b` are the events of
      the bold element. */
  datatype Phase = Waiting | Bold(a: nat) | Led(a: nat, b: nat) | Failed

  function PhaseOf(events: seq<Event>, at: nat): (p: Phase)
    ensures p.Bold? ==> at < p.a < |events| && events[p.a].Start?
    ensures p.Led? ==> at < p.a < p.b < |events|
  {
    if |events| <= at + 1 then Waiting else
    var n := |events| - 1;
    var p := PhaseOf(events[..n], at);
    var e := events[n];
    match p
    case Waiting =>
      if e.Start? then (if e.tag == "strong" then Bold(n) else Failed)
      else if e.Data? && Strip(e.text) != "" then Failed else Waiting
    case Bold(a) =>
      if e.Data? then p
      else if e == End("strong") && events[a].attrs == [] && DataOf(events[a + 1..n]) == "Process:" then Led(a, n)
      else Failed
    case Led(_, _) => p
    case Failed => p
  }

  predicate StrongFrom(events: seq<Event>, at: nat, a: nat) {
    && at < a < |events|
    && Quiet(events[at + 1..a]) && events[a].Start? && events[a].tag == "strong" && DataOnly(events[a + 1..])
  }

  lemma {:induction false} QuietConcat(s: seq<Event>, t: seq<Event>)
    ensures Quiet(s + t) <==> Quiet(s) && Quiet(t)
  {
  }

  /** The phases mean what they say. */
  ghost predicate Means(events: seq<Event>, at: nat)
    requires at < |events|
  {
    match PhaseOf(events, at)
    case Waiting => Quiet(events[at + 1..])
    case Bold(a) => StrongFrom(events, at, a)
    case Led(a, b) => LeadsAt(events, at, a, b)
    case Failed => true
  }

  lemma {:induction false} PhaseMeans(events: seq<Event>, at: nat)
    requires at < |events| && IsCore(events)
    ensures Means(events, at)
  {
    var n := |events| - 1;
    if n > at {
      var before := events[..n];
      PhaseMeans(before, at);
      match PhaseOf(before, at)
      case Waiting => WaitingMeans(events, at);
      case Bold(a) => BoldMeans(events, at, a);
      case Led(a, b) => LedMeans(events, at, a, b);
      case Failed =>
    }
  }

  lemma {:induction false} WaitingMeans(events: seq<Event>, at: nat)
    requires at + 1 < |events| && events[|events| - 1] in events && IsCore(events)
    requires PhaseOf(events[..|events| - 1], at).Waiting? && Means(events[..|events| - 1], at)
    ensures Means(events, at)
  {
    hide DataOf;
    var n := |events| - 1;
    var before := events[..n];
    assert events[at + 1..] == before[at + 1..] + [events[n]];
    QuietConcat(before[at + 1..], [events[n]]);
    assert events[at + 1..n] == before[at + 1..];
    assert events[n + 1..] == [];
  }

  lemma {:induction false} DataOnlyConcat(s: seq<Event>, e: Event)
    ensures DataOnly(s + [e]) <==> DataOnly(s) && e.Data?
  {
    assert forall x <- s + [e] :: x in s || x == e;
    assert (s + [e])[|s|] == e && forall x <- s :: x in s + [e];
  }

  /** What comes after the bold element has started. */
  lemma {:induction false} BoldStep(events: seq<Event>, at: nat, a: nat)
    requires at + 1 < |events| && PhaseOf(events[..|events| - 1], at) == Bold(a)
    ensures var n := |events| - 1;
            a < n && PhaseOf(events, at) ==
              if events[n].Data? then Bold(a)
              else if events[n] == End("strong") && events[a].attrs == [] && DataOf(events[a + 1..n]) == "Process:" then Led(a, n)
              else Failed
  {
    hide DataOf;
  }

  lemma {:induction false} BoldMeans(events: seq<Event>, at: nat, a: nat)
    requires at + 1 < |events| && PhaseOf(events[..|events| - 1], at) == Bold(a) && Means(events[..|events| - 1], at)
    ensures Means(events, at)
  {
    hide DataOf, Quiet, DataOnly, PhaseOf;
    var n := |events| - 1;
    var before := events[..n];
    BoldStep(events, at, a);
    assert events[at + 1..a] == before[at + 1..a] && events[a] == before[a];
    assert events[a + 1..] == before[a + 1..] + [events[n]] && events[a + 1..n] == before[a + 1..];
    DataOnlyConcat(before[a + 1..], events[n]);
  }

  lemma {:induction false} LedMeans(events: seq<Event>, at: nat, a: nat, b: nat)
    requires at + 1 < |events| && PhaseOf(events[..|events| - 1], at) == Led(a, b) && Means(events[..|events| - 1], at)
    ensures Means(events, at)
  {
    var before := events[..|events| - 1];
    assert PhaseOf(events, at) == Led(a, b);
    hide DataOf, PhaseOf, Quiet, DataOnly;
    SameLeads(events, before, at, a, b);
  }

  lemma {:induction false} SameLeads(events: seq<Event>, before: seq<Event>, at: nat, a: nat, b: nat)
    requires before <= events && LeadsAt(before, at, a, b)
    ensures LeadsAt(events, at, a, b)
  {
    hide DataOf, Quiet, DataOnly;
    assert before == events[..|before|];
    assert events[at + 1..a] == before[at + 1..a] && events[a + 1..b] == before[a + 1..b];
  }

  lemma {:induction false} QuietWaits(events: seq<Event>, at: nat)
    requires at < |events| && Quiet(events[at + 1..])
    ensures PhaseOf(events, at) == Waiting
  {
    var n := |events| - 1;
    if n > at {
      assert events[at + 1..] == events[..n][at + 1..] + [events[n]];
      QuietConcat(events[..n][at + 1..], [events[n]]);
      QuietWaits(events[..n], at);
      assert events[n] in [events[n]];
    }
  }

  lemma {:induction false} LastIsData(events: seq<Event>, from: nat)
    requires from < |events| && DataOnly(events[from..])
    ensures events[|events| - 1].Data? && DataOnly(events[..|events| - 1][from..])
  {
    var n := |events| - 1;
    assert events[from..][n - from] == events[n] && events[..n][from..] == events[from..][..n - from];
  }

  lemma {:induction false} StrongIsBold(events: seq<Event>, at: nat, a: nat)
    requires StrongFrom(events, at, a)
    ensures PhaseOf(events, at) == Bold(a)
  {
    hide Quiet, DataOf, Strip;
    var n := |events| - 1;
    var before := events[..n];
    assert events == before + [events[n]];
    if n == a {
      assert before[at + 1..] == events[at + 1..a];
      QuietWaits(before, at);
    } else {
      assert before[at + 1..a] == events[at + 1..a] && before[a] == events[a];
      LastIsData(events, a + 1);
      StrongIsBold(before, at, a);
    }
    hide PhaseOf, DataOnly;
    NextPhase(before, events[n], at);
  }

  lemma {:induction false} LedStays(events: seq<Event>, at: nat, a: nat, b: nat)
    requires at + 1 < |events| && PhaseOf(events[..|events| - 1], at) == Led(a, b)
    ensures PhaseOf(events, at) == Led(a, b)
  {
    hide DataOf;
  }

  lemma {:induction false} LeadsIsLed(events: seq<Event>, at: nat, a: nat, b: nat)
    requires LeadsAt(events, at, a, b)
    ensures PhaseOf(events, at) == Led(a, b)
  {
    hide DataOf, Quiet, DataOnly, PhaseOf;
    var n := |events| - 1;
    var before := events[..n];
    assert before[at + 1..a] == events[at + 1..a];
    if n == b {
      assert before[a + 1..] == events[a + 1..b];
      StrongIsBold(before, at, a);
      BoldStep(events, at, a);
    } else {
      assert before[a + 1..b] == events[a + 1..b];
      LeadsIsLed(before, at, a, b);
      LedStays(events, at, a, b);
    }
  }

  lemma {:induction false} LedIffLeads(events: seq<Event>, at: nat)
    requires at < |events| && IsCore(events)
    ensures PhaseOf(events, at).Led? <==> LeadsWithProcess(events, at)
  {
    PhaseMeans(events, at);
    hide DataOf, Quiet, DataOnly;
    if a: nat, b: nat :| LeadsAt(events, at, a, b) {
      LeadsIsLed(events, at, a, b);
    }
  }

  // ---------- the walker and the page, side by side ----------

  lemma {:induction false} FrameEvents(events: seq<Event>)
    ensures forall f <- Frames(events) ::
      events[f.at].Start? && f == Frame(events[f.at].tag, FromMarkdown(f.tag, events[f.at].attrs), events[f.at].attrs == [], f.at)
  {
    if events != [] {
      var n := |events| - 1;
      FrameEvents(events[..n]);
      forall f | f in Frames(events)
        ensures events[f.at].Start? && f == Frame(events[f.at].tag, FromMarkdown(f.tag, events[f.at].attrs), events[f.at].attrs == [], f.at)
      {
        assert f in Frames(events[..n]) || f.at == n;
      }
    }
  }

  /** A paragraph's state is the one its own events give. */
  predicate ParaOk(p: Paragraph, events: seq<Event>, at: nat) {
    && p.text == TextOf(events, at)
    && match PhaseOf(events, at)
       case Waiting => p.opening == Await && p.bold == ""
       case Bold(a) => p.opening == InStrong && p.bold == (if events[a].attrs == [] then DataOf(events[a + 1..]) else "")
       case Led(_, _) => p.opening == Opened
       case Failed => p.opening == No
  }

  /** A waiting paragraph is on top of the stack; while its bold element is open,
      that element is. */
  predicate OnTop(events: seq<Event>, frames: seq<Frame>, k: nat)
    requires k < |frames|
  {
    match PhaseOf(events, frames[k].at)
    case Waiting => k == |frames| - 1
    case Bold(a) =>
      k == |frames| - 2 && frames[k + 1].tag == "strong" && frames[k + 1].plain == (events[a].attrs == [])
    case Led(_, _) => true
    case Failed => true
  }

  predicate ElementOk(e: Element, events: seq<Event>, frames: seq<Frame>, k: nat)
    requires k < |frames|
  {
    && e.tag == frames[k].tag && e.plain == frames[k].plain
    && (e.para.Some? <==> IsParagraph(frames, k))
    && (e.para.Some? ==> ParaOk(e.para.value, events, frames[k].at) && OnTop(events, frames, k))
  }

  predicate Matches(open: seq<Element>, events: seq<Event>, frames: seq<Frame>) {
    |open| == |frames| && forall k :: 0 <= k < |frames| ==> ElementOk(open[k], events, frames, k)
  }

  lemma {:induction false} NextPhase(events: seq<Event>, e: Event, at: nat)
    requires at < |events|
    ensures var p := PhaseOf(events, at);
            var q := PhaseOf(events + [e], at);
            match p
            case Waiting =>
              q == if e.Start? then (if e.tag == "strong" then Bold(|events|) else Failed)
                   else if e.Data? && Strip(e.text) != "" then Failed else Waiting
            case Bold(a) =>
              q == if e.Data? then p
                   else if e == End("strong") && events[a].attrs == [] && DataOf(events[a + 1..]) == "Process:" then Led(a, |events|)
                   else Failed
            case Led(_, _) => q == p
            case Failed => q == p
  {
    hide DataOf;
    var next := events + [e];
    assert next[..|events|] == events;
    if PhaseOf(events, at).Bold? {
      assert next[PhaseOf(events, at).a + 1..|events|] == events[PhaseOf(events, at).a + 1..];
    }
  }

  lemma {:induction false} PrefixParagraph(frames: seq<Frame>, more: seq<Frame>, k: nat)
    requires k < |frames|
    ensures IsParagraph(frames + more, k) <==> IsParagraph(frames, k)
  {
    assert forall j :: 0 <= j <= k ==> (frames + more)[j] == frames[j];
  }

  // ---------- a start tag ----------

  lemma {:induction false} StartOnFrames(events: seq<Event>, tag: string, attrs: seq<string>)
    ensures Frames(events + [Start(tag, attrs)]) == Frames(events) + [Frame(tag, FromMarkdown(tag, attrs), attrs == [], |events|)]
  {
  }

  lemma {:induction false} PlainAgrees(tag: string, attrs: seq<string>)
    ensures Plain(tag, attrs) <==> FromMarkdown(tag, attrs)
  {
  }

  lemma {:induction false} VoidAgrees(tag: string)
    ensures tag in VOID_TAGS <==> IsVoid(tag)
  {
  }

  lemma {:induction false} PlainStrong(attrs: seq<string>)
    ensures FromMarkdown("strong", attrs) <==> attrs == []
  {
    if attrs != [] { assert attrs[0] in attrs; }
  }

  lemma {:induction false} ParaAfterStart(p: Paragraph, events: seq<Event>, at: nat, tag: string, attrs: seq<string>)
    requires at < |events| && ParaOk(p, events, at)
    ensures ParaOk(AfterStart(p, tag), events + [Start(tag, attrs)], at)
  {
  }

  /** A settled paragraph changes only by its text. */
  lemma {:induction false} ParaSettled(p: Paragraph, events: seq<Event>, at: nat, e: Event)
    requires at < |events| && ParaOk(p, events, at) && (PhaseOf(events, at).Led? || PhaseOf(events, at).Failed?)
    requires !(e.Data? && ShownIn(Frames(events), at))
    ensures ParaOk(p, events + [e], at) && PhaseOf(events + [e], at) == PhaseOf(events, at)
  {
  }

  lemma {:induction false} OnTopAfterStart(events: seq<Event>, frames: seq<Frame>, tag: string, attrs: seq<string>, k: nat)
    requires k < |frames| && frames[k].at < |events| && OnTop(events, frames, k)
    ensures OnTop(events + [Start(tag, attrs)], frames + [Frame(tag, FromMarkdown(tag, attrs), attrs == [], |events|)], k)
  {
    NextPhase(events, Start(tag, attrs), frames[k].at);
    PlainStrong(attrs);
    hide PhaseOf;
  }

  /** What a start tag does to an element that is open. */
  lemma {:induction false} StartKeeps(s: State, tag: string, attrs: seq<string>, k: nat)
    requires k < |s.open|
    ensures var i, open := Innermost(s.open), OnStart(s, tag, attrs).open;
            && |open| == |s.open| + 1 && open[k].tag == s.open[k].tag && open[k].plain == s.open[k].plain
            && open[k].para == if k == i then Some(AfterStart(s.open[k].para.value, tag)) else s.open[k].para
  {
    hide Innermost, Plain, ContainersOnly, AfterStart;
  }

  lemma {:induction false} StartElement(s: State, events: seq<Event>, tag: string, attrs: seq<string>, k: nat)
    requires Matches(s.open, events, Frames(events)) && k < |s.open|
    ensures ElementOk(OnStart(s, tag, attrs).open[k], events + [Start(tag, attrs)], Frames(events + [Start(tag, attrs)]), k)
  {
    var frames := Frames(events);
    var at := frames[k].at;
    assert ElementOk(s.open[k], events, frames, k);
    hide PhaseOf, TextOf, Frames, Plain, FromMarkdown, ContainersOnly, AfterStart, OnStart, Innermost, Matches, IsParagraph;
    StartKeeps(s, tag, attrs, k);
    StartOnFrames(events, tag, attrs);
    PrefixParagraph(frames, [Frame(tag, FromMarkdown(tag, attrs), attrs == [], |events|)], k);
    if s.open[k].para.Some? {
      var p := s.open[k].para.value;
      OnTopAfterStart(events, frames, tag, attrs, k);
      ParaAfterStart(p, events, at, tag, attrs);
      if k < Innermost(s.open) {
        ParaSettled(p, events, at, Start(tag, attrs));
      }
    }
    hide ParaOk, OnTop;
  }

  lemma {:induction false} StartNew(s: State, events: seq<Event>, tag: string, attrs: seq<string>)
    requires Matches(s.open, events, Frames(events))
    ensures var open := OnStart(s, tag, attrs).open;
            |open| == |s.open| + 1 && ElementOk(open[|s.open|], events + [Start(tag, attrs)], Frames(events + [Start(tag, attrs)]), |s.open|)
  {
    PlainAgrees(tag, attrs);
    hide PhaseOf, TextOf, Plain, FromMarkdown, AfterStart, Frames;
    var frames := Frames(events);
    StartOnFrames(events, tag, attrs);
    NewParagraph(events, tag, attrs);
    var i := Innermost(s.open);
    var open := if i >= 0 then WithPara(s.open, i, AfterStart(s.open[i].para.value, tag)) else s.open;
    forall k | 0 <= k < |frames| ensures open[k].tag == frames[k].tag && open[k].plain == frames[k].plain {
      assert ElementOk(s.open[k], events, frames, k);
    }
    var next := frames + [Frame(tag, FromMarkdown(tag, attrs), attrs == [], |events|)];
    assert forall k :: 0 <= k < |frames| ==> next[k] == frames[k];
    var latest := OnStart(s, tag, attrs).open[|s.open|];
    assert latest.para.Some? <==> IsParagraph(next, |frames|);
    assert latest.para.Some? ==> ParaOk(latest.para.value, events + [Start(tag, attrs)], |events|);
  }

  lemma {:induction false} NewParagraph(events: seq<Event>, tag: string, attrs: seq<string>)
    ensures PhaseOf(events + [Start(tag, attrs)], |events|) == Waiting && TextOf(events + [Start(tag, attrs)], |events|) == ""
  {
  }

  lemma {:induction false} StartStep(s: State, events: seq<Event>, tag: string, attrs: seq<string>)
    requires Matches(s.open, events, Frames(events))
    ensures Matches(OnStart(s, tag, attrs).open, events + [Start(tag, attrs)], Frames(events + [Start(tag, attrs)]))
  {
    StartNew(s, events, tag, attrs);
    StartOnFrames(events, tag, attrs);
    forall k | 0 <= k < |s.open|
      ensures ElementOk(OnStart(s, tag, attrs).open[k], events + [Start(tag, attrs)], Frames(events + [Start(tag, attrs)]), k)
    {
      StartElement(s, events, tag, attrs, k);
    }
    hide ElementOk, OnStart, Frames;
  }

  // ---------- text ----------

  lemma {:induction false} DataOnFrames(events: seq<Event>, text: string)
    ensures Frames(events + [Data(text)]) == Frames(events)
  {
  }

  /** The walker takes text for the paragraph to which the page shows it. */
  lemma {:induction false} ShownIsTaken(s: State, events: seq<Event>, k: nat)
    requires Matches(s.open, events, Frames(events)) && k < |s.open| && s.open[k].para.Some?
    ensures ShownIn(Frames(events), Frames(events)[k].at) <==> k == Innermost(s.open) && InlineOnly(s.open, k + 1)
  {
    var frames := Frames(events);
    hide PhaseOf, TextOf, Frames, ParaOk, OnTop;
    assert forall j :: 0 <= j < |frames| ==> ElementOk(s.open[j], events, frames, j);
    assert forall j :: 0 <= j < |frames| && frames[j].at == frames[k].at ==> j == k;
    var i := Innermost(s.open);
    assert k <= i && (k == i <==> forall j :: k < j < |frames| ==> s.open[j].para == None);
    if k == i && InlineOnly(s.open, k + 1) {
      assert forall j :: k < j < |frames| ==> frames[j].tag == s.open[j].tag && frames[j].plain == s.open[j].plain;
    }
  }

  lemma {:induction false} NextData(events: seq<Event>, e: Event, from: nat)
    requires from <= |events| && e.Data?
    ensures DataOf((events + [e])[from..]) == DataOf(events[from..]) + e.text
  {
    assert (events + [e])[from..] == events[from..] + [e];
    assert (events[from..] + [e])[..|events[from..]|] == events[from..];
  }

  /** While a paragraph waits, all text is its own; while its bold element is
      open, text is its own when that element is plain. */
  predicate TakesAll(s: State, events: seq<Event>, at: nat, k: nat) {
    match PhaseOf(events, at)
    case Waiting => k == Innermost(s.open) && InlineOnly(s.open, k + 1)
    case Bold(a) => k == Innermost(s.open) && (InlineOnly(s.open, k + 1) <==> events[a].attrs == [])
    case Led(_, _) => true
    case Failed => true
  }

  lemma {:induction false} TakenWhileOpening(s: State, events: seq<Event>, k: nat)
    requires Matches(s.open, events, Frames(events)) && k < |s.open| && s.open[k].para.Some?
    ensures TakesAll(s, events, Frames(events)[k].at, k)
  {
    var frames := Frames(events);
    hide PhaseOf, TextOf, Frames, ParaOk;
    assert ElementOk(s.open[k], events, frames, k);
    if k + 1 < |frames| { assert ElementOk(s.open[k + 1], events, frames, k + 1); }
  }

  lemma {:induction false} TextTaken(events: seq<Event>, at: nat, text: string)
    requires at < |events| && ShownIn(Frames(events), at)
    ensures TextOf(events + [Data(text)], at) == TextOf(events, at) + text
  {
    assert (events + [Data(text)])[..|events|] == events;
    hide Frames, ShownIn;
  }

  /** The paragraph after text that is its own. */
  lemma {:induction false} ParaTakes(p: Paragraph, events: seq<Event>, at: nat, text: string)
    requires at < |events| && ParaOk(p, events, at) && ShownIn(Frames(events), at)
    requires PhaseOf(events, at).Bold? ==> events[PhaseOf(events, at).a].attrs == []
    ensures ParaOk(AfterData(p, text), events + [Data(text)], at)
  {
    hide PhaseOf, TextOf, DataOf, Strip, ShownIn, Frames;
    TextTaken(events, at, text);
    PhaseTakes(p, events, at, text);
  }

  lemma {:induction false} PhaseTakes(p: Paragraph, events: seq<Event>, at: nat, text: string)
    requires at < |events| && ParaOk(p, events, at)
    requires PhaseOf(events, at).Bold? ==> events[PhaseOf(events, at).a].attrs == []
    requires TextOf(events + [Data(text)], at) == TextOf(events, at) + text
    ensures ParaOk(AfterData(p, text), events + [Data(text)], at)
  {
    hide PhaseOf, TextOf, DataOf, Strip;
    NextPhase(events, Data(text), at);
    match PhaseOf(events, at)
    case Bold(a) =>
      NextData(events, Data(text), a + 1);
      assert (events + [Data(text)])[a] == events[a];
    case _ =>
  }

  /** The paragraph after text that is not its own. */
  lemma {:induction false} ParaIgnores(p: Paragraph, events: seq<Event>, at: nat, text: string)
    requires at < |events| && ParaOk(p, events, at) && !ShownIn(Frames(events), at)
    requires !PhaseOf(events, at).Waiting?
    requires PhaseOf(events, at).Bold? ==> events[PhaseOf(events, at).a].attrs != []
    ensures ParaOk(p, events + [Data(text)], at)
  {
  }

  lemma {:induction false} OnTopAfterData(events: seq<Event>, frames: seq<Frame>, text: string, k: nat)
    requires k < |frames| && frames[k].at < |events| && OnTop(events, frames, k)
    ensures OnTop(events + [Data(text)], frames, k)
  {
  }

  lemma {:induction false} DataElement(s: State, events: seq<Event>, text: string, k: nat)
    requires Matches(s.open, events, Frames(events)) && k < |s.open|
    ensures |OnData(s, text).open| == |s.open|
    ensures ElementOk(OnData(s, text).open[k], events + [Data(text)], Frames(events + [Data(text)]), k)
  {
    var frames := Frames(events);
    var at := frames[k].at;
    assert ElementOk(s.open[k], events, frames, k);
    DataOnFrames(events, text);
    if s.open[k].para.Some? {
      var p := s.open[k].para.value;
      OnTopAfterData(events, frames, text, k);
      ShownIsTaken(s, events, k);
      TakenWhileOpening(s, events, k);
      if ShownIn(frames, at) {
        ParaTakes(p, events, at, text);
      } else {
        ParaIgnores(p, events, at, text);
      }
    }
    hide PhaseOf, TextOf, Frames, IsParagraph, InlineOnly, ParaOk, OnTop, AfterData, ShownIn;
  }

  lemma {:induction false} DataStep(s: State, events: seq<Event>, text: string)
    requires Matches(s.open, events, Frames(events))
    ensures Matches(OnData(s, text).open, events + [Data(text)], Frames(events + [Data(text)]))
  {
    DataOnFrames(events, text);
    assert |OnData(s, text).open| == |s.open|;
    forall k | 0 <= k < |s.open|
      ensures ElementOk(OnData(s, text).open[k], events + [Data(text)], Frames(events + [Data(text)]), k)
    {
      DataElement(s, events, text, k);
    }
    hide ElementOk, OnData, Frames;
  }

  // ---------- an end tag ----------

  lemma {:induction false} EndOnFrames(events: seq<Event>, tag: string)
    ensures var frames := Frames(events);
            Frames(events + [End(tag)]) == if HasFrame(frames, tag) then CloseFrames(frames, tag) else frames
  {
  }

  /** Closing pops the elements from the top down to the innermost of the tag,
      and looks at each paragraph it pops. */
  lemma {:induction false} PopMeans(s: State, tag: string)
    requires HasTag(s.open, tag)
    ensures var t := PopTo(s, tag);
            var m := |t.open|;
            && m < |s.open| && t.open == s.open[..m] && s.open[m].tag == tag
            && (forall k :: m < k < |s.open| ==> s.open[k].tag != tag)
            && (t.found <==> s.found || exists k :: m <= k < |s.open| && Passes(s.open[k]))
    decreases |s.open|
  {
    hide Passes;
    var n := |s.open| - 1;
    var top := s.open[n];
    if top.tag != tag {
      var below := State(s.found || Passes(top), s.open[..n]);
      assert forall e <- s.open :: e in below.open || e == top;
      PopMeans(below, tag);
    }
  }

  function Marked(s: State, tag: string): seq<Element> {
    var i := Innermost(s.open);
    if i >= 0 then WithPara(s.open, i, AfterEnd(s.open[i].para.value, tag)) else s.open
  }

  lemma {:induction false} ParaAfterEnd(p: Paragraph, events: seq<Event>, at: nat, tag: string)
    requires at < |events| && ParaOk(p, events, at)
    ensures ParaOk(AfterEnd(p, tag), events + [End(tag)], at)
  {
  }

  lemma {:induction false} MarkedElement(s: State, events: seq<Event>, tag: string, k: nat)
    requires Matches(s.open, events, Frames(events)) && k < |s.open|
    ensures var e := Marked(s, tag)[k];
            && |Marked(s, tag)| == |s.open|
            && e.tag == s.open[k].tag && e.plain == s.open[k].plain && (e.para.Some? <==> s.open[k].para.Some?)
            && (e.para.Some? ==> ParaOk(e.para.value, events + [End(tag)], Frames(events)[k].at))
  {
    var frames := Frames(events);
    assert ElementOk(s.open[k], events, frames, k);
    if s.open[k].para.Some? {
      var p := s.open[k].para.value;
      ParaAfterEnd(p, events, frames[k].at, tag);
      if k < Innermost(s.open) {
        ParaSettled(p, events, frames[k].at, End(tag));
      }
    }
    hide ParaOk, Frames, AfterEnd, ElementOk, PhaseOf;
  }

  lemma {:induction false} MarkedTags(s: State, events: seq<Event>, tag: string)
    requires Matches(s.open, events, Frames(events))
    ensures var frames := Frames(events);
            |Marked(s, tag)| == |frames| && forall k :: 0 <= k < |frames| ==> Marked(s, tag)[k].tag == frames[k].tag
    ensures HasTag(Marked(s, tag), tag) <==> HasFrame(Frames(events), tag)
  {
  }

  /** Where an end tag cuts the stack. */
  lemma {:induction false} SameCut(s: State, events: seq<Event>, tag: string)
    requires Matches(s.open, events, Frames(events))
    ensures var frames := Frames(events);
            var m := |Frames(events + [End(tag)])|;
            && m <= |frames| && Frames(events + [End(tag)]) == frames[..m]
            && OnEnd(s, tag).open == Marked(s, tag)[..m]
            && (HasFrame(frames, tag) ==> m < |frames| && frames[m].tag == tag && forall k :: m < k < |frames| ==> frames[k].tag != tag)
            && (!HasFrame(frames, tag) ==> m == |frames|)
            && (OnEnd(s, tag).found <==> s.found || exists k :: m <= k < |frames| && Passes(Marked(s, tag)[k]))
  {
    hide Frames, Passes, HasFrame, HasTag, Marked, PopTo, CloseFrames, Matches, OnEnd;
    MarkedTags(s, events, tag);
    EndOnFrames(events, tag);
    var marked := State(s.found, Marked(s, tag));
    if HasFrame(Frames(events), tag) { PopMeans(marked, tag); }
    hide Frames, Passes, HasFrame, HasTag, Marked, PopTo, CloseFrames, Matches;
    assert OnEnd(s, tag) == if HasTag(marked.open, tag) then PopTo(marked, tag) else marked by { OnEndMarked(s, tag); }
  }

  lemma {:induction false} OnEndMarked(s: State, tag: string)
    ensures var marked := State(s.found, Marked(s, tag));
            OnEnd(s, tag) == if HasTag(marked.open, tag) then PopTo(marked, tag) else marked
  {
  }

  lemma {:induction false} OnTopAfterEnd(events: seq<Event>, frames: seq<Frame>, tag: string, k: nat, m: nat)
    requires k < m <= |frames| && frames[k].at < |events| && OnTop(events, frames, k)
    ensures OnTop(events + [End(tag)], frames[..m], k)
  {
  }

  lemma {:induction false} EndElement(s: State, events: seq<Event>, tag: string, k: nat)
    requires Matches(s.open, events, Frames(events)) && k < |Frames(events + [End(tag)])|
    ensures |OnEnd(s, tag).open| == |Frames(events + [End(tag)])|
    ensures ElementOk(OnEnd(s, tag).open[k], events + [End(tag)], Frames(events + [End(tag)]), k)
  {
    var frames := Frames(events);
    var m := |Frames(events + [End(tag)])|;
    hide PhaseOf, TextOf, Frames, Marked, OnEnd;
    SameCut(s, events, tag);
    MarkedElement(s, events, tag, k);
    assert ElementOk(s.open[k], events, frames, k);
    assert frames == frames[..m] + frames[m..];
    PrefixParagraph(frames[..m], frames[m..], k);
    if s.open[k].para.Some? { OnTopAfterEnd(events, frames, tag, k, m); }
    hide IsParagraph, ParaOk, OnTop;
  }

  lemma {:induction false} EndStep(s: State, events: seq<Event>, tag: string)
    requires Matches(s.open, events, Frames(events))
    ensures Matches(OnEnd(s, tag).open, events + [End(tag)], Frames(events + [End(tag)]))
  {
    SameCut(s, events, tag);
    forall k | 0 <= k < |Frames(events + [End(tag)])|
      ensures ElementOk(OnEnd(s, tag).open[k], events + [End(tag)], Frames(events + [End(tag)]), k)
    {
      EndElement(s, events, tag, k);
    }
    MarkedTags(s, events, tag);
    hide ElementOk, OnEnd, Frames, Marked;
  }

  // ---------- what is found ----------

  lemma {:induction false} FramesBelow(events: seq<Event>, k: nat)
    requires k < |Frames(events)|
    ensures Frames(events[..Frames(events)[k].at]) == Frames(events)[..k]
  {
    var n := |events| - 1;
    var before := events[..n];
    var frames := Frames(events);
    var at := frames[k].at;
    if at < n {
      assert k < |Frames(before)| && Frames(before)[k] == frames[k];
      FramesBelow(before, k);
      assert before[..at] == events[..at];
      assert frames[..k] == Frames(before)[..k];
    } else {
      assert frames == Frames(before) + [frames[k]] && k == |Frames(before)|;
    }
  }

  /** A frame is a paragraph when it was opened as one. */
  lemma {:induction false} ParagraphWasOpened(events: seq<Event>, k: nat)
    requires k < |Frames(events)|
    ensures IsParagraph(Frames(events), k) <==> OpensParagraph(events, Frames(events)[k].at)
  {
    var frames := Frames(events);
    FramesBelow(events, k);
    FrameEvents(events);
    hide Frames, Plain, FromMarkdown, IsContainer;
    assert frames[k] in frames;
    assert forall j | 0 <= j < k :: frames[..k][j] == frames[j];
  }

  ghost predicate FoundBefore(events: seq<Event>, limit: nat) {
    exists at: nat, j: nat :: j < limit && IsProcessParagraph(events, at, j)
  }

  lemma {:induction false} EarlierIsKept(events: seq<Event>, e: Event, at: nat, j: nat)
    requires j < |events|
    ensures IsProcessParagraph(events + [e], at, j) <==> IsProcessParagraph(events, at, j)
  {
    hide LeadsWithProcess, TextOf, Frames, Contains;
    var next := events + [e];
    assert next[..j] == events[..j] && next[..j + 1] == events[..j + 1];
    if at < j { assert next[..at] == events[..at]; }
  }

  /** The paragraph that the last event closes. */
  lemma {:induction false} FoundAtEnd(events: seq<Event>, e: Event, at: nat)
    ensures IsProcessParagraph(events + [e], at, |events|) <==>
            && at < |events| && OpensParagraph(events, at)
            && IsOpenAt(events, at) && !IsOpenAt(events + [e], at)
            && LeadsWithProcess(events, at) && Contains(TextOf(events, at), SKILL)
  {
    hide LeadsWithProcess, TextOf, Frames, Contains;
    var next := events + [e];
    assert next[..|events|] == events && next[..|events| + 1] == next;
    if at < |events| { assert next[..at] == events[..at]; }
  }

  lemma {:induction false} FoundNext(events: seq<Event>, e: Event)
    ensures FoundBefore(events + [e], |events| + 1) <==>
            FoundBefore(events, |events|) || exists at: nat :: IsProcessParagraph(events + [e], at, |events|)
  {
    hide IsProcessParagraph;
    if at: nat, j: nat :| j < |events| + 1 && IsProcessParagraph(events + [e], at, j) {
      if j < |events| { EarlierIsKept(events, e, at, j); }
    }
    if at: nat, j: nat :| j < |events| && IsProcessParagraph(events, at, j) {
      EarlierIsKept(events, e, at, j);
    }
  }

  /** An event that leaves every element open finds nothing. */
  lemma {:induction false} NothingClosed(events: seq<Event>, e: Event)
    requires Frames(events) <= Frames(events + [e])
    ensures forall at: nat :: !IsProcessParagraph(events + [e], at, |events|)
  {
    hide LeadsWithProcess, TextOf, Frames, Contains;
    forall at: nat ensures !IsProcessParagraph(events + [e], at, |events|) {
      FoundAtEnd(events, e, at);
      if IsOpenAt(events, at) {
        var f :| f in Frames(events) && f.at == at;
        assert f in Frames(events + [e]);
      }
    }
  }

  /** An end tag that pops a paragraph does not complete its opening. */
  lemma {:induction false} PoppedPhase(s: State, events: seq<Event>, tag: string, k: nat)
    requires Matches(s.open, events, Frames(events))
    requires |Frames(events + [End(tag)])| <= k < |s.open| && s.open[k].para.Some?
    ensures PhaseOf(events + [End(tag)], Frames(events)[k].at).Led? <==> PhaseOf(events, Frames(events)[k].at).Led?
  {
  }

  lemma {:induction false} PassesByPhase(e: Element, events: seq<Event>, at: nat)
    requires e.para.Some? ==> ParaOk(e.para.value, events, at)
    ensures Passes(e) <==> e.para.Some? && PhaseOf(events, at).Led? && Contains(TextOf(events, at), SKILL)
  {
  }

  /** A popped paragraph passes exactly when the page shows it as one. */
  lemma {:induction false} PoppedPasses(s: State, events: seq<Event>, tag: string, k: nat)
    requires Matches(s.open, events, Frames(events)) && IsCore(events)
    requires |Frames(events + [End(tag)])| <= k < |Frames(events)|
    ensures |Marked(s, tag)| == |s.open| == |Frames(events)|
    ensures Passes(Marked(s, tag)[k]) <==> IsProcessParagraph(events + [End(tag)], Frames(events)[k].at, |events|)
  {
    assert |s.open| == |Frames(events)| && ElementOk(s.open[k], events, Frames(events), k);
    assert s.open[k].para.Some? <==> IsParagraph(Frames(events), k);
    hide *;
    var at := Frames(events)[k].at;
    MarkedElement(s, events, tag, k);
    PassesByPhase(Marked(s, tag)[k], events + [End(tag)], at);
    ParagraphWasOpened(events, k);
    LedIffLeads(events, at);
    FoundAtEnd(events, End(tag), at);
    SameCut(s, events, tag);
    if s.open[k].para.Some? { PoppedPhase(s, events, tag, k); }
  }

  /** The frame that the closing event takes away. */
  lemma {:induction false} ClosedFrame(events: seq<Event>, e: Event, at: nat) returns (k: nat)
    requires IsProcessParagraph(events + [e], at, |events|) && Frames(events + [e]) <= Frames(events)
    ensures |Frames(events + [e])| <= k < |Frames(events)| && Frames(events)[k].at == at
  {
    FoundAtEnd(events, e, at);
    hide Frames, OpensParagraph, LeadsWithProcess, TextOf, Contains, IsProcessParagraph;
    var f :| f in Frames(events) && f.at == at;
    k :| 0 <= k < |Frames(events)| && Frames(events)[k] == f;
    assert forall i :: 0 <= i < |Frames(events + [e])| ==> Frames(events + [e])[i] in Frames(events + [e]);
  }

  lemma {:induction false} FoundByEnd(s: State, events: seq<Event>, tag: string)
    requires Matches(s.open, events, Frames(events)) && IsCore(events) && (s.found <==> FoundBefore(events, |events|))
    ensures OnEnd(s, tag).found <==> FoundBefore(events + [End(tag)], |events| + 1)
  {
    hide *;
    var next := events + [End(tag)];
    SameCut(s, events, tag);
    MarkedTags(s, events, tag);
    FoundNext(events, End(tag));
    if at: nat :| IsProcessParagraph(next, at, |events|) {
      var k := ClosedFrame(events, End(tag), at);
      PoppedPasses(s, events, tag, k);
    }
    if k :| |Frames(next)| <= k < |Frames(events)| && Passes(Marked(s, tag)[k]) {
      PoppedPasses(s, events, tag, k);
    }
  }

  /** The walker's stack and its verdict after any events. */
  lemma {:induction false} OnlyEndsFind(s: State, tag: string, attrs: seq<string>, text: string)
    ensures OnStart(s, tag, attrs).found == s.found && OnData(s, text).found == s.found
  {
  }

  lemma {:induction false} NothingMatches()
    ensures Matches([], [], Frames([])) && !FoundBefore([], 0)
  {
  }

  lemma {:induction false} WalkMatches(events: seq<Event>)
    requires IsCore(events)
    ensures Matches(Walk(events).open, events, Frames(events))
    ensures Walk(events).found <==> FoundBefore(events, |events|)
  {
    hide Matches, FoundBefore, OnStart, OnEnd, OnData, Frames;
    if events == [] {
      NothingMatches();
    } else {
      var n := |events| - 1;
      var before := events[..n];
      var s, e := Walk(before), events[n];
      WalkMatches(before);
      assert events == before + [e] && e in events;
      match e
      case Start(tag, attrs) =>
        OnlyEndsFind(s, tag, attrs, "");
        StartStep(s, before, tag, attrs);
        StartOnFrames(before, tag, attrs);
        NothingClosed(before, e);
        FoundNext(before, e);
      case End(tag) =>
        EndStep(s, before, tag);
        FoundByEnd(s, before, tag);
      case Data(text) =>
        OnlyEndsFind(s, "", [], text);
        DataStep(s, before, text);
        DataOnFrames(before, text);
        NothingClosed(before, e);
        FoundNext(before, e);
    }
  }

  lemma {:induction false} WalkExpanded(events: seq<Event>)
    ensures IsCore(Expanded(events)) && Walk(Expanded(events)) == Walk(events)
  {
    hide OnStart, OnEnd, OnData, IsVoid, VOID_TAGS;
    if events != [] {
      var n := |events| - 1;
      var e, before := events[n], Expanded(events[..n]);
      WalkExpanded(events[..n]);
      if !e.StartEnd? {
        WalkAppend(before, e);
      } else {
        ExpandTag(before, e);
      }
    }
  }

  lemma {:induction false} ExpandTag(before: seq<Event>, e: Event)
    requires e.StartEnd? && IsCore(before)
    ensures var start, end := Start(e.tag, e.attrs), End(e.tag);
            var next := before + if IsVoid(e.tag) then [start, end] else [start];
            IsCore(next) && Walk(next) == Step(Walk(before), e)
  {
    hide OnStart, OnEnd, OnData, Walk, IsVoid, VOID_TAGS;
    VoidAgrees(e.tag);
    var start, end := Start(e.tag, e.attrs), End(e.tag);
    WalkAppend(before, start);
    WalkAppend(before + [start], end);
    assert before + [start, end] == before + [start] + [end];
  }

  lemma {:induction false} WalkAppend(events: seq<Event>, e: Event)
    ensures Walk(events + [e]) == Step(Walk(events), e)
  {
  }

  /** Over every sequence of events, the walker reports a process line exactly
      when some paragraph of the page is one. */
  lemma {:induction false} FoundIffShown(events: seq<Event>)
    ensures Walk(events).found <==>
            exists at: nat, j: nat :: j < |Expanded(events)| && IsProcessParagraph(Expanded(events), at, j)
  {
    WalkExpanded(events);
    WalkMatches(Expanded(events));
  }

  /** `has_process_line`, given the events of the rendered page. */
  method HasProcessLine(events: seq<Event>) returns (found: bool)
    ensures found <==> exists at: nat, j: nat :: j < |Expanded(events)| && IsProcessParagraph(Expanded(events), at, j)
  {
    hide Walk, IsProcessParagraph, Expanded;
    var walker := new ProcessParagraphs();
    NothingWalked();
    walker.Feed(events, []);
    assert [] + events == events;
    FoundIffShown(events);
    return walker.found;
  }

  lemma {:induction false} NothingWalked()
    ensures Walk([]) == START
  {
  }

  /** Once found, always found. */
  lemma {:induction false} FoundStays(events: seq<Event>, more: seq<Event>)
    requires Walk(events).found
    ensures Walk(events + more).found
  {
    hide *;
    if more == [] {
      assert events + more == events;
    } else {
      var n := |more| - 1;
      FoundStays(events, more[..n]);
      assert events + more == events + more[..n] + [more[n]];
      WalkAppend(events + more[..n], more[n]);
      StepKeepsFound(Walk(events + more[..n]), more[n]);
    }
  }

  lemma {:induction false} StepKeepsFound(s: State, e: Event)
    requires s.found
    ensures Step(s, e).found
  {
    match e
    case Start(tag, attrs) =>
    case StartEnd(tag, attrs) => if tag in VOID_TAGS { EndKeepsFound(OnStart(s, tag, attrs), tag); }
    case End(tag) => EndKeepsFound(s, tag);
    case Data(text) =>
  }

  lemma {:induction false} EndKeepsFound(s: State, tag: string)
    requires s.found
    ensures OnEnd(s, tag).found
  {
    OnEndMarked(s, tag);
    var marked := State(s.found, Marked(s, tag));
    if HasTag(marked.open, tag) { PopMeans(marked, tag); }
    hide *;
  }
}
