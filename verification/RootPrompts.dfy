/** The walker of scripts/check_root_prompts.py over the events of a rendered
    page: it looks for a paragraph that opens with bold `Process:` and names the
    skill. */
module RootPrompts {
  import opened Text

  const SKILL_PATH := ".agents/skills/work-item-delivery/SKILL.md"

  /** Elements that never hold content (section 13.1.2 of the HTML Living Standard). */
  const VOID_TAGS: set<string> := {
    "area", "base", "br", "col", "embed", "hr", "img", "input", "link", "meta", "source", "track", "wbr"}

  const CONTAINERS: set<string> := {"blockquote", "ul", "ol", "li"}

  const INLINE: set<string> := {"strong", "em", "code", "a"}

  /** What the HTML parser reports; attributes by name. */
  datatype Event =
    | Start(tag: string, attrs: seq<string>)
    | StartEnd(tag: string, attrs: seq<string>)
    | End(tag: string)
    | Data(text: string)

  predicate Allowed(tag: string, attr: string) {
    (tag == "ol" && attr == "start") || (tag == "a" && (attr == "href" || attr == "title"))
  }

  /** Only attributes that Markdown itself writes. */
  predicate Plain(tag: string, attrs: seq<string>) {
    forall a <- attrs :: Allowed(tag, a)
  }

  datatype Opening = Await | InStrong | Opened | No

  datatype Paragraph = Paragraph(opening: Opening, bold: string, text: string)

  datatype Element = Element(tag: string, plain: bool, para: Option<Paragraph>)

  datatype State = State(found: bool, open: seq<Element>)

  const START := State(false, [])

  /** The index of the innermost open paragraph, or -1. */
  function Innermost(open: seq<Element>): (i: int)
    ensures -1 <= i < |open|
    ensures i >= 0 ==> open[i].para.Some?
    ensures forall k :: i < k < |open| ==> open[k].para == None
  {
    if open == [] then -1
    else if open[|open| - 1].para.Some? then |open| - 1
    else Innermost(open[..|open| - 1])
  }

  function WithPara(open: seq<Element>, i: nat, p: Paragraph): seq<Element>
    requires i < |open|
  {
    open[i := open[i].(para := Some(p))]
  }

  predicate ContainersOnly(open: seq<Element>) {
    forall i :: 0 <= i < |open| ==> open[i].tag in CONTAINERS && open[i].plain
  }

  predicate InlineOnly(open: seq<Element>, from: nat) {
    forall i :: from <= i < |open| ==> open[i].tag in INLINE && open[i].plain
  }

  function AfterStart(p: Paragraph, tag: string): Paragraph {
    if p.opening == Await then p.(opening := if tag == "strong" then InStrong else No)
    else if p.opening == InStrong then p.(opening := No)
    else p
  }

  function AfterEnd(p: Paragraph, tag: string): Paragraph {
    if p.opening == InStrong then p.(opening := if tag == "strong" && p.bold == "Process:" then Opened else No)
    else p
  }

  function AfterData(p: Paragraph, data: string): Paragraph {
    if p.opening == Await && Strip(data) != "" then p.(opening := No, text := p.text + data)
    else if p.opening == InStrong then p.(bold := p.bold + data, text := p.text + data)
    else p.(text := p.text + data)
  }

  predicate Passes(e: Element) {
    e.para.Some? && e.para.value.opening == Opened && Contains(e.para.value.text, SKILL_PATH)
  }

  predicate HasTag(open: seq<Element>, tag: string) {
    exists e <- open :: e.tag == tag
  }

  /** Pops elements from the top down to and including the first `tag`. */
  function PopTo(s: State, tag: string): State
    requires HasTag(s.open, tag)
    decreases |s.open|
  {
    var top := s.open[|s.open| - 1];
    var below := State(s.found || Passes(top), s.open[..|s.open| - 1]);
    if top.tag == tag then below
    else
      assert forall e <- s.open :: e in below.open || e == top;
      PopTo(below, tag)
  }

  function OnStart(s: State, tag: string, attrs: seq<string>): State {
    var i := Innermost(s.open);
    var open := if i >= 0 then WithPara(s.open, i, AfterStart(s.open[i].para.value, tag)) else s.open;
    var starts := (tag == "p" || tag == "li") && attrs == [] && ContainersOnly(open);
    s.(open := open + [Element(tag, Plain(tag, attrs), if starts then Some(Paragraph(Await, "", "")) else None)])
  }

  function OnEnd(s: State, tag: string): State {
    var i := Innermost(s.open);
    var open := if i >= 0 then WithPara(s.open, i, AfterEnd(s.open[i].para.value, tag)) else s.open;
    if HasTag(open, tag) then PopTo(s.(open := open), tag) else s.(open := open)
  }

  function OnData(s: State, data: string): State {
    var i := Innermost(s.open);
    if i < 0 || !InlineOnly(s.open, i + 1) then s
    else s.(open := WithPara(s.open, i, AfterData(s.open[i].para.value, data)))
  }

  function Step(s: State, e: Event): State {
    match e
    case Start(tag, attrs) => OnStart(s, tag, attrs)
    case StartEnd(tag, attrs) =>
      if tag in VOID_TAGS then OnEnd(OnStart(s, tag, attrs), tag) else OnStart(s, tag, attrs)
    case End(tag) => OnEnd(s, tag)
    case Data(text) => OnData(s, text)
  }

  /** The state after the events of a page. */
  function Walk(events: seq<Event>): State {
    if events == [] then START else Step(Walk(events[..|events| - 1]), events[|events| - 1])
  }

  /** The walker: its handlers update the stack of open elements and `found`. */
  class ProcessParagraphs {
    var found: bool
    var open: seq<Element>

    ghost function Abstract(): State
      reads this
    {
      State(found, open)
    }

    constructor ()
      ensures Abstract() == START
    {
      found := false;
      open := [];
    }

    method FindInnermost() returns (i: int)
      ensures i == Innermost(open)
    {
      i := |open| - 1;
      while i >= 0
        invariant -1 <= i < |open|
        invariant Innermost(open) == Innermost(open[..i + 1])
      {
        assert open[..i + 1][..i] == open[..i];
        if open[i].para.Some? { return; }
        i := i - 1;
      }
    }

    method HandleStart(tag: string, attrs: seq<string>)
      modifies this
      ensures Abstract() == OnStart(old(Abstract()), tag, attrs)
    {
      var i := FindInnermost();
      if i >= 0 {
        var p := open[i].para.value;
        if p.opening == Await {
          p := p.(opening := if tag == "strong" then InStrong else No);
        } else if p.opening == InStrong {
          p := p.(opening := No);
        }
        open := WithPara(open, i, p);
      }
      var starts := (tag == "p" || tag == "li") && attrs == [] && ContainersOnly(open);
      open := open + [Element(tag, Plain(tag, attrs), if starts then Some(Paragraph(Await, "", "")) else None)];
    }

    method HandleStartEnd(tag: string, attrs: seq<string>)
      modifies this
      ensures Abstract() == Step(old(Abstract()), StartEnd(tag, attrs))
    {
      HandleStart(tag, attrs);
      if tag in VOID_TAGS { HandleEnd(tag); }
    }

    method HandleEnd(tag: string)
      modifies this
      ensures Abstract() == OnEnd(old(Abstract()), tag)
    {
      var i := FindInnermost();
      if i >= 0 && open[i].para.value.opening == InStrong {
        var p := open[i].para.value;
        var ends := tag == "strong" && p.bold == "Process:";
        open := WithPara(open, i, p.(opening := if ends then Opened else No));
      } else if i >= 0 {
        assert open == WithPara(open, i, open[i].para.value);
      }
      CloseTo(tag);
    }

    method HandleData(data: string)
      modifies this
      ensures Abstract() == OnData(old(Abstract()), data)
    {
      var i := FindInnermost();
      if i < 0 { return; }
      if !InlineOnly(open, i + 1) { return; }
      var p := open[i].para.value;
      if p.opening == Await && Strip(data) != "" {
        p := p.(opening := No);
      } else if p.opening == InStrong {
        p := p.(bold := p.bold + data);
      }
      open := WithPara(open, i, p.(text := p.text + data));
    }

    method CloseTo(tag: string)
      modifies this
      ensures Abstract() == if HasTag(old(open), tag) then PopTo(old(Abstract()), tag) else old(Abstract())
    {
      if !HasTag(open, tag) { return; }
      ghost var goal := PopTo(Abstract(), tag);
      while open != []
        invariant HasTag(open, tag) && PopTo(Abstract(), tag) == goal
        decreases |open|
      {
        var top := open[|open| - 1];
        ghost var was := open;
        open := open[..|open| - 1];
        if Passes(top) { found := true; }
        if top.tag == tag { return; }
        assert forall e <- was :: e in open || e == top;
      }
    }

    /** `feed`: each event goes to its handler, after those already fed. */
    method Feed(events: seq<Event>, ghost fed: seq<Event>)
      requires Abstract() == Walk(fed)
      modifies this
      ensures Abstract() == Walk(fed + events)
    {
      hide OnStart, OnEnd, OnData;
      assert fed + events[..0] == fed;
      for i := 0 to |events|
        invariant Abstract() == Walk(fed + events[..i])
      {
        assert fed + events[..i + 1] == fed + events[..i] + [events[i]];
        match events[i]
        case Start(tag, attrs) => HandleStart(tag, attrs);
        case StartEnd(tag, attrs) => HandleStartEnd(tag, attrs);
        case End(tag) => HandleEnd(tag);
        case Data(text) => HandleData(text);
      }
      assert events[..|events|] == events;
    }
  }
}
