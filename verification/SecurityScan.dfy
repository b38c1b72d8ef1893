/** The fast forms of scripts/security_scan.py against the simple ones: compressed
    character ranges, a binary search over host spans, joined string fragments, and
    the search for a home folder. */
module SecurityScan {
  import opened Text

  // ---------- ranges of combining marks ----------

  datatype Range = Range(first: nat, last: nat)
  {
    predicate Holds(code: nat) { first <= code <= last }
  }

  predicate InRanges(ranges: seq<Range>, code: nat) {
    exists i | 0 <= i < |ranges| :: ranges[i].Holds(code)
  }

  /** In order, none empty, and with a gap between any two: no two could be one. */
  predicate Canonical(ranges: seq<Range>) {
    && (forall i | 0 <= i < |ranges| :: ranges[i].first <= ranges[i].last)
    && forall i, j | 0 <= i < j < |ranges| :: ranges[i].last + 1 < ranges[j].first
  }

  /** `_combining_mark_ranges`: `max` is the greatest code point. */
  method CombiningMarkRanges(isMark: nat -> bool, max: nat) returns (ranges: seq<Range>)
    ensures Canonical(ranges)
    ensures forall code: nat :: InRanges(ranges, code) <==> code <= max && isMark(code)
  {
    ranges := [];
    var start: int := -1;
    for code := 0 to max + 2
      invariant -1 <= start < code && (code == max + 2 ==> start < 0)
      invariant Canonical(ranges) && forall i | 0 <= i < |ranges| :: ranges[i].last + 1 < code + 1
      invariant start >= 0 ==> forall i | 0 <= i < |ranges| :: ranges[i].last + 1 < start
      invariant start < 0 && 0 < code <= max + 1 ==> !isMark(code - 1)
      invariant start >= 0 ==> forall c | start <= c < code :: c <= max && isMark(c)
      invariant forall c: nat | c < (if start >= 0 then start else code) :: InRanges(ranges, c) <==> c <= max && isMark(c)
      invariant start > 0 ==> !isMark(start - 1)
    {
      var mark := code <= max && isMark(code);
      if mark && start < 0 {
        start := code;
      } else if !mark && start >= 0 {
        var more := ranges + [Range(start, code - 1)];
        OneMoreRange(ranges, Range(start, code - 1));
        ranges := more;
        start := -1;
      }
    }
    forall code: nat | code >= max + 2 ensures !InRanges(ranges, code) {
    }
  }

  lemma {:induction false} OneMoreRange(ranges: seq<Range>, r: Range)
    ensures forall code: nat :: InRanges(ranges + [r], code) <==> InRanges(ranges, code) || r.Holds(code)
  {
    var more := ranges + [r];
    forall code: nat ensures InRanges(more, code) <==> InRanges(ranges, code) || r.Holds(code) {
      if InRanges(ranges, code) {
        var i :| 0 <= i < |ranges| && ranges[i].Holds(code);
        assert more[i].Holds(code);
      }
      if r.Holds(code) { assert more[|ranges|].Holds(code); }
    }
  }

  /** There is only one such list for a set of codes. */
  lemma {:induction false} CanonicalIsUnique(a: seq<Range>, b: seq<Range>)
    requires Canonical(a) && Canonical(b)
    requires forall code: nat :: InRanges(a, code) <==> InRanges(b, code)
    ensures a == b
  {
    if a == [] {
      if b != [] { HoldsItsFirst(b); }
    } else {
      assert b != [] && a[0] == b[0] by {
        assert a[0].Holds(a[0].first);
        assert InRanges(a, a[0].first) && InRanges(b, a[0].first);
        FirstOfCanonical(a, b);
        FirstOfCanonical(b, a);
        LastOfFirst(a, b);
        LastOfFirst(b, a);
      }
      hide Canonical, InRanges;
      forall code: nat ensures InRanges(a[1..], code) <==> InRanges(b[1..], code) {
        TailOfCanonical(a, code);
        TailOfCanonical(b, code);
      }
      CanonicalIsUnique(a[1..], b[1..]);
      assert a == [a[0]] + a[1..] && b == [b[0]] + b[1..];
    }
  }

  lemma {:induction false} HoldsItsFirst(a: seq<Range>)
    requires Canonical(a) && a != []
    ensures InRanges(a, a[0].first)
  {
  }

  lemma {:induction false} FirstOfCanonical(a: seq<Range>, b: seq<Range>)
    requires Canonical(a) && Canonical(b) && a != [] && b != []
    requires forall code: nat :: InRanges(a, code) <==> InRanges(b, code)
    ensures b[0].first <= a[0].first
  {
    assert a[0].Holds(a[0].first);
    assert InRanges(b, a[0].first);
  }

  lemma {:induction false} LastOfFirst(a: seq<Range>, b: seq<Range>)
    requires Canonical(a) && Canonical(b) && a != [] && b != [] && a[0].first == b[0].first
    requires forall code: nat :: InRanges(a, code) <==> InRanges(b, code)
    ensures a[0].last <= b[0].last
  {
    if b[0].last < a[0].last {
      var code := b[0].last + 1;
      assert forall i | 0 <= i < |b| :: !b[i].Holds(code);
      assert !InRanges(b, code);
      assert a[0].Holds(code);
    }
  }

  lemma {:induction false} TailOfCanonical(a: seq<Range>, code: nat)
    requires Canonical(a) && a != []
    ensures InRanges(a[1..], code) <==> InRanges(a, code) && !a[0].Holds(code)
  {
  }

  // ---------- the hosts of URLs ----------

  /** `://` stands at `i`. */
  predicate SchemeAt(line: string, i: nat) {
    i + 3 <= |line| && line[i] == ':' && line[i + 1] == '/' && line[i + 2] == '/'
  }

  predicate IsHostChar(c: char) {
    c != '/' && c != '?' && c != '#' && !IsPySpace(c) && c != '"' && c != '\''
  }

  function HostEnd(line: string, start: nat): (n: nat)
    requires start <= |line|
    ensures start <= n <= |line|
    ensures forall m | start <= m < n :: IsHostChar(line[m])
    ensures n < |line| ==> !IsHostChar(line[n])
  {
    RunAll(line[start..], IsHostChar);
    var n := RunLength(line[start..], IsHostChar);
    assert forall m | start <= m < start + n :: line[m] == line[start..][..n][m - start];
    start + n
  }

  function HostAt(line: string, i: nat): Span
    requires SchemeAt(line, i)
  {
    Span(i + 3, HostEnd(line, i + 3))
  }

  /** The first `://` at `from` or after. */
  function NextScheme(line: string, from: nat): (r: Option<nat>)
    requires from <= |line|
    ensures r.Some? ==> from <= r.value && SchemeAt(line, r.value)
    ensures r.Some? ==> forall i | from <= i < r.value :: !SchemeAt(line, i)
    ensures r.None? ==> forall i | from <= i <= |line| :: !SchemeAt(line, i)
    decreases |line| - from
  {
    if SchemeAt(line, from) then Some(from)
    else if from == |line| then None
    else NextScheme(line, from + 1)
  }

  predicate Ordered(spans: seq<Span>) {
    && (forall i | 0 <= i < |spans| :: spans[i].start <= spans[i].end)
    && forall i, j | 0 <= i < j < |spans| :: spans[i].end < spans[j].start
  }

  predicate InSpans(spans: seq<Span>, position: nat) {
    exists i | 0 <= i < |spans| :: spans[i].Covers(position)
  }

  /** `_url_hosts`: the hosts after each `://` from `from` on, leftmost first, none
      read twice. */
  function Hosts(line: string, from: nat): seq<Span>
    requires from <= |line|
    decreases |line| - from
  {
    match NextScheme(line, from)
    case None => []
    case Some(i) => [HostAt(line, i)] + Hosts(line, HostAt(line, i).end)
  }

  /** Between a `://` and the end of its host no other `://` starts, unless its colon
      is the last character of the host. */
  lemma {:induction false} HostHoldsNoScheme(line: string, i: nat)
    requires SchemeAt(line, i)
    ensures forall k: nat | i < k < HostAt(line, i).end && SchemeAt(line, k) :: EndsHost(HostAt(line, i), k)
  {
  }

  predicate EndsHost(host: Span, i: nat) { host.Covers(i) && i + 1 == host.end }

  /** The colon of the `://` at `i` is the last character of some host of the line. */
  predicate ColonEndsHost(spans: seq<Span>, i: nat) {
    exists k | 0 <= k < |spans| :: EndsHost(spans[k], i)
  }

  lemma {:induction false} HostsUnfold(line: string, from: nat)
    requires from <= |line|
    ensures NextScheme(line, from).Some? ==>
              var host := HostAt(line, NextScheme(line, from).value);
              && from + 3 <= host.start && from < host.end <= |line|
              && Hosts(line, from) == [host] + Hosts(line, host.end)
    ensures NextScheme(line, from).None? ==> Hosts(line, from) == []
  {
  }

  /** The spans are in order and never meet, and each is the host after a `://`. */
  lemma {:induction false} HostsAreHosts(line: string, from: nat)
    requires from <= |line|
    ensures Ordered(Hosts(line, from))
    ensures forall k | 0 <= k < |Hosts(line, from)| :: IsHost(line, from, Hosts(line, from)[k])
    decreases |line| - from
  {
    hide Hosts, HostAt;
    HostsUnfold(line, from);
    var next := NextScheme(line, from);
    if next.Some? {
      var host := HostAt(line, next.value);
      HostsAreHosts(line, host.end);
      assert IsHost(line, from, host) by { HostStart(line, next.value); }
      hide NextScheme;
      forall k | 0 <= k < |Hosts(line, host.end)| ensures IsHost(line, from, Hosts(line, host.end)[k]) { }
    }
  }

  predicate IsHost(line: string, from: nat, span: Span) {
    && from + 3 <= span.start <= span.end && SchemeAt(line, span.start - 3)
    && span == HostAt(line, span.start - 3)
  }

  lemma {:induction false} HostStart(line: string, i: nat)
    requires SchemeAt(line, i)
    ensures HostAt(line, i).start == i + 3 && i + 3 <= HostAt(line, i).end
  {
  }

  /** A `://` gives a host if and only if its colon is not the last character of a
      host read before it. */
  lemma {:induction false} EverySchemeIsRead(line: string, from: nat, i: nat)
    requires from <= i && SchemeAt(line, i)
    ensures HostAt(line, i) in Hosts(line, from) <==> !ColonEndsHost(Hosts(line, from), i)
  {
    hide Hosts, HostAt, ColonEndsHost;
    SchemeIsReadOrLost(line, from, i);
    SchemeInside(line, i);
    if ColonEndsHost(Hosts(line, from), i) { LostHost(line, from, i); }
  }

  lemma {:induction false} LostHost(line: string, from: nat, i: nat)
    requires from <= i < |line| && SchemeAt(line, i) && ColonEndsHost(Hosts(line, from), i)
    ensures HostAt(line, i) !in Hosts(line, from)
    decreases |line| - from
  {
    hide Hosts, HostAt, SchemeAt;
    HostsUnfold(line, from);
    HostStart(line, i);
    var host := HostAt(line, NextScheme(line, from).value);
    var spans, rest := Hosts(line, from), Hosts(line, host.end);
    HostsAreHosts(line, host.end);
    var k :| 0 <= k < |spans| && EndsHost(spans[k], i);
    hide NextScheme;
    if k > 0 {
      assert spans[k] == rest[k - 1] && IsHost(line, host.end, rest[k - 1]);
      LostHost(line, host.end, i);
    } else {
      forall m | 0 <= m < |rest| ensures rest[m] != HostAt(line, i) { assert IsHost(line, host.end, rest[m]); }
    }
  }

  lemma {:induction false} SchemeIsReadOrLost(line: string, from: nat, i: nat)
    requires from <= i && SchemeAt(line, i)
    ensures HostAt(line, i) in Hosts(line, from) || ColonEndsHost(Hosts(line, from), i)
    decreases |line| - from
  {
    hide Hosts, HostAt, SchemeAt;
    SchemeInside(line, i);
    HostsUnfold(line, from);
    var next := NextScheme(line, from);
    var host := HostAt(line, next.value);
    var spans := Hosts(line, from);
    if host.end <= i {
      SchemeIsReadOrLost(line, host.end, i);
      var rest := Hosts(line, host.end);
      if HostAt(line, i) !in rest {
        var k :| 0 <= k < |rest| && EndsHost(rest[k], i);
        assert spans[k + 1] == rest[k];
      }
    } else if next.value < i {
      HostHoldsNoScheme(line, next.value);
      assert EndsHost(spans[0], i);
    }
  }

  lemma {:induction false} SchemeInside(line: string, i: nat)
    requires SchemeAt(line, i)
    ensures i + 3 <= |line|
  {
  }

  /** Such a `://` loses its host: of the two here only the first is read. */
  lemma {:induction false} ColonBeforeSchemeHidesHost()
    ensures SchemeAt("://a://b", 4) && HostAt("://a://b", 4) == Span(7, 8)
    ensures !InSpans(Hosts("://a://b", 0), 7)
  {
    var s := "://a://b";
    assert SchemeAt(s, 0) && SchemeAt(s, 4);
    assert IsHostChar(s[3]) && IsHostChar(s[4]) && !IsHostChar(s[5]) && IsHostChar(s[7]);
    assert s[5] != ':' && s[6] != ':' && s[7] != ':';
    hide SchemeAt, IsHostChar, HostAt, Hosts, NextScheme;
  }

  /** `bisect.bisect_right` with the key `(position, sys.maxsize)`: how many spans
      start at `position` or before. */
  method BisectRight(spans: seq<Span>, position: nat) returns (lo: nat)
    requires Ordered(spans)
    ensures lo <= |spans|
    ensures forall i | 0 <= i < lo :: spans[i].start <= position
    ensures forall i | lo <= i < |spans| :: spans[i].start > position
  {
    lo := 0;
    var hi := |spans|;
    while lo < hi
      invariant 0 <= lo <= hi <= |spans|
      invariant forall i | 0 <= i < lo :: spans[i].start <= position
      invariant forall i | hi <= i < |spans| :: spans[i].start > position
    {
      var mid := (lo + hi) / 2;
      if position < spans[mid].start {
        hi := mid;
      } else {
        lo := mid + 1;
      }
    }
  }

  /** `_in_span`: the binary search answers like a scan over every span. */
  method InSpan(spans: seq<Span>, position: nat) returns (found: bool)
    requires Ordered(spans)
    ensures found <==> InSpans(spans, position)
  {
    var right := BisectRight(spans, position);
    var index := right as int - 1;
    found := index >= 0 && spans[index].start <= position && position < spans[index].end;
    if found { assert spans[index].Covers(position); }
  }

  // ---------- the search for a home folder ----------

  /** What the pattern finds at each place of a line: where the path starts, or -1
      for the dash form, which has no such group. It is not modelled. */
  type Pattern = (string, nat) -> Option<int>

  function Search(line: string, pattern: Pattern, from: nat): (r: Option<nat>)
    ensures r.Some? ==> from <= r.value <= |line| && pattern(line, r.value).Some?
    ensures forall i | from <= i < (if r.Some? then r.value else |line| + 1) :: pattern(line, i).None?
    decreases |line| + 1 - from
  {
    if from > |line| then None
    else if pattern(line, from).Some? then Some(from)
    else Search(line, pattern, from + 1)
  }

  /** The colon before `start` is inside a URL's host: what follows is a path on it. */
  predicate AfterPortColon(line: string, hosts: seq<Span>, start: int) {
    0 < start <= |line| && line[start - 1] == ':' && InSpans(hosts, start - 1)
  }

  /** The path starts inside the line or, for the dash form, at -1. */
  predicate PathsInLine(line: string, pattern: Pattern) {
    forall i | 0 <= i <= |line| :: pattern(line, i).Some? ==> -1 <= pattern(line, i).value <= |line|
  }

  /** The pattern matches at `i`, and not after a port colon. */
  predicate HomeAt(line: string, pattern: Pattern, i: nat) {
    pattern(line, i).Some? && !AfterPortColon(line, Hosts(line, 0), pattern(line, i).value)
  }

  /** `_contains_home_directory_path`, on the normalised line: true exactly when some
      match does not start after a port colon. */
  method ContainsHomeDirectoryPath(line: string, pattern: Pattern) returns (found: bool)
    requires PathsInLine(line, pattern)
    ensures found <==> exists i | 0 <= i <= |line| :: HomeAt(line, pattern, i)
  {
    hide Hosts, Ordered, InSpans;
    var hosts: Option<seq<Span>> := None;
    var position := 0;
    HostsAreHosts(line, 0);
    while true
      invariant hosts.Some? ==> hosts.value == Hosts(line, 0)
      invariant forall i | 0 <= i < position :: !HomeAt(line, pattern, i)
      invariant position <= |line| + 1
      decreases |line| + 1 - position
    {
      var next := Search(line, pattern, position);
      if next == None { return false; }
      assert forall i | position <= i < next.value :: !HomeAt(line, pattern, i);
      var start := pattern(line, next.value).value;
      if start > 0 && line[start - 1] == ':' {
        if hosts == None { hosts := Some(Hosts(line, 0)); }
        var inHost := InSpan(hosts.value, start - 1);
        if inHost {
          position := next.value + 1;
          continue;
        }
      }
      assert HomeAt(line, pattern, next.value);
      return true;
    }
  }

  predicate InHost(c: char) { c != '/' && c != '?' && c != '#' && c != '"' && c != '\'' && !IsPySpace(c) }

  /** The position is inside the host of the `://` at `k`, and the colon of that one ends
      no host itself. */
  ghost predicate InHostOf(line: string, k: nat, position: int) {
    && k + 3 <= position < |line| && line[k..k + 3] == "://" && !ColonEndsHost(Hosts(line, 0), k)
    && forall m | k + 3 <= m <= position :: InHost(line[m])
  }

  ghost predicate InSomeHost(line: string, position: int) { exists k: nat :: InHostOf(line, k, position) }

  lemma {:induction false} SchemeSpelled(line: string, k: nat)
    ensures SchemeAt(line, k) <==> k + 3 <= |line| && line[k..k + 3] == "://"
  {
    if k + 3 <= |line| {
      assert line[k..k + 3] == [line[k], line[k + 1], line[k + 2]];
    }
  }

  lemma {:induction false} HostCovers(line: string, k: nat, position: nat)
    requires SchemeAt(line, k)
    ensures HostAt(line, k).Covers(position) <==> k + 3 <= position < |line| && forall m | k + 3 <= m <= position :: InHost(line[m])
  {
    hide IsPySpace;
    var end := HostEnd(line, k + 3);
    assert forall c :: InHost(c) <==> IsHostChar(c);
    hide InHost, IsHostChar, HostEnd;
    if k + 3 <= position < |line| && end <= position { assert !InHost(line[end]); }
  }

  lemma {:induction false} CoveredIsInHost(line: string, i: nat, position: nat)
    requires i < |Hosts(line, 0)| && Hosts(line, 0)[i].Covers(position)
    ensures InSomeHost(line, position)
  {
    HostsAreHosts(line, 0);
    var host := Hosts(line, 0)[i];
    hide Hosts, ColonEndsHost, InHost, SchemeAt, HostAt, Ordered;
    assert IsHost(line, 0, host);
    var k := host.start - 3;
    SchemeSpelled(line, k);
    EverySchemeIsRead(line, 0, k);
    HostCovers(line, k, position);
    assert InHostOf(line, k, position);
  }

  lemma {:induction false} InHostIsCovered(line: string, k: nat, position: nat)
    requires InHostOf(line, k, position)
    ensures InSpans(Hosts(line, 0), position)
  {
    hide Hosts, ColonEndsHost, InHost, SchemeAt, HostAt;
    SchemeSpelled(line, k);
    EverySchemeIsRead(line, 0, k);
    HostCovers(line, k, position);
    var i :| 0 <= i < |Hosts(line, 0)| && Hosts(line, 0)[i] == HostAt(line, k);
    assert Hosts(line, 0)[i].Covers(position);
  }

  lemma {:induction false} InsideHost(line: string, position: nat)
    ensures InSpans(Hosts(line, 0), position) <==> InSomeHost(line, position)
  {
    hide Hosts, InHostOf;
    if i :| 0 <= i < |Hosts(line, 0)| && Hosts(line, 0)[i].Covers(position) { CoveredIsInHost(line, i, position); }
    if k: nat :| InHostOf(line, k, position) { InHostIsCovered(line, k, position); }
  }

  /** A match counts unless its path follows a colon inside a host that is read. */
  lemma {:induction false} HomeExactly(line: string, pattern: Pattern, i: nat)
    requires i <= |line| && PathsInLine(line, pattern)
    ensures HomeAt(line, pattern, i) <==>
      match pattern(line, i)
      case None => false
      case Some(start) => !(start > 0 && line[start - 1] == ':' && InSomeHost(line, start - 1))
  {
    if pattern(line, i).Some? && pattern(line, i).value > 0 { InsideHost(line, pattern(line, i).value - 1); }
    hide Hosts, InSpans, InSomeHost;
  }

  // ---------- joined fragments ----------

  /** A quoted string on a line: its body, and where it starts and ends. */
  datatype Fragment = Fragment(body: string, start: nat, end: nat)

  /** White space with at most one plus sign in it. */
  predicate IsGap(s: string) {
    var n := RunLength(s, IsPySpace);
    n == |s| || (s[n] == '+' && All(s[n + 1..], IsPySpace))
  }

  /** Fragment `i` and the one before it are parts of one string. */
  predicate Joined(line: string, fragments: seq<Fragment>, i: nat) {
    && 0 < i < |fragments|
    && fragments[i - 1].end <= fragments[i].start <= |line|
    && IsGap(line[fragments[i - 1].end..fragments[i].start])
  }

  /** Where the run that `i` is in ends, starting at `i`. */
  function RunEnd(line: string, fragments: seq<Fragment>, i: nat): (n: nat)
    requires i < |fragments|
    ensures i < n <= |fragments|
    ensures forall k | i < k < n :: Joined(line, fragments, k)
    ensures !Joined(line, fragments, n)
    decreases |fragments| - i
  {
    if i + 1 < |fragments| && Joined(line, fragments, i + 1) then RunEnd(line, fragments, i + 1) else i + 1
  }

  function Bodies(fragments: seq<Fragment>): string {
    if fragments == [] then "" else fragments[0].body + Bodies(fragments[1..])
  }

  /** Each longest run of joined fragments from `i` on that has two or more, as one
      string. */
  function Runs(line: string, fragments: seq<Fragment>, i: nat): seq<string>
    requires i <= |fragments|
    decreases |fragments| - i
  {
    if i == |fragments| then [] else
    var n := RunEnd(line, fragments, i);
    (if n - i >= 2 then [Bodies(fragments[i..n])] else []) + Runs(line, fragments, n)
  }

  /** The fragments from `a` up to `b` are two or more, joined, and joined to none
      before or after them. */
  predicate MaximalRun(line: string, fragments: seq<Fragment>, a: nat, b: nat) {
    && a + 2 <= b <= |fragments|
    && !Joined(line, fragments, a) && !Joined(line, fragments, b)
    && forall k | a < k < b :: Joined(line, fragments, k)
  }

  /** Where the runs from `i` on start and end. */
  function Bounds(line: string, fragments: seq<Fragment>, i: nat): (r: seq<(nat, nat)>)
    requires i <= |fragments|
    ensures forall j | 0 <= j < |r| :: i <= r[j].0 <= r[j].1 <= |fragments|
    decreases |fragments| - i
  {
    if i == |fragments| then [] else
    var n := RunEnd(line, fragments, i);
    (if n - i >= 2 then [(i, n)] else []) + Bounds(line, fragments, n)
  }

  lemma {:induction false} RunsByBounds(line: string, fragments: seq<Fragment>, i: nat)
    requires i <= |fragments|
    ensures var r, bounds := Runs(line, fragments, i), Bounds(line, fragments, i);
            |r| == |bounds| && forall j | 0 <= j < |r| :: r[j] == Bodies(fragments[bounds[j].0..bounds[j].1])
    decreases |fragments| - i
  {
    hide RunEnd, Bodies;
    if i < |fragments| { RunsByBounds(line, fragments, RunEnd(line, fragments, i)); }
  }

  /** From a place that is joined to none before it, the runs found are the maximal
      runs, all of them, in order. */
  lemma {:induction false} BoundsAreMaximal(line: string, fragments: seq<Fragment>, i: nat)
    requires i <= |fragments| && !Joined(line, fragments, i)
    ensures forall j | 0 <= j < |Bounds(line, fragments, i)| ::
      MaximalRun(line, fragments, Bounds(line, fragments, i)[j].0, Bounds(line, fragments, i)[j].1)
    ensures forall a: nat, b: nat | i <= a && MaximalRun(line, fragments, a, b) :: (a, b) in Bounds(line, fragments, i)
    ensures forall j, k | 0 <= j < k < |Bounds(line, fragments, i)| ::
      Bounds(line, fragments, i)[j].1 <= Bounds(line, fragments, i)[k].0
    decreases |fragments| - i
  {
    hide Joined;
    if i < |fragments| {
      var n := RunEnd(line, fragments, i);
      BoundsAreMaximal(line, fragments, n);
      var head, rest := if n - i >= 2 then [(i, n)] else [], Bounds(line, fragments, n);
      assert Bounds(line, fragments, i) == head + rest;
      hide RunEnd, Bounds;
      forall a: nat, b: nat | i <= a && MaximalRun(line, fragments, a, b) ensures (a, b) in head + rest {
        if a < n { assert a == i && b == n && (a, b) in head; } else { assert (a, b) in rest; }
      }
    }
  }

  /** The strings are those of the maximal runs of two or more fragments, each once and
      in the order of the line. */
  lemma {:induction false} RunsExact(line: string, fragments: seq<Fragment>)
    ensures var r, bounds := Runs(line, fragments, 0), Bounds(line, fragments, 0);
            && |r| == |bounds|
            && (forall j | 0 <= j < |r| :: r[j] == Bodies(fragments[bounds[j].0..bounds[j].1]))
            && (forall j, k | 0 <= j < k < |bounds| :: bounds[j].1 <= bounds[k].0)
            && forall a: nat, b: nat :: (a, b) in bounds <==> MaximalRun(line, fragments, a, b)
  {
    RunsByBounds(line, fragments, 0);
    BoundsAreMaximal(line, fragments, 0);
    hide Runs, Bounds, Bodies, MaximalRun;
  }

  lemma {:induction false} PlusGap(a: string, b: string)
    requires All(a, IsPySpace) && All(b, IsPySpace)
    ensures IsGap(a + "+" + b)
  {
    var s := a + "+" + b;
    assert s == a + ("+" + b) && s[|a| + 1..] == b;
    RunExact(a, "+" + b, IsPySpace);
    hide All, RunLength;
  }

  lemma {:induction false} BlankGap(s: string)
    requires All(s, IsPySpace)
    ensures IsGap(s)
  {
    RunExact(s, "", IsPySpace);
    assert s + "" == s;
    hide All, RunLength;
  }

  /** The gap between two parts of a string: blanks, or blanks round one plus sign. */
  lemma {:induction false} GapExactly(s: string)
    ensures IsGap(s) <==>
      || All(s, IsPySpace)
      || exists a: string, b: string :: s == a + "+" + b && All(a, IsPySpace) && All(b, IsPySpace)
  {
    var n := RunLength(s, IsPySpace);
    RunAll(s, IsPySpace);
    hide All, RunLength;
    if IsGap(s) {
      if n < |s| { assert s == s[..n] + "+" + s[n + 1..]; } else { assert s[..n] == s; }
    }
    hide IsGap;
    if All(s, IsPySpace) { BlankGap(s); }
    if a: string, b: string :| s == a + "+" + b && All(a, IsPySpace) && All(b, IsPySpace) { PlusGap(a, b); }
  }

  predicate InLineOrder(line: string, fragments: seq<Fragment>) {
    && (forall i | 0 <= i < |fragments| :: fragments[i].start <= fragments[i].end <= |line|)
    && forall i | 0 < i < |fragments| :: fragments[i - 1].end <= fragments[i].start
  }

  lemma {:induction false} BodiesAppend(a: seq<Fragment>, f: Fragment)
    ensures Bodies(a + [f]) == Bodies(a) + f.body
  {
    if a == [] {
      assert a + [f] == [f] && [f][1..] == [] && f.body + "" == f.body == "" + f.body;
    } else {
      assert (a + [f])[1..] == a[1..] + [f];
      BodiesAppend(a[1..], f);
    }
  }

  /** The walk before fragment `i`: `first` starts the run that is open. */
  ghost predicate Gathering(line: string, fragments: seq<Fragment>, i: nat, first: nat, current: seq<string>, runs: seq<string>)
    requires i <= |fragments|
  {
    && first <= i && (i > 0 ==> first < i)
    && |current| == i - first && Concat(current) == Bodies(fragments[first..i])
    && (forall k | first < k < i :: Joined(line, fragments, k))
    && Runs(line, fragments, 0) == runs + Runs(line, fragments, first)
  }

  lemma {:induction false} RunExtended(line: string, fragments: seq<Fragment>, i: nat, first: nat, current: seq<string>, runs: seq<string>)
    requires i < |fragments| && Gathering(line, fragments, i, first, current, runs)
    requires current != [] && Joined(line, fragments, i)
    ensures Gathering(line, fragments, i + 1, first, current + [fragments[i].body], runs)
  {
    hide Runs, Joined, Bodies, Concat;
    assert fragments[first..i + 1] == fragments[first..i] + [fragments[i]];
    BodiesAppend(fragments[first..i], fragments[i]);
    ConcatAppend(current, fragments[i].body);
  }

  /** A run that ends gives a string when it has two fragments or more. */
  function Closed(current: seq<string>, runs: seq<string>): seq<string> {
    if |current| >= 2 then runs + [Concat(current)] else runs
  }

  lemma {:induction false} RunClosed(line: string, fragments: seq<Fragment>, i: nat, first: nat, current: seq<string>, runs: seq<string>)
    requires i <= |fragments| && Gathering(line, fragments, i, first, current, runs)
    requires current == [] || !Joined(line, fragments, i)
    ensures Runs(line, fragments, 0) == Closed(current, runs) + Runs(line, fragments, i)
  {
  }

  lemma {:induction false} RunStarted(line: string, fragments: seq<Fragment>, i: nat, runs: seq<string>)
    requires i < |fragments| && Runs(line, fragments, 0) == runs + Runs(line, fragments, i)
    ensures Gathering(line, fragments, i + 1, i, [fragments[i].body], runs)
  {
  }

  /** `_joined_fragments` */
  method JoinedFragments(line: string, fragments: seq<Fragment>) returns (runs: seq<string>)
    requires InLineOrder(line, fragments)
    ensures runs == Runs(line, fragments, 0)
  {
    hide Runs, Gathering, IsGap;
    runs := [];
    var current: seq<string> := [];
    var previousEnd: int := -1;
    ghost var first := 0;
    NothingGathered(line, fragments);
    for i := 0 to |fragments|
      invariant Gathering(line, fragments, i, first, current, runs)
      invariant (current == [] <==> i == 0) && (i > 0 ==> previousEnd == fragments[i - 1].end)
    {
      var f := fragments[i];
      if current != [] && IsGap(line[previousEnd..f.start]) {
        RunExtended(line, fragments, i, first, current, runs);
        current := current + [f.body];
      } else {
        RunClosed(line, fragments, i, first, current, runs);
        if |current| >= 2 { runs := runs + [Concat(current)]; }
        RunStarted(line, fragments, i, runs);
        first := i;
        current := [f.body];
      }
      previousEnd := f.end;
    }
    RunClosed(line, fragments, |fragments|, first, current, runs);
    if |current| >= 2 { runs := runs + [Concat(current)]; }
    NoMoreRuns(line, fragments);
  }

  lemma {:induction false} NothingGathered(line: string, fragments: seq<Fragment>)
    ensures Gathering(line, fragments, 0, 0, [], [])
  {
  }

  lemma {:induction false} NoMoreRuns(line: string, fragments: seq<Fragment>)
    ensures forall runs: seq<string> :: runs + Runs(line, fragments, |fragments|) == runs
  {
  }

  lemma {:induction false} ConcatAppend(parts: seq<string>, t: string)
    ensures Concat(parts + [t]) == Concat(parts) + t
  {
    if parts == [] {
      assert parts + [t] == [t] && [t][1..] == [] && t + "" == t == "" + t;
    } else {
      assert (parts + [t])[1..] == parts[1..] + [t];
      ConcatAppend(parts[1..], t);
    }
  }
}
