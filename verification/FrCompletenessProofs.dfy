/** Carrying the comment flag from line to line is scrubbing the whole text; what is
    seen is decided by what was read so far; and evidence is a live row of the
    document's title section. */
module FrCompletenessProofs {
  import opened Text
  import opened FrCompleteness

  // ---------- comments across lines ----------

  /** A marker holds no newline, so it cannot reach over one. */
  lemma {:induction false} MarkerStaysInLine(part: string, a: string, b: string)
    requires '\n' !in part
    ensures part <= a + "\n" + b <==> part <= a
  {
    var s := a + "\n" + b;
    assert s[|a|] == '\n' && forall i | 0 <= i < |part| :: part[i] != '\n';
    if |part| <= |a| { assert s[..|part|] == a[..|part|]; }
  }

  /** How far one step of the scrubber goes. */
  function Step(s: string, open: bool): nat {
    if open then if CLOSE <= s then 3 else 1 else if OPEN <= s then 4 else 1
  }

  predicate OpenAfter(s: string, open: bool) { if open then Step(s, open) == 1 else Step(s, open) == 4 }

  function Kept(s: string, open: bool): string
    requires s != ""
  {
    if !open && Step(s, open) == 1 then [s[0]] else ""
  }

  lemma {:induction false} ScrubUnfold(s: string, open: bool)
    requires s != ""
    ensures Step(s, open) <= |s|
    ensures var rest := Scrub(s[Step(s, open)..], OpenAfter(s, open));
            Scrub(s, open).0 == Kept(s, open) + rest.0 && Scrub(s, open).1 == rest.1
  {
  }

  /** A newline is kept exactly when no comment is open at it. */
  lemma {:induction false} ScrubTwoLines(a: string, b: string, open: bool)
    ensures Scrub(a + "\n" + b, open).1 == Scrub(b, Scrub(a, open).1).1
    ensures Scrub(a + "\n" + b, open).0 == Scrub(a, open).0 + Newline(Scrub(a, open).1) + Scrub(b, Scrub(a, open).1).0
    decreases |a|
  {
    hide Scrub;
    var s := a + "\n" + b;
    MarkerStaysInLine(CLOSE, a, b);
    MarkerStaysInLine(OPEN, a, b);
    ScrubUnfold(s, open);
    if a == "" {
      NothingLeft(open);
      assert s[1..] == b && s[0] == '\n';
      assert "" + Newline(open) == Newline(open);
    } else {
      ScrubUnfold(a, open);
      var k := Step(a, open);
      assert s[k..] == a[k..] + "\n" + b;
      ScrubTwoLines(a[k..], b, OpenAfter(a, open));
      var x := Scrub(a[k..], OpenAfter(a, open));
      assert Kept(a, open) + (x.0 + Newline(x.1) + Scrub(b, x.1).0)
          == Kept(a, open) + x.0 + Newline(x.1) + Scrub(b, x.1).0;
    }
  }

  function Newline(open: bool): string { if open then "" else "\n" }

  /** The lines scrubbed one after the other, with the flag carried along; a line
      that ends inside a comment runs into the next. */
  function ScrubLines(lines: seq<string>, open: bool): (string, bool)
    requires lines != []
  {
    var x := Scrub(lines[0], open);
    if |lines| == 1 then x else
    var rest := ScrubLines(lines[1..], x.1);
    (x.0 + Newline(x.1) + rest.0, rest.1)
  }

  /** Line by line is the same as the whole text at once. */
  lemma {:induction false} CarriedFlagIsExact(lines: seq<string>, open: bool)
    requires lines != []
    ensures ScrubLines(lines, open).0 == Scrub(Join(lines, '\n'), open).0
    ensures ScrubLines(lines, open).1 == Scrub(Join(lines, '\n'), open).1
  {
    if |lines| > 1 {
      CarriedFlagIsExact(lines[1..], Scrub(lines[0], open).1);
      ScrubTwoLines(lines[0], Join(lines[1..], '\n'), open);
      assert ['\n'] == "\n";
    }
    hide Scrub;
  }

  // ---------- what is seen is decided by what came before ----------

  lemma {:induction false} SeeConcat(a: seq<string>, b: seq<string>, mode: Mode)
    ensures SeeAll(a + b, mode) == SeeAll(a, mode) + SeeAll(b, ModeAfter(a, mode))
    ensures ModeAfter(a + b, mode) == ModeAfter(b, ModeAfter(a, mode))
  {
    hide See;
    if b == [] {
      assert a + b == a;
    } else {
      var n := |b| - 1;
      SeeConcat(a, b[..n], mode);
      assert (a + b)[..|a + b| - 1] == a + b[..n];
    }
  }

  lemma {:induction false} SeenByPrefix(lines: seq<string>, k: nat, mode: Mode)
    requires k <= |lines|
    ensures SeeAll(lines, mode)[..k] == SeeAll(lines[..k], mode)
    ensures SeeAll(lines, mode)[k..] == SeeAll(lines[k..], ModeAfter(lines[..k], mode))
  {
    SeeConcat(lines[..k], lines[k..], mode);
    assert lines[..k] + lines[k..] == lines;
  }

  lemma {:induction false} FirstSeenByPrefix(a: seq<Option<string>>, b: seq<Option<string>>, k: nat, i: nat, p: string -> bool)
    requires i <= k <= |a| && k <= |b| && a[..k] == b[..k]
    ensures FirstSeen(a, i, p) < k ==> FirstSeen(b, i, p) == FirstSeen(a, i, p)
    decreases k - i
  {
  }

  /** Two documents that agree up to and including the first live heading after the
      title have the same title section, so the same evidence. */
  lemma {:induction false} EvidenceIsDecidedByTheTitleSection(a: string, b: string, k: nat, lower: string -> string)
    requires k <= |SplitLines(a)| && k <= |SplitLines(b)| && SplitLines(a)[..k] == SplitLines(b)[..k]
    requires var seen := SeeAll(SplitLines(a), START); TitleStart(seen) < |seen| && TitleEnd(seen) < k
    ensures TitleSection(a) == TitleSection(b)
    ensures EvidenceTable(a, lower) == EvidenceTable(b, lower)
  {
    SameSection(a, b, k);
    hide TitleSection, SeeAll, SplitLines, FirstSeen, ReadTables, FirstEvidence;
  }

  lemma {:induction false} SameSection(a: string, b: string, k: nat)
    requires k <= |SplitLines(a)| && k <= |SplitLines(b)| && SplitLines(a)[..k] == SplitLines(b)[..k]
    requires var seen := SeeAll(SplitLines(a), START); TitleStart(seen) < |seen| && TitleEnd(seen) < k
    ensures TitleSection(a) == TitleSection(b)
  {
    var s, t := SeeAll(SplitLines(a), START), SeeAll(SplitLines(b), START);
    SameBounds(a, b, k);
    hide SeeAll, SplitLines, TitleStart, TitleEnd, Join;
    SameSlice(SplitLines(a), SplitLines(b), k, TitleStart(s), TitleEnd(s));
  }

  lemma {:induction false} SameSlice<T>(a: seq<T>, b: seq<T>, k: nat, from: nat, to: nat)
    requires from <= to <= k <= |a| && k <= |b| && a[..k] == b[..k]
    ensures a[from..to] == b[from..to]
  {
  }

  lemma {:induction false} SameBounds(a: string, b: string, k: nat)
    requires k <= |SplitLines(a)| && k <= |SplitLines(b)| && SplitLines(a)[..k] == SplitLines(b)[..k]
    requires var seen := SeeAll(SplitLines(a), START); TitleStart(seen) < |seen| && TitleEnd(seen) < k
    ensures var s, t := SeeAll(SplitLines(a), START), SeeAll(SplitLines(b), START);
            TitleStart(t) == TitleStart(s) && TitleEnd(t) == TitleEnd(s)
  {
    var s, t := SeeAll(SplitLines(a), START), SeeAll(SplitLines(b), START);
    SeenByPrefix(SplitLines(a), k, START);
    SeenByPrefix(SplitLines(b), k, START);
    hide SeeAll, SplitLines, FirstSeen, IsTitle, IsHeading;
    FirstSeenByPrefix(s, t, k, 0, IsTitle);
    FirstSeenByPrefix(s, t, k, TitleStart(s) + 1, IsHeading);
  }

  // ---------- the section is split again ----------

  lemma {:induction false} FollowingDropped(lines: seq<Option<string>>, last: Option<string>, i: nat)
    requires i <= |lines| && (last == None || Strip(last.value) == "")
    ensures Following(lines + [last], i) == Following(lines, i)
    decreases |lines| - i
  {
    if i < |lines| { FollowingDropped(lines, last, i + 1); }
  }

  lemma {:induction false} TablesDropped(lines: seq<Option<string>>, last: Option<string>, n: nat)
    requires n <= |lines| && (last == None || Strip(last.value) == "")
    ensures ReadTables(lines + [last], n) == ReadTables(lines, n)
    ensures n == |lines| ==> ReadTables(lines + [last], n + 1).found == ReadTables(lines, n).found
  {
    hide ReadLine, Following;
    if n > 0 {
      TablesDropped(lines, last, n - 1);
      FollowingDropped(lines, last, n);
    }
    if n == |lines| && last.Some? { BlankClosesTable(ReadTables(lines, n), last.value, Following(lines + [last], n + 1)); }
  }

  lemma {:induction false} BlankClosesTable(r: Reading, line: string, following: string)
    requires Strip(line) == ""
    ensures ReadLine(r, line, following).found == r.found
  {
  }

  lemma {:induction false} EmptyLine(mode: Mode)
    ensures See("", mode).0 == None || See("", mode).0 == Some("")
  {
  }
}
