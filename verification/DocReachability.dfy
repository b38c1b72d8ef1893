/** How far a document is from the entry points: the breadth-first measure of
    scripts/measure_doc_reachability.py. */
module DocReachability {

  /** The tracked files, and the files that each links to. */
  datatype Docs = Docs(files: set<string>, links: string -> set<string>)
  {
    function References(source: string): set<string> { links(source) * files }
  }

  function Starts(d: Docs, starts: seq<string>): set<string> { set s | s in starts && s in d.files }

  /** A chain of links from a start file to `f`, each file linking to the next. */
  predicate Leads(d: Docs, starts: seq<string>, path: seq<string>, f: string) {
    && path != [] && path[0] in Starts(d, starts) && path[|path| - 1] == f
    && forall i | 0 < i < |path| :: path[i] in d.References(path[i - 1])
  }

  ghost predicate ReachedIn(d: Docs, starts: seq<string>, f: string, links: nat) {
    exists path :: |path| == links + 1 && Leads(d, starts, path, f)
  }

  /** The shortest chain to `f` has this many links. */
  ghost predicate Distance(d: Docs, starts: seq<string>, f: string, links: nat) {
    ReachedIn(d, starts, f, links) && forall n | 0 <= n < links :: !ReachedIn(d, starts, f, n)
  }

  lemma {:induction false} OneMoreLink(d: Docs, starts: seq<string>, f: string, links: nat)
    ensures ReachedIn(d, starts, f, links + 1) <==>
      exists g <- d.files :: ReachedIn(d, starts, g, links) && f in d.References(g)
  {
    if ReachedIn(d, starts, f, links + 1) {
      var path :| |path| == links + 2 && Leads(d, starts, path, f);
      var g := path[links];
      assert Leads(d, starts, path[..links + 1], g);
      assert f in d.References(g);
      assert g in d.files by { if links > 0 { assert path[links] in d.References(path[links - 1]); } }
      assert ReachedIn(d, starts, g, links);
    }
    if g :| g in d.files && ReachedIn(d, starts, g, links) && f in d.References(g) {
      var path :| |path| == links + 1 && Leads(d, starts, path, g);
      assert Leads(d, starts, path + [f], f);
    }
  }

  lemma {:induction false} NoLinks(d: Docs, starts: seq<string>, f: string)
    ensures ReachedIn(d, starts, f, 0) <==> f in Starts(d, starts)
  {
    if f in Starts(d, starts) { assert Leads(d, starts, [f], f); }
  }

  /** The next level: the files that the last level links to and that are not nearer. */
  lemma {:induction false} NextLevel(d: Docs, starts: seq<string>, f: string, links: nat)
    ensures Distance(d, starts, f, links + 1) <==>
      && (forall n | 0 <= n <= links :: !ReachedIn(d, starts, f, n))
      && exists g <- d.files :: Distance(d, starts, g, links) && f in d.References(g)
  {
    OneMoreLink(d, starts, f, links);
    hide ReachedIn;
    if Distance(d, starts, f, links + 1) {
      var g :| g in d.files && ReachedIn(d, starts, g, links) && f in d.References(g);
      forall n | 0 <= n < links ensures !ReachedIn(d, starts, g, n) { OneMoreLink(d, starts, f, n); }
      assert Distance(d, starts, g, links);
    }
  }

  /** The files within some number of links, each with its distance. */
  ghost predicate Known(d: Docs, starts: seq<string>, hops: map<string, nat>, within: nat) {
    && hops.Keys <= d.files
    && (forall f :: f in hops ==> hops[f] <= within && Distance(d, starts, f, hops[f]))
    && forall f, n: nat :: n <= within && Distance(d, starts, f, n) ==> f in hops && hops[f] == n
  }

  lemma {:induction false} StartsAreKnown(d: Docs, starts: seq<string>)
    ensures Known(d, starts, map s | s in Starts(d, starts) :: 0, 0)
  {
    var hops: map<string, nat> := map s | s in Starts(d, starts) :: 0;
    hide ReachedIn;
    forall f ensures f in hops <==> Distance(d, starts, f, 0) { NoLinks(d, starts, f); }
    hide Distance;
  }

  /** A file that is reached within as many links is known. */
  lemma {:induction false} ReachedIsKnown(d: Docs, starts: seq<string>, hops: map<string, nat>, within: nat, f: string, n: nat)
    requires Known(d, starts, hops, within) && n <= within
    ensures ReachedIn(d, starts, f, n) ==> f in hops
    decreases n
  {
    hide ReachedIn;
    forall m | 0 <= m < n ensures ReachedIn(d, starts, f, m) ==> f in hops {
      ReachedIsKnown(d, starts, hops, within, f, m);
    }
    if ReachedIn(d, starts, f, n) && forall m | 0 <= m < n :: !ReachedIn(d, starts, f, m) {
      assert Distance(d, starts, f, n);
    }
  }

  lemma {:induction false} OneDistance(d: Docs, starts: seq<string>, f: string, n: nat, m: nat)
    requires Distance(d, starts, f, n) && Distance(d, starts, f, m)
    ensures n == m
  {
  }

  lemma {:induction false} KnownBound(d: Docs, starts: seq<string>, hops: map<string, nat>, within: nat)
    requires Known(d, starts, hops, within)
    ensures forall f :: f in hops ==> hops[f] <= within && f in d.files && Distance(d, starts, f, hops[f])
  {
  }

  /** One round of the search. */
  lemma {:induction false} LevelFound(d: Docs, starts: seq<string>, hops: map<string, nat>, hop: nat,
                                      frontier: set<string>, next: set<string>, f: string)
    requires Known(d, starts, hops, hop)
    requires frontier == set g | g in hops && hops[g] == hop
    requires next == set g, r | g in frontier && r in d.References(g) && r !in hops :: r
    ensures f in next <==> Distance(d, starts, f, hop + 1)
  {
    NextLevel(d, starts, f, hop);
    KnownBound(d, starts, hops, hop);
    forall n | 0 <= n <= hop ensures ReachedIn(d, starts, f, n) ==> f in hops {
      ReachedIsKnown(d, starts, hops, hop, f, n);
    }
    hide ReachedIn, Distance;
    assert forall g :: g in frontier <==> Distance(d, starts, g, hop);
  }

  lemma {:induction false} LevelAdded(d: Docs, starts: seq<string>, hops: map<string, nat>, hop: nat,
                                      frontier: set<string>, next: set<string>)
    requires Known(d, starts, hops, hop)
    requires frontier == set g | g in hops && hops[g] == hop
    requires next == set g, r | g in frontier && r in d.References(g) && r !in hops :: r
    ensures Known(d, starts, hops + map r | r in next :: hop + 1, hop + 1)
  {
    var more: map<string, nat> := hops + map r | r in next :: hop + 1;
    hide Distance;
    forall f ensures f in next <==> Distance(d, starts, f, hop + 1) {
      LevelFound(d, starts, hops, hop, frontier, next, f);
    }
    forall f, n: nat | n <= hop + 1 && Distance(d, starts, f, n) ensures f in more && more[f] == n {
      if Distance(d, starts, f, hop + 1) { OneDistance(d, starts, f, n, hop + 1); }
    }
  }

  function AtHop(hops: map<string, nat>, hop: nat): set<string> { set f | f in hops && hops[f] == hop }

  function Total(counts: seq<nat>): nat {
    if counts == [] then 0 else Total(counts[..|counts| - 1]) + counts[|counts| - 1]
  }

  lemma {:induction false} CountsCover(hops: map<string, nat>, n: nat, counts: seq<nat>)
    requires |counts| == n && forall i | 0 <= i < n :: counts[i] == |AtHop(hops, i)|
    ensures Total(counts) == |set f | f in hops && hops[f] < n|
  {
    if n > 0 {
      CountsCover(hops, n - 1, counts[..n - 1]);
      var below := set f | f in hops && hops[f] < n - 1;
      var last := AtHop(hops, n - 1);
      assert (set f | f in hops && hops[f] < n) == below + last && below !! last;
    }
  }

  datatype Measure = Measure(tracked: nat, counts: seq<nat>, unreachable: nat)

  lemma {:induction false} Uncounted(files: set<string>, known: set<string>)
    requires known <= files
    ensures |set f | f in files && f !in known| == |files| - |known|
  {
    assert (set f | f in files && f !in known) == files - known;
    assert files * known == known;
  }

  /** The hops of `measure`, level by level. */
  method Hops(d: Docs, starts: seq<string>, maxHops: nat) returns (hops: map<string, nat>)
    ensures Known(d, starts, hops, maxHops)
  {
    hide Distance, Known, Starts;
    StartsAreKnown(d, starts);
    hops := map s | s in Starts(d, starts) :: 0;
    var frontier := hops.Keys;
    for hop := 1 to maxHops + 1
      invariant Known(d, starts, hops, hop - 1)
      invariant frontier == set f | f in hops && hops[f] == hop - 1
    {
      var next := set f, r | f in frontier && r in d.References(f) && r !in hops :: r;
      LevelAdded(d, starts, hops, hop - 1, frontier, next);
      KnownBound(d, starts, hops, hop - 1);
      hops := hops + map r | r in next :: hop;
      frontier := next;
    }
  }

  /** `measure`: a file has a hop exactly when its shortest chain of links is no longer
      than the limit, and the hop is its length; the counts and the rest add up. */
  method MeasureDocs(d: Docs, starts: seq<string>, maxHops: nat) returns (hops: map<string, nat>, result: Measure)
    ensures forall f :: f in hops ==> hops[f] <= maxHops && Distance(d, starts, f, hops[f])
    ensures forall f, n: nat :: n <= maxHops && Distance(d, starts, f, n) ==> f in hops && hops[f] == n
    ensures result.tracked == |d.files| && |result.counts| == maxHops + 1
    ensures forall n | 0 <= n <= maxHops :: result.counts[n] == |AtHop(hops, n)|
    ensures Total(result.counts) + result.unreachable == result.tracked
    ensures result.unreachable == |set f | f in d.files && f !in hops|
  {
    hops := Hops(d, starts, maxHops);
    hide Distance;
    var counts := [];
    for hop := 0 to maxHops + 1
      invariant |counts| == hop && forall n | 0 <= n < hop :: counts[n] == |AtHop(hops, n)|
    {
      counts := counts + [|AtHop(hops, hop)|];
    }
    CountsCover(hops, maxHops + 1, counts);
    Uncounted(d.files, hops.Keys);
    hide AtHop, Total;
    assert (set f | f in hops && hops[f] < maxHops + 1) == hops.Keys;
    assert (set f | f in d.files && f !in hops) == set f | f in d.files && f !in hops.Keys;
    result := Measure(|d.files|, counts, |d.files| - |hops.Keys|);
  }
}
