/** The runs the deploy gate counts, and what its exit says: scripts/deploy_gate.py
    from the run list down to the `proceed` output. */
module DeployGateRuns {
  import opened Text
  import opened DeployGate

  /** One entry of the run list: an object with the fields the gate reads, each
      `None` when it is absent or not of its type, or anything else. */
  datatype Run =
    | Run(name: Option<string>, branch: Option<string>, event: Option<string>, repository: Option<string>,
          started: Option<string>, id: Option<int>, status: Option<string>, conclusion: Option<string>)
    | NotAnObject

  /** A push to this repository's `main` for this workflow. */
  predicate Genuine(run: Run, workflow: string, repo: string) {
    && run.Run?
    && run.name == Some(workflow) && run.branch == Some("main") && run.event == Some("push")
    && run.repository == Some(repo)
  }

  function Candidates(runs: seq<Run>, workflow: string, repo: string): (r: seq<Run>)
    ensures forall run <- r :: run.Run?
  {
    if runs == [] then [] else
    (if Genuine(runs[0], workflow, repo) then [runs[0]] else []) + Candidates(runs[1..], workflow, repo)
  }

  lemma {:induction false} CandidatesExact(runs: seq<Run>, workflow: string, repo: string, run: Run)
    ensures run in Candidates(runs, workflow, repo) <==> run in runs && Genuine(run, workflow, repo)
  {
    hide Genuine;
    if runs != [] { CandidatesExact(runs[1..], workflow, repo, run); }
  }

  function Key(run: Run): (string, int)
    requires run.Run?
  {
    (if run.started.Some? then run.started.value else "", if run.id.Some? then run.id.value else 0)
  }

  predicate Before(a: Run, b: Run)
    requires a.Run? && b.Run?
  {
    StringLess(Key(a).0, Key(b).0) || (Key(a).0 == Key(b).0 && Key(a).1 < Key(b).1)
  }

  /** The first of the greatest. */
  function Greatest(runs: seq<Run>): (r: Run)
    requires runs != [] && forall run <- runs :: run.Run?
    ensures r in runs
  {
    var n := |runs| - 1;
    if n == 0 then runs[0] else
    var best := Greatest(runs[..n]);
    if Before(best, runs[n]) then runs[n] else best
  }

  function SelectConclusion(runs: seq<Run>, workflow: string, repo: string): Option<string> {
    var candidates := Candidates(runs, workflow, repo);
    if candidates == [] then None else
    var latest := Greatest(candidates);
    if latest.status != Some("completed") || latest.conclusion == Some("") then None else latest.conclusion
  }

  // ---------- what the selection means ----------

  /** Not before: at least as late. */
  lemma {:induction false} NotBeforeTransitive(a: Run, b: Run, c: Run)
    requires a.Run? && b.Run? && c.Run? && !Before(a, b) && !Before(b, c)
    ensures !Before(a, c)
  {
    StringOrder(Key(a).0, Key(b).0, Key(c).0);
    StringOrder(Key(b).0, Key(c).0, Key(a).0);
    StringOrder(Key(c).0, Key(b).0, Key(a).0);
    StringOrder(Key(c).0, Key(a).0, Key(b).0);
  }

  lemma {:induction false} BeforeIsStrict(a: Run, b: Run)
    requires a.Run? && b.Run? && Before(a, b)
    ensures !Before(b, a)
  {
    StringOrder(Key(a).0, Key(b).0, Key(a).0);
  }

  /** No run is later than the one picked. */
  lemma {:induction false} GreatestIsLast(runs: seq<Run>, run: Run)
    requires runs != [] && (forall r <- runs :: r.Run?) && run in runs
    ensures !Before(Greatest(runs), run)
  {
    hide Before;
    var n := |runs| - 1;
    if n == 0 {
      NeverBeforeItself(run);
    } else {
      var best := Greatest(runs[..n]);
      if run in runs[..n] {
        GreatestIsLast(runs[..n], run);
        if Before(best, runs[n]) {
          BeforeIsStrict(best, runs[n]);
          NotBeforeTransitive(runs[n], best, run);
        }
      } else {
        assert run == runs[n];
        NeverBeforeItself(run);
      }
    }
  }

  lemma {:induction false} NeverBeforeItself(run: Run)
    requires run.Run?
    ensures !Before(run, run)
  {
    StringOrder(Key(run).0, Key(run).0, Key(run).0);
  }

  /** The conclusion is that of a genuine run which no genuine run is later than, once
      it has completed; while the latest has not completed there is none. */
  lemma {:induction false} SelectionIsLatest(runs: seq<Run>, workflow: string, repo: string)
    ensures (forall run <- runs :: !Genuine(run, workflow, repo)) ==> SelectConclusion(runs, workflow, repo) == None
    ensures (exists run <- runs :: Genuine(run, workflow, repo)) ==>
              exists latest <- runs ::
                && Genuine(latest, workflow, repo)
                && (forall run <- runs :: Genuine(run, workflow, repo) ==> !Before(latest, run))
                && SelectConclusion(runs, workflow, repo)
                   == if latest.status == Some("completed") && latest.conclusion != Some("") then latest.conclusion else None
  {
    var candidates := Candidates(runs, workflow, repo);
    forall run ensures run in candidates <==> run in runs && Genuine(run, workflow, repo) {
      CandidatesExact(runs, workflow, repo, run);
    }
    hide Candidates;
    if candidates != [] {
      var latest := Greatest(candidates);
      assert latest in runs && Genuine(latest, workflow, repo);
      forall run | run in runs && Genuine(run, workflow, repo) ensures !Before(latest, run) {
        GreatestIsLast(candidates, run);
      }
    }
    hide Before, Genuine;
  }

  /** A push to this repository's `main` for this workflow, field by field. */
  predicate IsOurPush(run: Run, workflow: string, repo: string) {
    match run
    case NotAnObject => false
    case Run(name, branch, event, repository, _, _, _, _) =>
      name == Some(workflow) && branch == Some("main") && event == Some("push") && repository == Some(repo)
  }

  function StartText(run: Run): string { match run case Run(_, _, _, _, Some(t), _, _, _) => t case _ => "" }

  function IdNumber(run: Run): int { match run case Run(_, _, _, _, _, Some(n), _, _) => n case _ => 0 }

  /** The first run started later, by the text of its instant; or both started together
      and it has the larger id. */
  ghost predicate StartedLater(a: Run, b: Run) {
    || Alphabetical(StartText(b), StartText(a))
    || (StartText(a) == StartText(b) && IdNumber(a) > IdNumber(b))
  }

  /** The run listed at `i` counts: it is ours, and started later than every other of
      ours, or ties with it and is listed before it. */
  ghost predicate Counts(runs: seq<Run>, workflow: string, repo: string, i: nat) {
    && i < |runs| && IsOurPush(runs[i], workflow, repo)
    && forall j | 0 <= j < |runs| && j != i && IsOurPush(runs[j], workflow, repo) ::
         StartedLater(runs[i], runs[j]) || (!StartedLater(runs[j], runs[i]) && i < j)
  }

  lemma {:induction false} LaterIsBefore(a: Run, b: Run)
    requires a.Run? && b.Run?
    ensures Before(a, b) <==> StartedLater(b, a)
  {
    AlphabeticalIsOrder(Key(a).0, Key(b).0);
    hide StringLess, Alphabetical;
  }

  lemma {:induction false} GreatestLast(runs: seq<Run>, run: Run)
    requires (forall r <- runs :: r.Run?) && run.Run?
    ensures forall r <- runs + [run] :: r.Run?
    ensures Greatest(runs + [run]) == if runs == [] || StartedLater(run, Greatest(runs)) then run else Greatest(runs)
  {
    assert (runs + [run])[..|runs|] == runs;
    if runs != [] { LaterIsBefore(Greatest(runs), run); } else { assert runs + [run] == [run]; }
    hide StartedLater, Before;
  }

  lemma {:induction false} LaterThanBoth(w: Run, g: Run, v: Run)
    requires w.Run? && g.Run? && v.Run? && StartedLater(w, g) && !StartedLater(v, g)
    ensures StartedLater(w, v)
  {
    LaterIsBefore(g, w);
    LaterIsBefore(g, v);
    LaterIsBefore(v, w);
    if !Before(v, w) { NotBeforeTransitive(g, v, w); }
    hide StartedLater, Before;
  }

  lemma {:induction false} NotLaterBack(a: Run, b: Run)
    requires a.Run? && b.Run? && StartedLater(a, b)
    ensures !StartedLater(b, a)
  {
    LaterIsBefore(a, b);
    LaterIsBefore(b, a);
    BeforeIsStrict(b, a);
  }

  function OursAlone(run: Run, workflow: string, repo: string): seq<Run> {
    if IsOurPush(run, workflow, repo) then [run] else []
  }

  lemma {:induction false} CandidatesLast(runs: seq<Run>, workflow: string, repo: string)
    requires runs != []
    ensures var n := |runs| - 1; Candidates(runs, workflow, repo) == Candidates(runs[..n], workflow, repo) + OursAlone(runs[n], workflow, repo)
  {
    var n := |runs| - 1;
    assert runs == runs[..n] + [runs[n]];
    CandidatesSplit(runs[..n], [runs[n]], workflow, repo);
    assert [runs[n]][1..] == [];
  }

  lemma {:induction false} NoneIsOurs(runs: seq<Run>, workflow: string, repo: string, i: nat)
    requires Candidates(runs, workflow, repo) == [] && i < |runs|
    ensures !IsOurPush(runs[i], workflow, repo)
  {
    CandidatesExact(runs, workflow, repo, runs[i]);
  }

  lemma {:induction false} CountsStill(runs: seq<Run>, workflow: string, repo: string, i: nat)
    requires runs != [] && Counts(runs[..|runs| - 1], workflow, repo, i)
    requires var run := runs[|runs| - 1]; IsOurPush(run, workflow, repo) ==> !StartedLater(run, runs[i])
    ensures Counts(runs, workflow, repo, i)
  {
    hide StartedLater, IsOurPush;
    assert forall j | 0 <= j < |runs| - 1 :: runs[..|runs| - 1][j] == runs[j];
  }

  lemma {:induction false} CountsNow(runs: seq<Run>, workflow: string, repo: string, i: nat)
    requires runs != [] && Counts(runs[..|runs| - 1], workflow, repo, i)
    requires var run := runs[|runs| - 1]; IsOurPush(run, workflow, repo) && StartedLater(run, runs[i])
    ensures Counts(runs, workflow, repo, |runs| - 1)
  {
    hide StartedLater;
    var n := |runs| - 1;
    forall j | 0 <= j < n && IsOurPush(runs[j], workflow, repo) ensures StartedLater(runs[n], runs[j]) {
      assert runs[..n][j] == runs[j] && runs[..n][i] == runs[i];
      if j != i {
        if StartedLater(runs[i], runs[j]) { NotLaterBack(runs[i], runs[j]); }
        LaterThanBoth(runs[n], runs[i], runs[j]);
      }
    }
  }

  /** The run whose conclusion is taken is the one that counts. */
  lemma {:induction false} GreatestCounts(runs: seq<Run>, workflow: string, repo: string) returns (i: nat)
    requires Candidates(runs, workflow, repo) != []
    ensures Counts(runs, workflow, repo, i) && runs[i] == Greatest(Candidates(runs, workflow, repo))
  {
    hide StartedLater, IsOurPush, Candidates, Greatest, Counts;
    assert runs != [] by { NothingListed(workflow, repo); }
    var n := |runs| - 1;
    var rest, run := runs[..n], runs[n];
    CandidatesLast(runs, workflow, repo);
    var candidates := Candidates(rest, workflow, repo);
    if !IsOurPush(run, workflow, repo) {
      assert candidates + [] == candidates;
      i := GreatestCounts(rest, workflow, repo);
      CountsInPrefix(runs, workflow, repo, i);
      CountsStill(runs, workflow, repo, i);
    } else {
      OurPushIsRun(run, workflow, repo);
      GreatestLast(candidates, run);
      if candidates == [] {
        CountsAlone(runs, workflow, repo);
        i := n;
      } else {
        i := GreatestCounts(rest, workflow, repo);
        CountsInPrefix(runs, workflow, repo, i);
        if StartedLater(run, runs[i]) {
          CountsNow(runs, workflow, repo, i);
          i := n;
        } else {
          CountsStill(runs, workflow, repo, i);
        }
      }
    }
  }

  lemma {:induction false} NothingListed(workflow: string, repo: string)
    ensures Candidates([], workflow, repo) == []
  {
  }

  lemma {:induction false} OurPushIsRun(run: Run, workflow: string, repo: string)
    requires IsOurPush(run, workflow, repo)
    ensures run.Run?
  {
  }

  lemma {:induction false} CountsInPrefix(runs: seq<Run>, workflow: string, repo: string, i: nat)
    requires runs != [] && Counts(runs[..|runs| - 1], workflow, repo, i)
    ensures i < |runs| - 1 && runs[..|runs| - 1][i] == runs[i]
  {
  }

  lemma {:induction false} CountsAlone(runs: seq<Run>, workflow: string, repo: string)
    requires runs != [] && IsOurPush(runs[|runs| - 1], workflow, repo) && Candidates(runs[..|runs| - 1], workflow, repo) == []
    ensures Counts(runs, workflow, repo, |runs| - 1)
  {
    hide StartedLater, IsOurPush, Candidates;
    var n := |runs| - 1;
    forall j | 0 <= j < n ensures !IsOurPush(runs[j], workflow, repo) {
      NoneIsOurs(runs[..n], workflow, repo, j);
      assert runs[..n][j] == runs[j];
    }
  }

  /** The answer is the conclusion of the run that counts, once it is completed and has
      one; and there is none while no run counts. */
  lemma {:induction false} SelectionExactly(runs: seq<Run>, workflow: string, repo: string)
    ensures SelectConclusion(runs, workflow, repo).Some? ==> exists i: nat :: Counts(runs, workflow, repo, i)
    ensures forall i: nat | Counts(runs, workflow, repo, i) ::
      SelectConclusion(runs, workflow, repo) ==
        match runs[i]
        case Run(_, _, _, _, _, _, Some(status), Some(conclusion)) =>
          if status == "completed" && conclusion != "" then Some(conclusion) else None
        case _ => None
  {
    var candidates := Candidates(runs, workflow, repo);
    if candidates != [] {
      var k := GreatestCounts(runs, workflow, repo);
      forall i: nat | Counts(runs, workflow, repo, i) ensures i == k { CountsOnce(runs, workflow, repo, i, k); }
      hide Candidates, Greatest, Counts;
    } else {
      forall i: nat ensures !Counts(runs, workflow, repo, i) {
        if i < |runs| { NoneIsOurs(runs, workflow, repo, i); }
      }
    }
  }

  lemma {:induction false} CountsOnce(runs: seq<Run>, workflow: string, repo: string, i: nat, j: nat)
    requires Counts(runs, workflow, repo, i) && Counts(runs, workflow, repo, j)
    ensures i == j
  {
    hide StartedLater;
    if i != j {
      if StartedLater(runs[i], runs[j]) { NotLaterBack(runs[i], runs[j]); }
    }
  }

  // ---------- runs that are not ours ----------

  lemma {:induction false} CandidatesSplit(a: seq<Run>, b: seq<Run>, workflow: string, repo: string)
    ensures Candidates(a + b, workflow, repo) == Candidates(a, workflow, repo) + Candidates(b, workflow, repo)
  {
    if a == [] {
      assert a + b == b;
    } else {
      assert (a + b)[1..] == a[1..] + b;
      CandidatesSplit(a[1..], b, workflow, repo);
    }
  }

  lemma {:induction false} CandidatesNone(runs: seq<Run>, workflow: string, repo: string)
    requires forall run <- runs :: !Genuine(run, workflow, repo)
    ensures Candidates(runs, workflow, repo) == []
  {
    if runs != [] { CandidatesNone(runs[1..], workflow, repo); }
  }

  /** Runs that are not pushes to this repository's `main` for this workflow change
      nothing, wherever they stand in the list. */
  lemma {:induction false} SpoofsChangeNothing(a: seq<Run>, spoofs: seq<Run>, b: seq<Run>, workflow: string, repo: string)
    requires forall run <- spoofs :: !Genuine(run, workflow, repo)
    ensures SelectConclusion(a + spoofs + b, workflow, repo) == SelectConclusion(a + b, workflow, repo)
  {
    hide Candidates, Greatest, Genuine;
    CandidatesNone(spoofs, workflow, repo);
    CandidatesSplit(a + spoofs, b, workflow, repo);
    CandidatesSplit(a, spoofs, workflow, repo);
    CandidatesSplit(a, b, workflow, repo);
    assert Candidates(a, workflow, repo) + [] == Candidates(a, workflow, repo);
  }

  /** What the run list holds when a question is asked; `None` when the call fails
      or does not answer with a list. */
  type Listing = (nat, nat) -> Option<seq<Run>>

  /** The gate's world when its questions go to the run list of a commit. */
  function Fetched(listing: Listing, required: seq<string>, repo: string, start: real, clock: nat -> real): World {
    World((round: nat, i: nat) =>
            if i < |required| && listing(round, i).Some?
            then SelectConclusion(listing(round, i).value, required[i], repo)
            else None,
          start, clock)
  }

  ghost predicate SameGenuine(x: Listing, y: Listing, required: seq<string>, repo: string, round: nat, i: nat)
    requires i < |required|
  {
    && (x(round, i).Some? <==> y(round, i).Some?)
    && (x(round, i).Some? ==>
          Candidates(x(round, i).value, required[i], repo) == Candidates(y(round, i).value, required[i], repo))
  }

  lemma {:induction false} SameLatest(v: World, w: World, required: seq<string>, round: nat, workflow: string, k: nat)
    requires k <= |required| && forall i | 0 <= i < |required| :: v.answer(round, i) == w.answer(round, i)
    ensures Latest(required, v, round, workflow, k) == Latest(required, w, round, workflow, k)
  {
    if k > 0 { SameLatest(v, w, required, round, workflow, k - 1); }
  }

  /** Two histories of the run list that hold the same genuine runs, in the same
      order, give the gate the same verdict. */
  lemma {:induction false} OnlyGenuineRunsDecide(x: Listing, y: Listing, required: seq<string>, repo: string,
                                                timeout: real, start: real, clock: nat -> real)
    requires forall round: nat, i | 0 <= i < |required| :: SameGenuine(x, y, required, repo, round, i)
    ensures var v, w := Fetched(x, required, repo, start, clock), Fetched(y, required, repo, start, clock);
            && (Verified(required, timeout, v) <==> Verified(required, timeout, w))
            && (Failed(required, timeout, v) <==> Failed(required, timeout, w))
  {
    var v, w := Fetched(x, required, repo, start, clock), Fetched(y, required, repo, start, clock);
    forall round: nat, name ensures RoundAnswer(required, v, round, name) == RoundAnswer(required, w, round, name) {
      forall i | 0 <= i < |required| ensures v.answer(round, i) == w.answer(round, i) {
        assert SameGenuine(x, y, required, repo, round, i);
      }
      SameLatest(v, w, required, round, name, |required|);
    }
    SameAnswersSameVerdict(v, w, required, timeout);
  }

  lemma {:induction false} SameAnswersSameVerdict(v: World, w: World, required: seq<string>, timeout: real)
    requires v.start == w.start && v.clock == w.clock
    requires forall round: nat, name :: RoundAnswer(required, v, round, name) == RoundAnswer(required, w, round, name)
    ensures Verified(required, timeout, v) <==> Verified(required, timeout, w)
    ensures Failed(required, timeout, v) <==> Failed(required, timeout, w)
  {
    hide RoundAnswer;
    assert forall q: nat :: v.Elapsed(q) == w.Elapsed(q);
    forall round: nat ensures InTime(v, timeout, round) == InTime(w, timeout, round) { }
    forall round: nat, name ensures FirstAnswer(required, v, round, name) == FirstAnswer(required, w, round, name) { }
    assert forall round: nat, name :: GreenBy(required, v, round, name) == GreenBy(required, w, round, name);
    assert forall round: nat, name :: RedAt(required, v, round, name) == RedAt(required, w, round, name);
  }

  /** With no name required twice, a round's answer is the answer to its question. */
  lemma {:induction false} OneQuestionPerName(required: seq<string>, w: World, round: nat, i: nat, k: nat)
    requires i < k <= |required| && forall j, l | 0 <= j < l < |required| :: required[j] != required[l]
    ensures Latest(required, w, round, required[i], k) == w.answer(round, i)
  {
    if i < k - 1 {
      OneQuestionPerName(required, w, round, i, k - 1);
    } else {
      NotAskedYet(required, w, round, i, i);
    }
  }

  lemma {:induction false} NotAskedYet(required: seq<string>, w: World, round: nat, i: nat, k: nat)
    requires k <= i < |required| && forall j, l | 0 <= j < l < |required| :: required[j] != required[l]
    ensures Latest(required, w, round, required[i], k) == None
  {
    if k > 0 { NotAskedYet(required, w, round, i, k - 1); }
  }

  // ---------- the exit ----------

  datatype Env = Env(event: string, ref: Option<string>, repo: string, sha: string, timeout: real, poll: real)

  datatype Outcome = Outcome(proceed: bool, code: int)

  /** `main`: the `proceed` output and the exit code. `tip` is the commit `main` is
      at when the gate blocks, `None` when that cannot be told. */
  method Decide(env: Env, required: seq<string>, w: World, tip: Option<string>) returns (out: Outcome)
    requires env.poll > 0.0 && ClockRuns(w, env.poll)
    ensures env.event == "workflow_dispatch" ==>
              out == if env.ref == Some("refs/heads/main") then Outcome(true, 0) else Outcome(false, 1)
    ensures env.event != "workflow_dispatch" ==>
              (out.proceed <==> env.repo != "" && env.sha != "" && required != [] && Verified(required, env.timeout, w))
    ensures env.event != "workflow_dispatch" ==>
              (out.code == 1 <==> env.repo != "" && env.sha != "" && !out.proceed && (tip == None || tip == Some(env.sha)))
    ensures out.code == 0 || out.code == 1
    ensures out.proceed ==> out.code == 0
  {
    if env.event == "workflow_dispatch" {
      if env.ref != Some(MAIN_REF) { return Outcome(false, 1); }
      return Outcome(true, 0);
    }
    if env.repo == "" || env.sha == "" { return Outcome(false, 0); }
    var result, _ := EvaluateGate(required, env.timeout, env.poll, w);
    if result.decision.Proceed? { return Outcome(true, 0); }
    if tip == None || tip == Some(env.sha) { return Outcome(false, 1); }
    return Outcome(false, 0);
  }
}
