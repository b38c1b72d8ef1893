/** The deploy drift check, scripts/deploy_drift_check.py: has production fallen behind
    `main`, and for how long. */
module DeployDrift {
  import opened Text

  datatype Decision = InSync | DeployInFlight | Drifted | Unknown

  predicate ShouldAlert(d: Decision) { d.Drifted? || d.Unknown? }

  function Clean(value: Option<string>, lower: string -> string): string {
    lower(Strip(if value.Some? then value.value else ""))
  }

  function EvaluateDrift(mainTip: Option<string>, buildSha: Option<string>, age: Option<real>, grace: real,
                         lower: string -> string): Decision {
    var tip, served := Clean(mainTip, lower), Clean(buildSha, lower);
    if tip == "" then Unknown
    else if served == "" then Unknown
    else if tip == served then InSync
    else if age == None then Unknown
    else if age.value < 0.0 then Unknown
    else if age.value < grace then DeployInFlight
    else Drifted
  }

  /** `main`: the age is asked for only when both SHAs were read and differ. */
  function Check(mainTip: Option<string>, buildSha: Option<string>, fetchAge: string -> Option<real>, grace: real,
                 lower: string -> string): Decision {
    var asked := mainTip.Some? && mainTip.value != "" && buildSha.Some? && buildSha.value != ""
                 && Clean(mainTip, lower) != Clean(buildSha, lower);
    EvaluateDrift(mainTip, buildSha, if asked then fetchAge(buildSha.value) else None, grace, lower)
  }

  // ---------- main, production and the clock ----------

  datatype Commit = Commit(sha: string, time: real)

  /** The commits of `main`, oldest first, the one production serves, and the clock. */
  datatype System = System(main: seq<Commit>, served: nat, clock: real)

  /** Committer times do not go back and are not in the future; no two commits have
      the same SHA once trimmed and lower-cased, and none is blank. */
  ghost predicate Valid(s: System, lower: string -> string) {
    && s.served < |s.main|
    && (forall i, j | 0 <= i <= j < |s.main| :: s.main[i].time <= s.main[j].time)
    && (forall i | 0 <= i < |s.main| :: s.main[i].time <= s.clock)
    && (forall i | 0 <= i < |s.main| :: Clean(Some(s.main[i].sha), lower) != "" && s.main[i].sha != "")
    && forall i, j | 0 <= i < j < |s.main| :: Clean(Some(s.main[i].sha), lower) != Clean(Some(s.main[j].sha), lower)
  }

  datatype Step = Merge(commit: Commit) | Tick(seconds: real) | Deploy(index: nat)

  /** A merge adds a commit no older than the last and no later than the clock; a
      deploy may also go back. */
  ghost predicate Allowed(s: System, step: Step, lower: string -> string) {
    match step
    case Merge(c) =>
      && c.time <= s.clock && (forall i | 0 <= i < |s.main| :: s.main[i].time <= c.time)
      && c.sha != "" && Clean(Some(c.sha), lower) != ""
      && forall i | 0 <= i < |s.main| :: Clean(Some(s.main[i].sha), lower) != Clean(Some(c.sha), lower)
    case Tick(seconds) => seconds >= 0.0
    case Deploy(i) => i < |s.main|
  }

  function Next(s: System, step: Step): System {
    match step
    case Merge(c) => s.(main := s.main + [c])
    case Tick(seconds) => s.(clock := s.clock + seconds)
    case Deploy(i) => s.(served := i)
  }

  function After(s: System, steps: seq<Step>): System {
    if steps == [] then s else Next(After(s, steps[..|steps| - 1]), steps[|steps| - 1])
  }

  ghost predicate IsRun(s: System, steps: seq<Step>, lower: string -> string) {
    steps != [] ==>
      && IsRun(s, steps[..|steps| - 1], lower)
      && Allowed(After(s, steps[..|steps| - 1]), steps[|steps| - 1], lower)
  }

  /** How long production has been behind: the age of the oldest commit it lacks. */
  function DriftAge(s: System): Option<real>
    requires s.served < |s.main|
  {
    if s.served + 1 < |s.main| then Some(s.clock - s.main[s.served + 1].time) else None
  }

  /** A check that reads everything. */
  function Verdict(s: System, grace: real, lower: string -> string): Decision
    requires s.served < |s.main|
  {
    Check(Some(s.main[|s.main| - 1].sha), Some(s.main[s.served].sha), _ => DriftAge(s), grace, lower)
  }

  lemma {:induction false} NextIsValid(s: System, step: Step, lower: string -> string)
    requires Valid(s, lower) && Allowed(s, step, lower)
    ensures Valid(Next(s, step), lower)
  {
    hide Clean;
  }

  lemma {:induction false} RunIsValid(s: System, steps: seq<Step>, lower: string -> string)
    requires Valid(s, lower) && IsRun(s, steps, lower)
    ensures Valid(After(s, steps), lower)
  {
    if steps != [] {
      RunIsValid(s, steps[..|steps| - 1], lower);
      hide Valid, Allowed, Next;
      NextIsValid(After(s, steps[..|steps| - 1]), steps[|steps| - 1], lower);
    }
  }

  /** Production lacks commit `k`, and has done for at least the grace period. */
  predicate Overdue(s: System, k: nat, grace: real) {
    s.served < k < |s.main| && s.clock - s.main[k].time >= grace
  }

  /** No step is a deploy that includes commit `k`. */
  predicate NeverDeployed(steps: seq<Step>, k: nat) {
    forall i | 0 <= i < |steps| :: steps[i].Deploy? ==> steps[i].index < k
  }

  lemma {:induction false} StaysOverdue(s: System, steps: seq<Step>, k: nat, grace: real, lower: string -> string)
    requires Valid(s, lower) && IsRun(s, steps, lower) && Overdue(s, k, grace) && NeverDeployed(steps, k)
    ensures Overdue(After(s, steps), k, grace)
  {
    if steps != [] {
      StaysOverdue(s, steps[..|steps| - 1], k, grace, lower);
      hide Valid, Clean;
    }
  }

  /** The verdict by the oldest commit that production lacks. */
  lemma {:induction false} VerdictExact(s: System, grace: real, lower: string -> string)
    requires Valid(s, lower)
    ensures Verdict(s, grace, lower)
         == if s.served + 1 == |s.main| then InSync
            else if s.clock - s.main[s.served + 1].time < grace then DeployInFlight else Drifted
  {
  }

  /** Drift cannot be laundered: once production has lacked a commit for the grace
      period, every check says so until a deploy includes that commit, whatever is
      merged, rolled back or deployed before it meanwhile. */
  lemma {:induction false} DriftIsNotLaundered(s: System, steps: seq<Step>, k: nat, grace: real, lower: string -> string)
    requires Valid(s, lower) && IsRun(s, steps, lower) && Overdue(s, k, grace) && NeverDeployed(steps, k)
    ensures After(s, steps).served < |After(s, steps).main|
    ensures Verdict(After(s, steps), grace, lower) == Drifted
  {
    RunIsValid(s, steps, lower);
    StaysOverdue(s, steps, k, grace, lower);
    VerdictExact(After(s, steps), grace, lower);
    hide Clean, After, Verdict;
  }

  /** It ends with that deploy: right after a deploy of the tip the check is in sync. */
  lemma {:induction false} DeployingTheTipEndsDrift(s: System, grace: real, lower: string -> string)
    requires Valid(s, lower)
    ensures Verdict(Next(s, Deploy(|s.main| - 1)), grace, lower) == InSync
  {
  }

  /** The clock of the tip would launder it: after a merge at this moment the tip has
      no age at all, while production stays overdue. */
  lemma {:induction false} TipClockWouldHide(s: System, k: nat, sha: string, grace: real, lower: string -> string)
    requires Valid(s, lower) && Overdue(s, k, grace) && grace > 0.0
    requires Allowed(s, Merge(Commit(sha, s.clock)), lower)
    ensures var t := Next(s, Merge(Commit(sha, s.clock)));
            && t.clock - t.main[|t.main| - 1].time < grace
            && t.served < |t.main| && Verdict(t, grace, lower) == Drifted
  {
  }

  /** The check is quiet only on what it read: the two SHAs are the same, or production
      is behind by an age that is known, not negative, and below the grace period. */
  lemma {:induction false} QuietOnlyWhenKnown(mainTip: Option<string>, buildSha: Option<string>,
                                             fetchAge: string -> Option<real>, grace: real, lower: string -> string)
    requires lower("") == ""
    ensures !ShouldAlert(Check(mainTip, buildSha, fetchAge, grace, lower)) <==>
      && mainTip.Some? && Clean(mainTip, lower) != "" && buildSha.Some? && Clean(buildSha, lower) != ""
      && (|| Clean(mainTip, lower) == Clean(buildSha, lower)
          || (fetchAge(buildSha.value).Some? && 0.0 <= fetchAge(buildSha.value).value < grace))
  {
  }

  /** What is left of a SHA that was read: trimmed and in lower case. */
  function Read(value: Option<string>, lower: string -> string): string {
    match value case None => "" case Some(text) => lower(Strip(text))
  }

  /** Each decision, by the two SHAs and the age of the oldest commit that production
      lacks, on all inputs. */
  lemma {:induction false} DecisionExactly(mainTip: Option<string>, buildSha: Option<string>,
                                          fetchAge: string -> Option<real>, grace: real, lower: string -> string)
    requires lower("") == ""
    ensures var d := Check(mainTip, buildSha, fetchAge, grace, lower);
            var both := Read(mainTip, lower) != "" && Read(buildSha, lower) != "";
            var behind := both && Read(mainTip, lower) != Read(buildSha, lower);
            && (d == InSync <==> both && Read(mainTip, lower) == Read(buildSha, lower))
            && (behind ==> d == match fetchAge(buildSha.value)
                                case None => Unknown
                                case Some(age) => if age < 0.0 then Unknown else if age < grace then DeployInFlight else Drifted)
            && (!both ==> d == Unknown)
            && (ShouldAlert(d) <==> d != InSync && d != DeployInFlight)
  {
    TrimEmpty("", IsPySpace);
    hide Strip;
    if buildSha == Some("") || mainTip == Some("") { assert Strip("") == "" by { StripOfNothing(); } }
  }

  lemma {:induction false} StripOfNothing()
    ensures Strip("") == ""
  {
  }
}
