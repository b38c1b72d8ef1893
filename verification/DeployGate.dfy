/** The deploy gate, scripts/deploy_gate.py: a bounded wait for every required
    workflow, against answers and a clock the gate does not control. */
module DeployGate {
  import opened Text
  import opened Json

  const SUCCESS := "success"
  const MAIN_REF := "refs/heads/main"

  datatype Decision = Proceed | BlockedFailure | BlockedTimeout

  type Conclusions = map<string, Option<string>>

  datatype GateResult = GateResult(decision: Decision, conclusions: Conclusions)

  /** What the gate meets: the answer to the question asked in a round for the i-th
      required name, and the clock when the gate starts and as a round reads it. */
  datatype World = World(answer: (nat, nat) -> Option<string>, start: real, clock: nat -> real)
  {
    function Elapsed(round: nat): real { clock(round) - start }
  }

  predicate Pending(c: Option<string>) { c == None }
  predicate Red(c: Option<string>) { c.Some? && c.value != "success" }

  // ---------- what the answers of the rounds say ----------

  /** The answer that the first `k` questions of a round leave for a workflow: a name
      that is required twice is asked for again unless it is green. */
  function Latest(required: seq<string>, w: World, round: nat, workflow: string, k: nat): Option<string>
    requires k <= |required|
  {
    if k == 0 then None else
    var before := Latest(required, w, round, workflow, k - 1);
    if required[k - 1] == workflow && before != Some(SUCCESS) then w.answer(round, k - 1) else before
  }

  function RoundAnswer(required: seq<string>, w: World, round: nat, workflow: string): Option<string> {
    Latest(required, w, round, workflow, |required|)
  }

  /** The round gives the workflow its first answer that is not "pending". */
  predicate FirstAnswer(required: seq<string>, w: World, round: nat, workflow: string) {
    && RoundAnswer(required, w, round, workflow).Some?
    && forall q | 0 <= q < round :: Pending(RoundAnswer(required, w, q, workflow))
  }

  predicate GreenBy(required: seq<string>, w: World, round: nat, workflow: string) {
    exists r | 0 <= r <= round ::
      FirstAnswer(required, w, r, workflow) && RoundAnswer(required, w, r, workflow) == Some("success")
  }

  predicate RedAt(required: seq<string>, w: World, round: nat, workflow: string) {
    FirstAnswer(required, w, round, workflow) && Red(RoundAnswer(required, w, round, workflow))
  }

  /** No round before this one saw the timeout. */
  predicate InTime(w: World, timeout: real, round: nat) {
    forall q | 0 <= q < round :: w.Elapsed(q) < timeout
  }

  /** Every workflow's first answer is green, and all came in time. */
  ghost predicate Verified(required: seq<string>, timeout: real, w: World) {
    exists n :: InTime(w, timeout, n) && forall workflow <- required :: GreenBy(required, w, n, workflow)
  }

  /** Some workflow's first answer is not green, and came in time. */
  ghost predicate Failed(required: seq<string>, timeout: real, w: World) {
    exists n :: InTime(w, timeout, n) && exists workflow <- required :: RedAt(required, w, n, workflow)
  }

  // ---------- the gate ----------

  /** The sleep of a round moves the clock by at least the poll interval. */
  ghost predicate Advances(w: World, poll: real, round: nat) {
    w.clock(round) + poll <= w.clock(round + 1)
  }

  ghost predicate ClockRuns(w: World, poll: real) {
    w.start <= w.clock(0) && forall round: nat :: Advances(w, poll, round)
  }

  /** The conclusions held once a round has asked its first `k` questions: none but
      the green ones are asked for again. */
  function AfterQuestions(held: Conclusions, required: seq<string>, w: World, round: nat, k: nat): Conclusions
    requires k <= |required|
    requires forall name <- required :: name in held
    ensures AfterQuestions(held, required, w, round, k).Keys == held.Keys
  {
    if k == 0 then held else
    var c := AfterQuestions(held, required, w, round, k - 1);
    if c[required[k - 1]] == Some(SUCCESS) then c else c[required[k - 1] := w.answer(round, k - 1)]
  }

  /** No workflow is red, the green ones are those whose first answer was green
      before `round`, and the others had no answer before `round`. */
  ghost predicate Held(c: Conclusions, required: seq<string>, w: World, round: nat) {
    && c.Keys == (set name | name in required)
    && forall name <- required ::
         || (c[name] == None && forall q | 0 <= q < round :: Pending(RoundAnswer(required, w, q, name)))
         || (c[name] == Some(SUCCESS) && round > 0 && GreenBy(required, w, round - 1, name))
  }

  lemma {:induction false} Asked(held: Conclusions, required: seq<string>, w: World, round: nat, k: nat, name: string)
    requires k <= |required| && held.Keys == set n | n in required
    requires name in required && (held[name] == None || held[name] == Some(SUCCESS))
    ensures AfterQuestions(held, required, w, round, k)[name]
         == if held[name] == Some(SUCCESS) then Some(SUCCESS) else Latest(required, w, round, name, k)
  {
    if k > 0 { Asked(held, required, w, round, k - 1, name); }
  }

  /** What a round leaves for one workflow: red or green by its first answer, or
      still pending. */
  ghost predicate Settled(c: Option<string>, required: seq<string>, w: World, round: nat, name: string) {
    && (c == None <==> forall q | 0 <= q <= round :: Pending(RoundAnswer(required, w, q, name)))
    && (c == Some(SUCCESS) <==> GreenBy(required, w, round, name))
    && (Red(c) <==> RedAt(required, w, round, name))
  }

  lemma {:induction false} RoundSettles(held: Conclusions, required: seq<string>, w: World, round: nat, name: string)
    requires Held(held, required, w, round) && name in required
    ensures Settled(AfterQuestions(held, required, w, round, |required|)[name], required, w, round, name)
  {
    Asked(held, required, w, round, |required|, name);
    hide Latest, AfterQuestions;
    if held[name] == Some(SUCCESS) {
      var r :| 0 <= r <= round - 1
        && FirstAnswer(required, w, r, name) && RoundAnswer(required, w, r, name) == Some(SUCCESS);
      assert !Pending(RoundAnswer(required, w, r, name));
    } else {
      var answer := RoundAnswer(required, w, round, name);
      assert answer.Some? ==> FirstAnswer(required, w, round, name);
    }
  }

  /** The rounds that fit before the timeout: its ceiling in polls, or none. */
  function Bound(timeout: real, poll: real): nat
    requires poll > 0.0
  {
    var polls := -((-timeout / poll).Floor);
    if polls < 0 then 0 else polls
  }

  ghost predicate AllSettled(c: Conclusions, required: seq<string>, w: World, round: nat) {
    && c.Keys == (set name | name in required)
    && forall name <- required :: Settled(c[name], required, w, round, name)
  }

  lemma {:induction false} RedStops(c: Conclusions, required: seq<string>, timeout: real, w: World, round: nat)
    requires AllSettled(c, required, w, round) && InTime(w, timeout, round)
    requires exists name <- required :: Red(c[name])
    ensures Failed(required, timeout, w) && !Verified(required, timeout, w)
  {
  }

  lemma {:induction false} GreenStops(c: Conclusions, required: seq<string>, timeout: real, w: World, round: nat)
    requires AllSettled(c, required, w, round) && InTime(w, timeout, round)
    requires forall name <- required :: c[name] == Some(SUCCESS)
    ensures Verified(required, timeout, w) && !Failed(required, timeout, w)
  {
  }

  lemma {:induction false} LateStops(c: Conclusions, required: seq<string>, timeout: real, w: World, round: nat)
    requires AllSettled(c, required, w, round) && w.Elapsed(round) >= timeout
    requires forall name <- required :: !Red(c[name])
    requires exists name <- required :: Pending(c[name])
    ensures !Verified(required, timeout, w) && !Failed(required, timeout, w)
  {
  }

  lemma {:induction false} ClockAt(w: World, poll: real, round: nat)
    requires ClockRuns(w, poll)
    ensures w.Elapsed(round) >= round as real * poll
  {
    if round > 0 {
      ClockAt(w, poll, round - 1);
      assert Advances(w, poll, round - 1);
      assert round as real * poll == (round - 1) as real * poll + poll;
    }
  }

  lemma {:induction false} BoundIsEnough(timeout: real, poll: real, round: nat)
    requires poll > 0.0 && round as real * poll < timeout
    ensures round < Bound(timeout, poll)
  {
  }

  lemma {:induction false} StillInTime(timeout: real, poll: real, w: World, round: nat)
    requires poll > 0.0 && ClockRuns(w, poll)
    requires InTime(w, timeout, round) && w.Elapsed(round) < timeout
    ensures InTime(w, timeout, round + 1) && round < Bound(timeout, poll)
  {
    hide Bound;
    ClockAt(w, poll, round);
    BoundIsEnough(timeout, poll, round);
  }

  lemma {:induction false} KeptOpen(c: Conclusions, required: seq<string>, w: World, round: nat)
    requires AllSettled(c, required, w, round) && forall name <- required :: !Red(c[name])
    ensures Held(c, required, w, round + 1)
  {
  }

  lemma {:induction false} NothingHeld(required: seq<string>, w: World, timeout: real)
    ensures Held(map name | name in required :: None, required, w, 0) && InTime(w, timeout, 0)
  {
  }

  /** One round of questions. */
  method Ask(held: Conclusions, required: seq<string>, w: World, round: nat) returns (conclusions: Conclusions)
    requires Held(held, required, w, round)
    ensures AllSettled(conclusions, required, w, round)
  {
    conclusions := held;
    for i := 0 to |required|
      invariant conclusions.Keys == held.Keys && forall name <- required :: name in held
      invariant conclusions == AfterQuestions(held, required, w, round, i)
    {
      if conclusions[required[i]] == Some(SUCCESS) { continue; }
      conclusions := conclusions[required[i] := w.answer(round, i)];
    }
    hide Settled, AfterQuestions;
    forall name | name in required ensures Settled(conclusions[name], required, w, round, name) {
      RoundSettles(held, required, w, round, name);
    }
  }

  /** `evaluate_gate`. It stops in the round `last`, at most `Bound` rounds after the
      first; the decision is the one the first answers and the clock call for. */
  method EvaluateGate(required: seq<string>, timeout: real, poll: real, w: World)
    returns (result: GateResult, ghost last: nat)
    requires poll > 0.0 && ClockRuns(w, poll)
    ensures result.decision.Proceed? <==> required != [] && Verified(required, timeout, w)
    ensures result.decision.BlockedFailure? <==> required == [] || Failed(required, timeout, w)
    ensures last <= Bound(timeout, poll)
    ensures required != [] ==> AllSettled(result.conclusions, required, w, last)
  {
    hide Held, Settled, InTime, Verified, Failed, Bound;
    if required == [] {
      return GateResult(BlockedFailure, map[]), 0;
    }
    NothingHeld(required, w, timeout);
    var conclusions: Conclusions := map name | name in required :: None;
    var round := 0;
    while true
      invariant Held(conclusions, required, w, round)
      invariant InTime(w, timeout, round)
      invariant round <= Bound(timeout, poll)
      decreases Bound(timeout, poll) - round
    {
      conclusions := Ask(conclusions, required, w, round);
      last := round;
      if exists name <- required :: Red(conclusions[name]) {
        RedStops(conclusions, required, timeout, w, round);
        return GateResult(BlockedFailure, conclusions), last;
      }
      if forall name <- required :: !Pending(conclusions[name]) {
        GreenStops(conclusions, required, timeout, w, round);
        return GateResult(Proceed, conclusions), last;
      }
      if w.Elapsed(round) >= timeout {
        LateStops(conclusions, required, timeout, w, round);
        return GateResult(BlockedTimeout, conclusions), last;
      }
      StillInTime(timeout, poll, w, round);
      KeptOpen(conclusions, required, w, round);
      round := round + 1;
    }
  }
}
