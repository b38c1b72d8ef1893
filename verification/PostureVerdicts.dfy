/** The verdict of scripts/live_posture_check.py, said over the readings, the windows and
    the comments alone: which inputs give which decision, and when it is complete. */
module PostureVerdicts {
  import opened Text
  import opened Json
  import opened Posture
  import PostureRuns

  // ---------- what was read ----------

  ghost predicate Answered<T(!new)>(m: map<string, Option<T>>) { forall url <- m :: m[url] != None }

  ghost predicate Reports(states: States, url: string, state: string) { url in states && states[url] == Some(state) }

  /** Some host was read, and every host that was read reports a state the check knows. */
  ghost predicate Understood(states: States) {
    && (exists url, state :: Reports(states, url, state))
    && forall url, state | Reports(states, url, state) ::
         state == "live" || state == "offline_by_config" || state == "offline_by_no_key" || state == "offline_by_bad_key"
  }

  ghost predicate SomeLive(states: States) {
    exists url, state :: Reports(states, url, state) && state != "offline_by_config"
  }

  ghost predicate SomeJudge(judges: Judges) { exists url <- judges :: judges[url] == Some(true) }

  /** Judges were asked for, and none of them answered. */
  ghost predicate NoJudgeAnswered(judges: Judges) { judges != map[] && forall url <- judges :: judges[url] == None }

  // ---------- the windows ----------

  predicate Covering(w: Window, now: int) {
    w.openedAt <= now && match w.expiresAt case None => true case Some(end) => now < end
  }

  function EndStamp(py: Python, w: Window): real {
    py.timestamp(match w.expiresAt case None => 253_402_300_799_999_999 case Some(end) => end)
  }

  /** The first window ends later; or they end together and it opened earlier; or both
      agree in that and its owner comes first. */
  ghost predicate Outranks(py: Python, a: Window, b: Window) {
    || EndStamp(py, a) > EndStamp(py, b)
    || (EndStamp(py, a) == EndStamp(py, b) && a.openedAt < b.openedAt)
    || (EndStamp(py, a) == EndStamp(py, b) && a.openedAt == b.openedAt && Alphabetical(a.owner, b.owner))
  }

  /** The window listed at `i` covers `now`, and every other that does is outranked by
      it, or ties with it and is listed later. */
  ghost predicate GovernsAt(py: Python, windows: seq<Window>, now: int, i: nat) {
    && i < |windows| && Covering(windows[i], now)
    && forall j | 0 <= j < |windows| && j != i && Covering(windows[j], now) ::
         Outranks(py, windows[i], windows[j]) || (!Outranks(py, windows[j], windows[i]) && i < j)
  }

  ghost predicate IssueUnread(w: Window, read: Attention) {
    w.reaffirmIssue.Some? && w.reaffirmIssue.value in read && read[w.reaffirmIssue.value] == None
  }

  /** An entry that was read from the window's issue attends it. */
  ghost predicate AttendedBy(py: Python, w: Window, read: Attention, e: Reaffirmation) {
    && Attends(py, w, e)
    && w.reaffirmIssue.Some? && w.reaffirmIssue.value in read
    && match read[w.reaffirmIssue.value] case None => false case Some(entries) => e in entries
  }

  /** Opened less than a day ago, or attended less than a day ago. */
  ghost predicate Kept(py: Python, w: Window, now: int, read: Attention) {
    || now - w.openedAt < 24 * 3_600_000_000
    || exists e :: AttendedBy(py, w, read, e) && now - e.at < 24 * 3_600_000_000
  }

  ghost predicate AllKept(py: Python, windows: seq<Window>, now: int, read: Attention) {
    forall w <- windows | Covering(w, now) :: Kept(py, w, now, read)
  }

  ghost predicate JudgeDeclared(windows: seq<Window>, now: int) { exists w <- windows :: Covering(w, now) && w.judge }

  ghost predicate NoneCovers(windows: seq<Window>, now: int) { forall w <- windows :: !Covering(w, now) }

  ghost predicate SomeEnded(windows: seq<Window>, now: int) { exists w <- windows :: w.expiresAt.Some? && w.expiresAt.value <= now }

  // ---------- the functions of the check are these ----------

  lemma {:induction false} OutranksIsKeyLess(py: Python, a: Window, b: Window)
    ensures KeyLess(py, a, b) <==> Outranks(py, a, b)
  {
    AlphabeticalIsOrder(a.owner, b.owner);
    hide StringLess, Alphabetical;
  }

  lemma {:induction false} AttendedByEntries(py: Python, w: Window, read: Attention, e: Reaffirmation)
    ensures AttendedBy(py, w, read, e) <==> e in Entries(w, read) && Attends(py, w, e)
  {
    hide Attends;
  }

  lemma {:induction false} KeptIsAttended(py: Python, w: Window, now: int, read: Attention)
    ensures IsAttended(py, w, now, read) <==> Kept(py, w, now, read)
  {
    forall e ensures AttendedBy(py, w, read, e) <==> e in Entries(w, read) && Attends(py, w, e) { AttendedByEntries(py, w, read, e); }
    var latest := Latest(py, w, Entries(w, read), w.openedAt);
    hide Latest, Attends, AttendedBy, Entries;
  }

  // ---------- the window that governs ----------

  lemma {:induction false} ActiveLast(windows: seq<Window>, now: int)
    requires windows != []
    ensures var n := |windows| - 1;
            Active(windows, now) == Active(windows[..n], now) + if windows[n].Covers(now) then [windows[n]] else []
  {
    var n := |windows| - 1;
    if n > 0 {
      ActiveLast(windows[1..], now);
      assert windows[1..][..n - 1] == windows[..n][1..] && windows[1..][n - 1] == windows[n] && windows[..n][0] == windows[0];
    } else {
      assert windows[1..] == [] && windows[..0] == [];
    }
  }

  lemma {:induction false} OutrankedByBoth(py: Python, w: Window, g: Window, v: Window)
    requires Outranks(py, w, g) && !Outranks(py, v, g)
    ensures Outranks(py, w, v)
  {
    OutranksIsKeyLess(py, w, g);
    OutranksIsKeyLess(py, v, g);
    OutranksIsKeyLess(py, w, v);
    PostureRuns.KeyOrder(py, w, v, g);
    PostureRuns.KeyOrder(py, v, w, g);
    StringOrder(w.owner, v.owner, g.owner);
    hide Outranks, StringLess;
  }

  lemma {:induction false} GovernsStill(py: Python, windows: seq<Window>, now: int, i: nat)
    requires windows != [] && GovernsAt(py, windows[..|windows| - 1], now, i)
    requires var w := windows[|windows| - 1]; Covering(w, now) ==> !Outranks(py, w, windows[i])
    ensures GovernsAt(py, windows, now, i)
  {
    hide Outranks;
    assert forall j | 0 <= j < |windows| - 1 :: windows[..|windows| - 1][j] == windows[j];
  }

  lemma {:induction false} GovernsNow(py: Python, windows: seq<Window>, now: int, i: nat)
    requires windows != [] && GovernsAt(py, windows[..|windows| - 1], now, i)
    requires var w := windows[|windows| - 1]; Covering(w, now) && Outranks(py, w, windows[i])
    ensures GovernsAt(py, windows, now, |windows| - 1)
  {
    hide Outranks;
    var n := |windows| - 1;
    var rest := windows[..n];
    forall j | 0 <= j < n && Covering(windows[j], now) ensures Outranks(py, windows[n], windows[j]) {
      assert rest[j] == windows[j] && rest[i] == windows[i];
      if j != i {
        NotBoth(py, rest, now, i, j);
        OutrankedByBoth(py, windows[n], windows[i], windows[j]);
      }
    }
  }

  lemma {:induction false} GovernsAlone(py: Python, windows: seq<Window>, now: int)
    requires windows != [] && Covering(windows[|windows| - 1], now) && Active(windows[..|windows| - 1], now) == []
    ensures GovernsAt(py, windows, now, |windows| - 1)
  {
    hide Outranks, Active;
    var n := |windows| - 1;
    forall j | 0 <= j < n ensures !Covering(windows[j], now) {
      assert windows[..n][j] == windows[j] && windows[j] in windows[..n];
      NotActive(windows[..n], now, windows[j]);
    }
  }

  lemma {:induction false} GoverningLast(py: Python, active: seq<Window>, w: Window)
    ensures Governing(py, active + [w]) == if active == [] || Outranks(py, w, Governing(py, active)) then w else Governing(py, active)
  {
    assert (active + [w])[..|active|] == active;
    if active != [] { OutranksIsKeyLess(py, w, Governing(py, active)); } else { assert active + [w] == [w]; }
    hide Outranks, KeyLess;
  }

  /** The check's choice of a window is the one that governs. */
  lemma {:induction false} GoverningAt(py: Python, windows: seq<Window>, now: int) returns (i: nat)
    requires Active(windows, now) != []
    ensures GovernsAt(py, windows, now, i) && windows[i] == Governing(py, Active(windows, now))
  {
    hide Outranks, Active, GovernsAt, Governing;
    assert windows != [] by { NoneActive(now); }
    var n := |windows| - 1;
    var rest, w := windows[..n], windows[n];
    ActiveLast(windows, now);
    var active := Active(rest, now);
    if !w.Covers(now) {
      assert active + [] == active;
      i := GoverningAt(py, rest, now);
      InPrefix(py, windows, now, i);
      GovernsStill(py, windows, now, i);
    } else {
      GoverningLast(py, active, w);
      if active == [] {
        GovernsAlone(py, windows, now);
        i := n;
      } else {
        i := GoverningAt(py, rest, now);
        InPrefix(py, windows, now, i);
        if Outranks(py, w, windows[i]) {
          GovernsNow(py, windows, now, i);
          i := n;
        } else {
          GovernsStill(py, windows, now, i);
        }
      }
    }
  }

  lemma {:induction false} NoneActive(now: int)
    ensures Active([], now) == []
  {
  }

  lemma {:induction false} InPrefix(py: Python, windows: seq<Window>, now: int, i: nat)
    requires windows != [] && GovernsAt(py, windows[..|windows| - 1], now, i)
    ensures i < |windows| - 1 && windows[..|windows| - 1][i] == windows[i]
  {
  }

  lemma {:induction false} NotBoth(py: Python, windows: seq<Window>, now: int, i: nat, j: nat)
    requires GovernsAt(py, windows, now, i) && j < |windows| && j != i && Covering(windows[j], now)
    ensures !Outranks(py, windows[j], windows[i])
  {
    OutranksIsKeyLess(py, windows[i], windows[j]);
    OutranksIsKeyLess(py, windows[j], windows[i]);
    PostureRuns.KeyOrder(py, windows[i], windows[j], windows[i]);
    hide Outranks, KeyLess;
  }

  lemma {:induction false} NotActive(windows: seq<Window>, now: int, v: Window)
    requires Active(windows, now) == [] && v in windows
    ensures !Covering(v, now)
  {
    assert v !in Active(windows, now);
  }

  /** Only one place of the list governs. */
  lemma {:induction false} GovernsOnce(py: Python, windows: seq<Window>, now: int, i: nat, j: nat)
    requires GovernsAt(py, windows, now, i) && GovernsAt(py, windows, now, j)
    ensures i == j
  {
    hide Outranks;
    if i != j {
      NotBoth(py, windows, now, i, j);
      NotBoth(py, windows, now, j, i);
    }
  }

  // ---------- the verdict ----------

  /** The posture can be told: enough was read, and the declaration can be trusted. */
  ghost predicate Sure(states: States, windows: Option<seq<Window>>) { Understood(states) && windows.Some? }

  /** Live execution is on inside a window, and the governing window's issue, and the
      judges if any were asked for, could be read. */
  ghost predicate Inside(py: Python, states: States, windows: Option<seq<Window>>, now: int, judges: Judges, read: Attention) {
    && Sure(states, windows) && SomeLive(states) && !NoJudgeAnswered(judges)
    && exists i: nat :: GovernsAt(py, windows.value, now, i) && !IssueUnread(windows.value[i], read)
  }

  ghost predicate StandingGoverns(py: Python, windows: seq<Window>, now: int) {
    exists i: nat :: GovernsAt(py, windows, now, i) && windows[i].mode == Standing
  }

  /** A live posture inside a window about which it cannot be told whether anybody
      attends it or whether the judge is on. */
  ghost predicate InTheDark(py: Python, states: States, windows: Option<seq<Window>>, now: int, judges: Judges, read: Attention) {
    && Sure(states, windows) && SomeLive(states)
    && exists i: nat :: GovernsAt(py, windows.value, now, i) && (IssueUnread(windows.value[i], read) || NoJudgeAnswered(judges))
  }

  lemma {:induction false} ReadingsAgree(states: States, judges: Judges)
    ensures AnyRead(states) <==> exists url, state :: Reports(states, url, state)
    ensures AnyRead(states) && !AnyUnheardOf(states) <==> Understood(states)
    ensures AnyLive(states) <==> SomeLive(states)
    ensures JudgeOn(judges) <==> SomeJudge(judges)
    ensures judges != map[] && !AnyRead(judges) <==> NoJudgeAnswered(judges)
    ensures AllRead(states) <==> Answered(states)
    ensures AllRead(judges) <==> Answered(judges)
  {
    forall url | url in states && states[url].Some? ensures Reports(states, url, states[url].value) { }
  }

  /** What governs is the check's choice, and something does when something covers. */
  lemma {:induction false} GovernsIs(py: Python, windows: seq<Window>, now: int)
    ensures forall i: nat | GovernsAt(py, windows, now, i) ::
      Active(windows, now) != [] && windows[i] == Governing(py, Active(windows, now))
    ensures Active(windows, now) != [] ==> exists i: nat :: GovernsAt(py, windows, now, i)
    ensures Active(windows, now) == [] <==> NoneCovers(windows, now)
  {
    var active := Active(windows, now);
    if active != [] {
      var k := GoverningAt(py, windows, now);
      forall i: nat | GovernsAt(py, windows, now, i) ensures windows[i] == Governing(py, active) { GovernsOnce(py, windows, now, i, k); }
      assert active[0] in active;
    } else {
      forall w | w in windows ensures !Covering(w, now) { NotActive(windows, now, w); }
    }
    hide Governing, Active, Outranks;
  }

  lemma {:induction false} WindowsAgree(py: Python, windows: seq<Window>, now: int, read: Attention)
    ensures var active := Active(windows, now);
            && ((exists w <- active :: !IsAttended(py, w, now, read)) <==> !AllKept(py, windows, now, read))
            && ((exists w <- active :: w.judge) <==> JudgeDeclared(windows, now))
  {
    forall w ensures IsAttended(py, w, now, read) <==> Kept(py, w, now, read) { KeptIsAttended(py, w, now, read); }
    hide IsAttended, Kept, Active;
    assert forall w :: w in Active(windows, now) <==> w in windows && Covering(w, now);
  }

  /** What the windows say of the one that governs. */
  lemma {:induction false} GoverningSays(py: Python, windows: seq<Window>, now: int, read: Attention)
    requires Active(windows, now) != []
    ensures var g := Governing(py, Active(windows, now));
            && (IssueUnread(g, read) <==> exists i: nat :: GovernsAt(py, windows, now, i) && IssueUnread(windows[i], read))
            && (!IssueUnread(g, read) <==> exists i: nat :: GovernsAt(py, windows, now, i) && !IssueUnread(windows[i], read))
            && (g.mode == Standing <==> StandingGoverns(py, windows, now))
  {
    GovernsIs(py, windows, now);
    var i: nat :| GovernsAt(py, windows, now, i);
    hide Governing, Active, GovernsAt, IssueUnread;
  }

  lemma {:induction false} CoveredExactly(
    py: Python, windows: seq<Window>, now: int, judges: Judges, read: Attention, complete: bool)
    requires Active(windows, now) != []
    ensures var active := Active(windows, now);
            var r, unread := EvaluateCovered(py, active, now, judges, read, complete), IssueUnread(Governing(py, active), read);
            && (r.decision == Unknown <==> unread || NoJudgeAnswered(judges))
            && (r.decision == Unknown ==> !r.complete) && (r.decision != Unknown ==> r.complete == complete)
            && (r.decision == LiveReaffirmationLapsed <==> !unread && !NoJudgeAnswered(judges) && !AllKept(py, windows, now, read))
            && (r.decision == LiveJudgeUndeclared <==>
                  && !unread && !NoJudgeAnswered(judges) && AllKept(py, windows, now, read)
                  && SomeJudge(judges) && !JudgeDeclared(windows, now))
            && (r.decision == LiveWithinStandingDeclaration <==>
                  && !unread && !NoJudgeAnswered(judges) && AllKept(py, windows, now, read)
                  && (SomeJudge(judges) ==> JudgeDeclared(windows, now)) && Governing(py, active).mode == Standing)
            && (r.decision == LiveWithinDeclaredWindow <==>
                  && !unread && !NoJudgeAnswered(judges) && AllKept(py, windows, now, read)
                  && (SomeJudge(judges) ==> JudgeDeclared(windows, now)) && Governing(py, active).mode == TimeBoxed)
  {
    ReadingsAgree(map[], judges);
    WindowsAgree(py, windows, now, read);
    hide Governing, Active, AnyRead, JudgeOn, IsAttended, AllKept, JudgeDeclared, SomeJudge, NoJudgeAnswered;
  }

  /** Each decision, by what was read, what was declared and what was posted. */
  lemma {:induction false} VerdictExactly(
    py: Python, states: States, windows: Option<seq<Window>>, now: int, judges: Judges, read: Attention)
    ensures var d := Evaluate(py, states, windows, now, judges, read).decision;
            var live := Sure(states, windows) && SomeLive(states);
            var inside := Inside(py, states, windows, now, judges, read);
            && (d == Unknown <==> !Sure(states, windows) || InTheDark(py, states, windows, now, judges, read))
            && (d == OffAsDeclared <==> Sure(states, windows) && !SomeLive(states))
            && (d == LivePastDeclaredWindow <==> live && NoneCovers(windows.value, now) && SomeEnded(windows.value, now))
            && (d == LiveUndeclared <==> live && NoneCovers(windows.value, now) && !SomeEnded(windows.value, now))
            && (d == LiveReaffirmationLapsed <==> inside && !AllKept(py, windows.value, now, read))
            && (d == LiveJudgeUndeclared <==>
                  inside && AllKept(py, windows.value, now, read) && SomeJudge(judges) && !JudgeDeclared(windows.value, now))
            && (d == LiveWithinStandingDeclaration <==>
                  && inside && AllKept(py, windows.value, now, read)
                  && (SomeJudge(judges) ==> JudgeDeclared(windows.value, now)) && StandingGoverns(py, windows.value, now))
            && (d == LiveWithinDeclaredWindow <==>
                  && inside && AllKept(py, windows.value, now, read)
                  && (SomeJudge(judges) ==> JudgeDeclared(windows.value, now)) && !StandingGoverns(py, windows.value, now))
  {
    ReadingsAgree(states, judges);
    hide AnyRead, AnyUnheardOf, AnyLive, Understood, SomeLive, Answered, AllRead, JudgeOn, Governing, Active, EvaluateCovered,
         SomeJudge, NoJudgeAnswered, AllKept, JudgeDeclared, NoneCovers, StandingGoverns, GovernsAt, IssueUnread;
    if windows.Some? {
      GovernsIs(py, windows.value, now);
      if Active(windows.value, now) != [] {
        GoverningSays(py, windows.value, now, read);
        CoveredExactly(py, windows.value, now, judges, read, AllRead(states) && AllRead(judges));
      }
    }
  }

  /** A verdict may retire a standing alert if and only if every host and every judge
      that was asked answered, some host was asked, and it is not in the dark. */
  lemma {:induction false} CompleteExactly(
    py: Python, states: States, windows: Option<seq<Window>>, now: int, judges: Judges, read: Attention)
    ensures Evaluate(py, states, windows, now, judges, read).complete <==>
            && Answered(states) && Answered(judges) && (exists url, state :: Reports(states, url, state))
            && !InTheDark(py, states, windows, now, judges, read)
  {
    ReadingsAgree(states, judges);
    hide AnyRead, AnyUnheardOf, AnyLive, Understood, SomeLive, Answered, AllRead, JudgeOn, Governing, Active, EvaluateCovered,
         SomeJudge, NoJudgeAnswered, AllKept, JudgeDeclared, NoneCovers, StandingGoverns, GovernsAt, IssueUnread;
    if windows.Some? {
      GovernsIs(py, windows.value, now);
      if Active(windows.value, now) != [] {
        GoverningSays(py, windows.value, now, read);
        CoveredExactly(py, windows.value, now, judges, read, AllRead(states) && AllRead(judges));
      }
    }
  }

  /** No alert is raised if and only if the posture can be told and is off, or lies
      inside a window, every covering window is kept, and a judge that is on is declared. */
  lemma {:induction false} SilenceExactly(
    py: Python, states: States, windows: Option<seq<Window>>, now: int, judges: Judges, read: Attention)
    ensures !Evaluate(py, states, windows, now, judges, read).decision.Alerts() <==>
            || (Sure(states, windows) && !SomeLive(states))
            || (&& Inside(py, states, windows, now, judges, read) && AllKept(py, windows.value, now, read)
                && (SomeJudge(judges) ==> JudgeDeclared(windows.value, now)))
  {
    VerdictExactly(py, states, windows, now, judges, read);
    hide Evaluate, Understood, SomeLive, AllKept, SomeJudge, JudgeDeclared, InTheDark, NoneCovers, SomeEnded, StandingGoverns;
  }
}
