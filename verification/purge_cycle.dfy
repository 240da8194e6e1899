/** cli.go, purgeAllServices: one purge cycle as a state machine over the steps of the
    cycle's own loop, of the goroutines it starts and of its parent context. */
module PurgeCycle {

  /** `timeout` is the per-service budget, `grace` the wait granted to a goroutine after its
      context ended. `purgeable` says which registered services implement Purge. */
  datatype Config = Config(purgeable: seq<bool>, timeout: int, grace: int) {
    ghost predicate Valid() {
      timeout >= 0 && grace >= 0
    }
  }

  datatype Phase =
    | Next                                                // at the head of the loop
    | Waiting(startedAt: int, startedCancelled: bool)     // select on done and purgeCtx.Done()
    | Grace(startedAt: int, startedCancelled: bool, since: int, byDeadline: bool) // select on done and graceTimer
    | Finished

  datatype Ending = Done | DoneInGrace | Abandoned

  /** What the loop saw of one service, once it moved on. */
  datatype Visit = Visit(svc: nat, startedAt: int, startedCancelled: bool, ctxEndedAt: int, byDeadline: bool,
                         endedAt: int, ending: Ending)

  datatype State = State(
    now: int,
    cancelled: bool,          // the parent context
    at: nat,                  // index of the service the loop is at
    phase: Phase,
    started: seq<nat>,        // services whose Purge was started, in order
    running: set<nat>,        // goroutines whose Purge has not returned
    visits: seq<Visit>,
    expiries: nat)            // grace timers that fired

  ghost predicate Init(s: State) {
    s.at == 0 && s.phase == Next && s.started == [] && s.running == {} && s.visits == [] && s.expiries == 0
  }

  // The steps.

  ghost predicate SkipStep(c: Config, s: State, t: State) {
    s.phase == Next && s.at < |c.purgeable| && !c.purgeable[s.at] && t == s.(at := s.at + 1)
  }

  ghost predicate StartStep(c: Config, s: State, t: State) {
    s.phase == Next && s.at < |c.purgeable| && c.purgeable[s.at] &&
    t == s.(phase := Waiting(s.now, s.cancelled), started := s.started + [s.at], running := s.running + {s.at})
  }

  /** Some goroutine's Purge returns, possibly long after the loop gave up on it. */
  ghost predicate ReturnStep(c: Config, s: State, t: State) {
    exists g :: g in s.running && t == s.(running := s.running - {g})
  }

  ghost predicate CtxEnded(c: Config, s: State)
    requires s.phase.Waiting?
  {
    s.cancelled || s.now >= s.phase.startedAt + c.timeout
  }

  ghost predicate DoneStep(c: Config, s: State, t: State) {
    s.phase.Waiting? && s.at !in s.running &&
    t == s.(phase := Next, at := s.at + 1,
            visits := s.visits + [Visit(s.at, s.phase.startedAt, s.phase.startedCancelled, s.now, false, s.now, Done)])
  }

  /** The select may take the context's end although the goroutine is done as well. */
  ghost predicate CtxStep(c: Config, s: State, t: State) {
    s.phase.Waiting? && CtxEnded(c, s) &&
    t == s.(phase := Grace(s.phase.startedAt, s.phase.startedCancelled, s.now, s.now >= s.phase.startedAt + c.timeout))
  }

  ghost predicate DrainStep(c: Config, s: State, t: State) {
    s.phase.Grace? && s.at !in s.running &&
    t == s.(phase := Next, at := s.at + 1, visits := s.visits + [GraceVisit(s, DoneInGrace)])
  }

  ghost predicate ExpireStep(c: Config, s: State, t: State) {
    s.phase.Grace? && s.now >= s.phase.since + c.grace &&
    t == s.(phase := Next, at := s.at + 1, visits := s.visits + [GraceVisit(s, Abandoned)], expiries := s.expiries + 1)
  }

  function GraceVisit(s: State, ending: Ending): Visit
    requires s.phase.Grace?
  {
    Visit(s.at, s.phase.startedAt, s.phase.startedCancelled, s.phase.since, s.phase.byDeadline, s.now, ending)
  }

  ghost predicate FinishStep(c: Config, s: State, t: State) {
    s.phase == Next && s.at >= |c.purgeable| && t == s.(phase := Finished)
  }

  ghost predicate CancelStep(c: Config, s: State, t: State) {
    t == s.(cancelled := true)
  }

  ghost predicate PassStep(c: Config, s: State, t: State) {
    t.now > s.now && t == s.(now := t.now)
  }

  ghost predicate Step(c: Config, s: State, t: State) {
    || SkipStep(c, s, t) || StartStep(c, s, t) || ReturnStep(c, s, t) || DoneStep(c, s, t) || CtxStep(c, s, t)
    || DrainStep(c, s, t) || ExpireStep(c, s, t) || FinishStep(c, s, t) || CancelStep(c, s, t) || PassStep(c, s, t)
  }

  /** The loop reacts at once: no time passes while one of its own steps is enabled, and it
      does not pass the deadline the loop waits for. */
  ghost predicate Prompt(c: Config, s: State, t: State) {
    t.now > s.now ==>
      match s.phase
      case Next => false
      case Waiting(startedAt, _) => s.at in s.running && !s.cancelled && t.now <= startedAt + c.timeout
      case Grace(_, _, since, _) => s.at in s.running && t.now <= since + c.grace
      case Finished => true
  }

  ghost predicate Behaviour(c: Config, run: seq<State>) {
    run != [] && Init(run[0]) && forall k :: 0 < k < |run| ==> Step(c, run[k - 1], run[k])
  }

  ghost predicate PromptBehaviour(c: Config, run: seq<State>) {
    Behaviour(c, run) && forall k :: 0 < k < |run| ==> Prompt(c, run[k - 1], run[k])
  }

  // What every step keeps.

  /** Indices of the first `n` services that are purgeable. */
  function PurgeableUpTo(c: Config, n: nat): seq<nat>
    requires n <= |c.purgeable|
  {
    if n == 0 then [] else PurgeableUpTo(c, n - 1) + if c.purgeable[n - 1] then [n - 1] else []
  }

  predicate Busy(s: State) {
    s.phase.Waiting? || s.phase.Grace?
  }

  ghost predicate OrderInv(c: Config, s: State) {
    s.at <= |c.purgeable| &&
    (Busy(s) ==> s.at < |c.purgeable| && c.purgeable[s.at]) &&
    (s.phase == Finished ==> s.at == |c.purgeable|) &&
    s.started == PurgeableUpTo(c, if Busy(s) then s.at + 1 else s.at)
  }

  /** The goroutines still running were all started; apart from the current one, each was
      given up by a grace timer. */
  ghost predicate RunningInv(s: State, abandoned: set<nat>) {
    s.running <= abandoned + (if Busy(s) then {s.at} else {}) &&
    (forall g :: g in abandoned ==> g < s.at) && |abandoned| <= s.expiries
  }

  ghost predicate Leaks(s: State) {
    exists abandoned: set<nat> :: RunningInv(s, abandoned)
  }

  ghost predicate VisitOk(c: Config, v: Visit) {
    v.startedAt <= v.ctxEndedAt <= v.endedAt &&
    (v.byDeadline ==> v.ctxEndedAt >= v.startedAt + c.timeout) &&
    (v.ending == Abandoned ==> v.endedAt >= v.ctxEndedAt + c.grace)
  }

  ghost predicate CurrentOk(c: Config, s: State) {
    match s.phase
    case Waiting(startedAt, _) => startedAt <= s.now
    case Grace(startedAt, _, since, byDeadline) =>
      startedAt <= since <= s.now && (if byDeadline then since >= startedAt + c.timeout else s.cancelled)
    case _ => true
  }

  ghost predicate TimesInv(c: Config, s: State) {
    CurrentOk(c, s) && forall k :: 0 <= k < |s.visits| ==> VisitOk(c, s.visits[k])
  }

  /** The instant the loop last moved on is not after the instant it started the next service. */
  ghost predicate ChainInv(s: State) {
    (forall k :: 0 < k < |s.visits| ==> s.visits[k - 1].endedAt <= s.visits[k].startedAt) &&
    (s.visits != [] ==>
       s.visits[|s.visits| - 1].endedAt <= match s.phase
                                           case Waiting(startedAt, _) => startedAt
                                           case Grace(startedAt, _, _, _) => startedAt
                                           case _ => s.now)
  }

  ghost predicate OutcomeInv(s: State) {
    forall k :: 0 <= k < |s.visits| ==>
      var v := s.visits[k];
      v.svc < s.at && (v.ending != Abandoned ==> v.svc !in s.running) &&
      (v.ending == Abandoned && !v.byDeadline ==> s.cancelled)
  }

  function Visited(visits: seq<Visit>): (r: seq<nat>)
    ensures |r| == |visits| && forall k :: 0 <= k < |visits| ==> r[k] == visits[k].svc
  {
    if visits == [] then [] else Visited(visits[..|visits| - 1]) + [visits[|visits| - 1].svc]
  }

  ghost predicate PurgeableUpToMatches(c: Config, s: State) {
    s.at <= |c.purgeable| && Visited(s.visits) == PurgeableUpTo(c, s.at)
  }

  lemma VisitedSnoc(visits: seq<Visit>, v: Visit)
    ensures Visited(visits + [v]) == Visited(visits) + [v.svc]
  {
  }

  lemma OrderKept(c: Config, s: State, t: State)
    requires OrderInv(c, s) && Step(c, s, t)
    ensures OrderInv(c, t)
  {
  }

  lemma LeaksKept(c: Config, s: State, t: State)
    requires Leaks(s) && Step(c, s, t)
    ensures Leaks(t)
  {
    var a: set<nat> :| RunningInv(s, a);
    if ExpireStep(c, s, t) {
      assert RunningInv(t, a + {s.at});
    } else if DoneStep(c, s, t) || DrainStep(c, s, t) {
      assert RunningInv(t, a);
    } else {
      assert RunningInv(t, a);
    }
  }

  lemma TimesKept(c: Config, s: State, t: State)
    requires c.Valid() && TimesInv(c, s) && Step(c, s, t)
    ensures TimesInv(c, t)
  {
  }

  lemma ChainKept(c: Config, s: State, t: State)
    requires c.Valid() && TimesInv(c, s) && ChainInv(s) && Step(c, s, t)
    ensures ChainInv(t)
  {
    hide ReturnStep, VisitOk;
    if DoneStep(c, s, t) || DrainStep(c, s, t) || ExpireStep(c, s, t) {
      assert t.visits == s.visits + [t.visits[|s.visits|]];
    } else {
      SameVisits(c, s, t);
      SameClock(c, s, t);
    }
  }

  lemma SameClock(c: Config, s: State, t: State)
    requires Step(c, s, t) && t.visits == s.visits
    ensures t.now >= s.now
    ensures t.phase == s.phase || (s.phase == Next && t.phase == Waiting(s.now, s.cancelled)) ||
            (s.phase == Next && t.phase == Finished) ||
            (s.phase.Waiting? && t.phase.Grace? && t.phase.startedAt == s.phase.startedAt)
  {
  }

  lemma OutcomeKept(c: Config, s: State, t: State)
    requires OrderInv(c, s) && TimesInv(c, s) && OutcomeInv(s) && Step(c, s, t)
    ensures OutcomeInv(t)
  {
    if t.visits == s.visits {
    } else {
      assert t.visits[..|s.visits|] == s.visits;
    }
  }

  lemma MatchesKept(c: Config, s: State, t: State)
    requires OrderInv(c, s) && PurgeableUpToMatches(c, s) && Step(c, s, t)
    ensures PurgeableUpToMatches(c, t)
  {
    hide Visited, PurgeableUpTo, Leaks, ReturnStep;
    if DoneStep(c, s, t) || DrainStep(c, s, t) || ExpireStep(c, s, t) {
      VisitedSnoc(s.visits, t.visits[|s.visits|]);
      assert t.visits == s.visits + [t.visits[|s.visits|]];
      PurgeableUpToNext(c, s.at);
    } else if SkipStep(c, s, t) {
      PurgeableUpToNext(c, s.at);
    } else {
      assert t.at == s.at && t.visits == s.visits by { SameVisits(c, s, t); }
    }
  }

  lemma SameVisits(c: Config, s: State, t: State)
    requires Step(c, s, t) && !DoneStep(c, s, t) && !DrainStep(c, s, t) && !ExpireStep(c, s, t)
    ensures t.visits == s.visits && (t.at == s.at || SkipStep(c, s, t))
  {
  }

  lemma PurgeableUpToNext(c: Config, n: nat)
    requires n < |c.purgeable|
    ensures PurgeableUpTo(c, n + 1) == PurgeableUpTo(c, n) + if c.purgeable[n] then [n] else []
  {
  }

  ghost predicate Inv(c: Config, s: State) {
    OrderInv(c, s) && Leaks(s) && TimesInv(c, s) && ChainInv(s) && OutcomeInv(s) && PurgeableUpToMatches(c, s)
  }

  lemma InitInv(c: Config, s: State)
    requires Init(s)
    ensures Inv(c, s)
  {
    assert RunningInv(s, {});
  }

  lemma StepKeepsInv(c: Config, s: State, t: State)
    requires c.Valid() && Inv(c, s) && Step(c, s, t)
    ensures Inv(c, t)
  {
    hide Step, OrderInv, Leaks, TimesInv, ChainInv, OutcomeInv, PurgeableUpToMatches;
    OrderKept(c, s, t);
    LeaksKept(c, s, t);
    TimesKept(c, s, t);
    ChainKept(c, s, t);
    OutcomeKept(c, s, t);
    MatchesKept(c, s, t);
  }

  lemma {:induction false} BehaviourKeepsInv(c: Config, run: seq<State>, k: nat)
    requires c.Valid() && Behaviour(c, run) && k < |run|
    ensures Inv(c, run[k])
  {
    hide Step, Inv, Init;
    if k == 0 {
      InitInv(c, run[0]);
    } else {
      BehaviourKeepsInv(c, run, k - 1);
      StepKeepsInv(c, run[k - 1], run[k]);
    }
  }

  // The results, for every interleaving.

  lemma {:induction false} PurgeableUpToExact(c: Config, n: nat)
    requires n <= |c.purgeable|
    ensures var p := PurgeableUpTo(c, n);
            (forall i, j :: 0 <= i < j < |p| ==> p[i] < p[j]) &&
            forall k: nat :: k in p <==> k < n && c.purgeable[k]
  {
    if n > 0 {
      PurgeableUpToExact(c, n - 1);
      var q := PurgeableUpTo(c, n - 1);
      forall i | 0 <= i < |q| ensures q[i] < n - 1 { assert q[i] in q; }
      forall k: nat ensures k in PurgeableUpTo(c, n) <==> k < n && c.purgeable[k] {
        assert k in PurgeableUpTo(c, n) <==> k in q || (c.purgeable[n - 1] && k == n - 1);
      }
    }
  }

  /** At every moment the started services are the purgeable ones up to the loop's position,
      each once and in list order; a finished cycle has started all of them, whether or not
      the parent context was cancelled on the way. */
  lemma EachPurgeableStartedOnce(c: Config, run: seq<State>, k: nat)
    requires c.Valid() && Behaviour(c, run) && k < |run|
    ensures var started := run[k].started;
            (forall i, j :: 0 <= i < j < |started| ==> started[i] < started[j]) &&
            (forall g :: g in started ==> g < |c.purgeable| && c.purgeable[g]) &&
            (run[k].phase == Finished ==> forall g: nat :: g < |c.purgeable| && c.purgeable[g] ==> g in started)
  {
    hide Behaviour, Leaks, TimesInv, ChainInv, OutcomeInv, PurgeableUpToMatches, PurgeableUpTo;
    BehaviourKeepsInv(c, run, k);
    var s := run[k];
    var n := if Busy(s) then s.at + 1 else s.at;
    assert s.started == PurgeableUpTo(c, n);
    PurgeableUpToExact(c, n);
  }

  lemma SubsetSize(a: set<nat>, b: set<nat>)
    requires a <= b
    ensures |a| <= |b|
  {
    if a != {} {
      var x :| x in a;
      SubsetSize(a - {x}, b - {x});
    }
  }

  /** Unfinished purges never exceed the grace timers that fired plus the current one. */
  lemma UnfinishedAreBounded(c: Config, run: seq<State>, k: nat)
    requires c.Valid() && Behaviour(c, run) && k < |run|
    ensures |run[k].running| <= run[k].expiries + 1
  {
    BehaviourKeepsInv(c, run, k);
    var s := run[k];
    var a: set<nat> :| RunningInv(s, a);
    SubsetSize(s.running, a + {s.at});
  }

  /** The loop moves from one purgeable service to the next only after the goroutine
      finished, or after its context ended (by the deadline, or because the parent was
      cancelled) and the whole grace period ran out on top. */
  lemma NextStartsAfterPrevious(c: Config, run: seq<State>, k: nat, i: nat)
    requires c.Valid() && Behaviour(c, run) && k < |run| && i < |run[k].visits|
    ensures var s := run[k]; var v := s.visits[i];
            s.at <= |c.purgeable| && v.svc == Visited(s.visits)[i] && Visited(s.visits) == PurgeableUpTo(c, s.at) &&
            (i + 1 < |s.visits| ==> v.endedAt <= s.visits[i + 1].startedAt) &&
            (i + 1 == |s.visits| && s.phase.Waiting? ==> v.endedAt <= s.phase.startedAt) &&
            (v.ending != Abandoned ==> v.svc !in s.running) &&
            (v.ending == Abandoned ==>
               v.endedAt >= v.ctxEndedAt + c.grace &&
               (s.cancelled || v.endedAt >= v.startedAt + c.timeout + c.grace))
  {
    BehaviourKeepsInv(c, run, k);
    assert VisitOk(c, run[k].visits[i]);
  }

  // Time bounds for a loop that reacts at once.

  ghost predicate PromptVisit(c: Config, v: Visit) {
    v.endedAt - v.startedAt <= (if v.startedCancelled then 0 else c.timeout) + c.grace
  }

  ghost predicate PromptPhase(c: Config, s: State) {
    match s.phase
    case Waiting(startedAt, startedCancelled) =>
      s.now <= startedAt + c.timeout && (startedCancelled ==> s.cancelled && s.now == startedAt)
    case Grace(startedAt, startedCancelled, since, _) =>
      s.now <= since + c.grace && since <= startedAt + (if startedCancelled then 0 else c.timeout)
    case _ => true
  }

  ghost predicate PromptInv(c: Config, t0: int, s: State) {
    (forall k :: 0 <= k < |s.visits| ==>
       PromptVisit(c, s.visits[k]) && s.visits[k].endedAt <= t0 + (k + 1) * (c.timeout + c.grace)) &&
    PromptPhase(c, s) &&
    match s.phase
    case Next => s.now <= t0 + |s.visits| * (c.timeout + c.grace)
    case Waiting(startedAt, _) => startedAt <= t0 + |s.visits| * (c.timeout + c.grace)
    case Grace(startedAt, _, _, _) => startedAt <= t0 + |s.visits| * (c.timeout + c.grace)
    case Finished => true
  }

  lemma PromptPhaseKept(c: Config, s: State, t: State)
    requires c.Valid() && PromptPhase(c, s) && Step(c, s, t) && Prompt(c, s, t)
    ensures PromptPhase(c, t)
    ensures |t.visits| == |s.visits| + 1 ==> PromptVisit(c, t.visits[|s.visits|])
  {
  }

  lemma OneMore(n: int, d: int)
    ensures (n + 1) * d == n * d + d
  {
  }

  lemma PromptKept(c: Config, t0: int, s: State, t: State)
    requires c.Valid() && PromptInv(c, t0, s) && Step(c, s, t) && Prompt(c, s, t)
    ensures PromptInv(c, t0, t)
  {
    PromptPhaseKept(c, s, t);
    OneMore(|s.visits|, c.timeout + c.grace);
    if t.visits != s.visits {
      assert t.visits[..|s.visits|] == s.visits;
      assert t.visits[|s.visits|].endedAt == s.now;
    }
  }

  lemma {:induction false} PromptBehaviourKeeps(c: Config, run: seq<State>, k: nat)
    requires c.Valid() && PromptBehaviour(c, run) && k < |run|
    ensures PromptInv(c, run[0].now, run[k])
  {
    hide Step, Prompt;
    if k > 0 {
      PromptBehaviourKeeps(c, run, k - 1);
      PromptKept(c, run[0].now, run[k - 1], run[k]);
    }
  }

  /** A prompt loop spends at most timeout plus grace on each service, and only the grace
      period on a service it reaches after cancellation; so it is done with n purgeable
      services at most n times (timeout plus grace) after it began. */
  lemma CycleTimeIsBounded(c: Config, run: seq<State>, k: nat, i: nat)
    requires c.Valid() && PromptBehaviour(c, run) && k < |run| && i < |run[k].visits|
    ensures var v := run[k].visits[i];
            v.endedAt - run[0].now <= (i + 1) * (c.timeout + c.grace) &&
            v.endedAt - v.startedAt <= c.timeout + c.grace &&
            (v.startedCancelled ==> v.endedAt - v.startedAt <= c.grace)
  {
    PromptBehaviourKeeps(c, run, k);
    assert PromptVisit(c, run[k].visits[i]);
  }

  /** A whole cycle of a loop that reacts at once, from its first state to the one in which
      the loop returns. */
  ghost predicate CompleteCycle(c: Config, run: seq<State>) {
    PromptBehaviour(c, run) && run[|run| - 1].phase == Finished &&
    forall k :: 0 <= k < |run| - 1 ==> run[k].phase != Finished
  }

  lemma FinishedByFinish(c: Config, s: State, t: State)
    requires Step(c, s, t) && s.phase != Finished && t.phase == Finished
    ensures s.phase == Next && s.at >= |c.purgeable| && t.now == s.now && t.visits == s.visits
  {
  }

  lemma VisitsAtHead(c: Config, s: State)
    requires Inv(c, s) && s.at >= |c.purgeable|
    ensures |s.visits| == |PurgeableUpTo(c, |c.purgeable|)|
  {
    hide Leaks, TimesInv, ChainInv, OutcomeInv, PurgeableUpTo;
  }

  /** The cycle is over at most n times (timeout plus grace) after it began, for n purgeable
      services. */
  lemma CycleEndsInTime(c: Config, run: seq<State>)
    requires c.Valid() && CompleteCycle(c, run)
    ensures run[|run| - 1].now - run[0].now <= |PurgeableUpTo(c, |c.purgeable|)| * (c.timeout + c.grace)
  {
    hide Step, Prompt, Inv, PurgeableUpTo;
    var k := |run| - 1;
    assert Step(c, run[k - 1], run[k]);
    FinishedByFinish(c, run[k - 1], run[k]);
    PromptBehaviourKeeps(c, run, k - 1);
    BehaviourKeepsInv(c, run, k - 1);
    VisitsAtHead(c, run[k - 1]);
  }
}
