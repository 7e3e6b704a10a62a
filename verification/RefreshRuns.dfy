/**
 Particular runs of the refresh protocol: each run of the one-process method
 is one, and each losing step occurs in one.
 */
module RefreshRuns {
  import opened Wrappers
  import opened ProSession
  import opened RefreshProtocol

  // ---------------------------------------------------------------------
  // One process on its own
  // ---------------------------------------------------------------------

  /** Process `p` takes `w` to `w'` by these steps of its own. */
  ghost predicate Reaches(lead: int, p: ProcessId, w: World, actions: seq<Action>, w': World)
    decreases |actions|
  {
    if actions == [] then w' == w
    else exists m :: Step(lead, w, p, actions[0], m) && Reaches(lead, p, m, actions[1..], w')
  }

  lemma {:induction false} ReachesAppend(
    lead: int, p: ProcessId, w: World, a: seq<Action>, m: World, b: seq<Action>, w': World)
    requires Reaches(lead, p, w, a, m) && Reaches(lead, p, m, b, w')
    ensures Reaches(lead, p, w, a + b, w')
    decreases |a|
  {
    hide Step;
    if a == [] {
      assert a + b == b;
    } else {
      var n :| Step(lead, w, p, a[0], n) && Reaches(lead, p, n, a[1..], m);
      ReachesAppend(lead, p, n, a[1..], m, b, w');
      assert (a + b)[1..] == a[1..] + b;
    }
  }

  /** One more step at the end. */
  lemma ReachesStep(lead: int, p: ProcessId, w: World, a: seq<Action>, m: World, action: Action, w': World)
    requires Reaches(lead, p, w, a, m) && Step(lead, m, p, action, w')
    ensures Reaches(lead, p, w, a + [action], w')
  {
    hide Step;
    assert [action][1..] == [];
    assert Reaches(lead, p, w', [], w');
    assert Reaches(lead, p, m, [action], w');
    ReachesAppend(lead, p, w, a, m, [action], w');
  }

  function Storing(w: World, p: ProcessId, sent: nat, tokens: TokenSet, before: Files, n: nat): World
    requires n <= |Targets(sent, tokens)|
  {
    With(w, p, Writing(sent, tokens, before, n, false)).(
      files := WriteTargets(before, tokens, Targets(sent, tokens)[..n]))
  }

  /** One write, staged and renamed. */
  lemma WriteIsSteps(lead: int, w: World, p: ProcessId, sent: nat, tokens: TokenSet, before: Files, n: nat)
    returns (staged: World)
    requires p in w.processes && n < |Targets(sent, tokens)|
    ensures Step(lead, Storing(w, p, sent, tokens, before, n), p, Stage, staged)
    ensures Step(lead, staged, p, Rename, Storing(w, p, sent, tokens, before, n + 1))
  {
    hide Targets, WriteTargets, WriteTarget;
    var start, end := Storing(w, p, sent, tokens, before, n), Storing(w, p, sent, tokens, before, n + 1);
    staged := With(start, p, Writing(sent, tokens, before, n, true));
    WriteOneMore(before, tokens, Targets(sent, tokens), n);
    assert end.processes == With(staged, p, end.processes[p]).processes;
  }

  /** The first `n` writes of a grant. */
  lemma {:induction false} WritesAreSteps(
    lead: int, w: World, p: ProcessId, sent: nat, tokens: TokenSet, before: Files, n: nat)
    returns (actions: seq<Action>)
    requires p in w.processes && n <= |Targets(sent, tokens)|
    ensures Reaches(lead, p, Storing(w, p, sent, tokens, before, 0), actions, Storing(w, p, sent, tokens, before, n))
  {
    hide Reaches, Targets, Storing, Step;
    var first := Storing(w, p, sent, tokens, before, 0);
    if n == 0 {
      actions := [];
      NoSteps(lead, p, first);
    } else {
      actions := WritesAreSteps(lead, w, p, sent, tokens, before, n - 1);
      var staged := WriteIsSteps(lead, w, p, sent, tokens, before, n - 1);
      ReachesStep(lead, p, first, actions, Storing(w, p, sent, tokens, before, n - 1), Stage, staged);
      ReachesStep(lead, p, first, actions + [Stage], staged, Rename, Storing(w, p, sent, tokens, before, n));
      actions := actions + [Stage] + [Rename];
    }
  }

  /** The run has ended with this outcome and left these files. */
  predicate EndsAs(w: World, p: ProcessId, outcome: (Result<Outcome, RefreshError>, Files)) {
    p in w.processes && w.processes[p] == Finished(EndingOf(outcome.0)) && w.files == outcome.1
  }

  ghost predicate CanEndAs(lead: int, w: World, p: ProcessId, outcome: (Result<Outcome, RefreshError>, Files)) {
    exists actions, w' :: Reaches(lead, p, w, actions, w') && EndsAs(w', p, outcome)
  }

  /** The world once the unlocked check is over, `later` by the clock. */
  function Checked(lead: int, w: World, p: ProcessId, later: nat): World {
    With(w, p, if NeedsRefresh(w.files, w.now, lead) then Waiting else Finished(Answered(NotNeeded))).(
      now := w.now + later)
  }

  /** The unlocked check: the clock counts as it was before the reads, however long they take. */
  lemma CheckIsSteps(lead: int, w: World, p: ProcessId, first: nat, second: nat)
    requires p in w.processes && w.processes[p].Entry?
    ensures Reaches(lead, p, w, [ReadClock, Tick(first), ReadAccess, Tick(second), ReadIdToken],
                    Checked(lead, w, p, first + second))
  {
    hide Reaches;
    var a := With(w, p, Sampled(w.now));
    var b := a.(now := a.now + first);
    var c := With(b, p, SawAccess(w.now, Exp(w.files.access)));
    var d := c.(now := c.now + second);
    var e := With(d, p, Checked(lead, w, p, 0).processes[p]);
    NoSteps(lead, p, w);
    ReachesStep(lead, p, w, [], w, ReadClock, a);
    ReachesStep(lead, p, w, [] + [ReadClock], a, Tick(first), b);
    ReachesStep(lead, p, w, [] + [ReadClock] + [Tick(first)], b, ReadAccess, c);
    ReachesStep(lead, p, w, [] + [ReadClock] + [Tick(first)] + [ReadAccess], c, Tick(second), d);
    var actions := [] + [ReadClock] + [Tick(first)] + [ReadAccess] + [Tick(second)];
    ReachesStep(lead, p, w, actions, d, ReadIdToken, e);
    assert actions + [ReadIdToken] == [ReadClock, Tick(first), ReadAccess, Tick(second), ReadIdToken];
    assert e == Checked(lead, w, p, first + second);
  }

  lemma NoSteps(lead: int, p: ProcessId, w: World)
    ensures Reaches(lead, p, w, [], w)
  {
  }

  /** The world a waiting process meets is the one its surroundings describe. */
  predicate Meets(w: World, p: ProcessId, s: Surroundings) {
    && p in w.processes && w.processes[p].Waiting? && w.lock.None?
    && w.files == s.peer && w.now == s.nowLocked && s.nowLocked <= s.nowRead
    && (w.files.refresh.Some? && s.exchange(w.files.refresh.value).Granted? ==> w.files.refresh.value == w.live)
  }

  /** With the lock, up to the token that is sent. */
  lemma LockIsSteps(lead: int, w: World, p: ProcessId, s: Surroundings) returns (actions: seq<Action>, m: World)
    requires Meets(w, p, s) && NeedsRefresh(w.files, w.now, lead) && w.files.refresh.Some?
    ensures Reaches(lead, p, w, actions, m)
    ensures m == With(w, p, Sending(w.files.refresh.value)).(lock := Some(p), now := s.nowRead)
  {
    hide Reaches, NeedsRefresh;
    var a := With(w, p, Holding).(lock := Some(p));
    var b := With(a, p, Rechecked);
    var c := b.(now := s.nowRead);
    m := With(c, p, Sending(w.files.refresh.value));
    NoSteps(lead, p, w);
    ReachesStep(lead, p, w, [], w, Acquire, a);
    ReachesStep(lead, p, w, [] + [Acquire], a, Recheck, b);
    ReachesStep(lead, p, w, [] + [Acquire] + [Recheck], b, Tick(s.nowRead - s.nowLocked), c);
    actions := [] + [Acquire] + [Recheck] + [Tick(s.nowRead - s.nowLocked)];
    ReachesStep(lead, p, w, actions, c, ReadToken, m);
    actions := actions + [ReadToken];
    assert m == With(w, p, Sending(w.files.refresh.value)).(lock := Some(p), now := s.nowRead);
  }

  lemma EndsBy(lead: int, w: World, p: ProcessId, actions: seq<Action>, m: World, action: Action, w': World,
               outcome: (Result<Outcome, RefreshError>, Files))
    requires Reaches(lead, p, w, actions, m) && Step(lead, m, p, action, w') && EndsAs(w', p, outcome)
    ensures CanEndAs(lead, w, p, outcome)
  {
    hide Step, Reaches, EndsAs;
    ReachesStep(lead, p, w, actions, m, action, w');
  }

  /** Nothing to refresh any more, or nothing to refresh with. */
  lemma LockedWithoutExchange(lead: int, w: World, p: ProcessId, s: Surroundings)
    requires Meets(w, p, s)
    requires !NeedsRefresh(w.files, w.now, lead) || w.files.refresh.None?
    ensures CanEndAs(lead, w, p, LockedAttempt(lead, s))
  {
    hide Reaches, NeedsRefresh;
    var outcome := LockedAttempt(lead, s);
    var a := With(w, p, Holding).(lock := Some(p));
    NoSteps(lead, p, w);
    ReachesStep(lead, p, w, [], w, Acquire, a);
    if !NeedsRefresh(w.files, w.now, lead) {
      EndsBy(lead, w, p, [] + [Acquire], a, Recheck, Finish(a, p, EndingOf(outcome.0)), outcome);
    } else {
      var b := With(a, p, Rechecked);
      var c := b.(now := s.nowRead);
      ReachesStep(lead, p, w, [] + [Acquire], a, Recheck, b);
      ReachesStep(lead, p, w, [] + [Acquire] + [Recheck], b, Tick(s.nowRead - s.nowLocked), c);
      var actions := [] + [Acquire] + [Recheck] + [Tick(s.nowRead - s.nowLocked)];
      EndsBy(lead, w, p, actions, c, ReadToken, Finish(c, p, EndingOf(outcome.0)), outcome);
    }
  }

  lemma LockedWithExchange(lead: int, w: World, p: ProcessId, s: Surroundings)
    requires Meets(w, p, s) && NeedsRefresh(w.files, w.now, lead) && w.files.refresh.Some?
    ensures CanEndAs(lead, w, p, LockedAttempt(lead, s))
  {
    hide Reaches, NeedsRefresh, Targets, WriteTargets;
    var sent, outcome := w.files.refresh.value, LockedAttempt(lead, s);
    var actions, m := LockIsSteps(lead, w, p, s);
    match s.exchange(sent) {
      case Rejected =>
        EndsBy(lead, w, p, actions, m, Reject(s.removable),
               Finish(m, p, Failed(SessionExpired)).(files := outcome.1), outcome);
      case Transient =>
        EndsBy(lead, w, p, actions, m, LoseReply(None), Finish(m, p, Failed(ExchangeFailed)), outcome);
      case Granted(tokens) =>
        var g := With(m, p, Writing(sent, tokens, w.files, 0, false)).(live := LiveAfter(w.live, tokens));
        ReachesStep(lead, p, w, actions, m, Grant(tokens), g);
        GrantEnds(lead, w, p, s, actions + [Grant(tokens)], g, tokens);
    }
  }

  /** After a grant: the writes that succeed, then completion or the failure. */
  lemma GrantEnds(lead: int, w: World, p: ProcessId, s: Surroundings, actions: seq<Action>, g: World, tokens: TokenSet)
    requires Meets(w, p, s) && NeedsRefresh(w.files, w.now, lead) && w.files.refresh.Some?
    requires s.exchange(w.files.refresh.value) == Granted(tokens)
    requires Reaches(lead, p, w, actions, g) && p in g.processes && g.files == w.files
    requires g.processes[p] == Writing(w.files.refresh.value, tokens, w.files, 0, false)
    ensures CanEndAs(lead, w, p, LockedAttempt(lead, s))
  {
    hide Reaches, NeedsRefresh, Targets, WriteTargets, AfterGrant;
    var sent, outcome := w.files.refresh.value, LockedAttempt(lead, s);
    var n := |Targets(sent, tokens)|;
    var written := if s.store >= n then n else if s.late then s.store + 1 else s.store;
    GrantPrefixes(w.files, sent, tokens);
    assert g.processes == g.processes[p := g.processes[p]];
    assert g == Storing(g, p, sent, tokens, w.files, 0);
    var writes := WritesAreSteps(lead, g, p, sent, tokens, w.files, written);
    var stored := Storing(g, p, sent, tokens, w.files, written);
    ReachesAppend(lead, p, w, actions, g, writes, stored);
    if s.store >= n {
      EndsBy(lead, w, p, actions + writes, stored, Complete, Finish(stored, p, Answered(Refreshed)), outcome);
    } else {
      EndsBy(lead, w, p, actions + writes, stored, StoreError, Finish(stored, p, Failed(StoreFailed)), outcome);
    }
  }

  /**
   Whatever `SessionStore.RefreshProTokens` answers and leaves on disk is what
   steps of the protocol answer and leave for one process: those of the
   unlocked check, and after whatever peers have made of the world meanwhile,
   those under the lock.
   */
  lemma AttemptIsRun(
    lead: int, w: World, p: ProcessId, first: nat, second: nat, s: Surroundings, later: World)
    requires p in w.processes && w.processes[p].Entry?
    requires if s.lockAcquired then Meets(later, p, s)
             else p in later.processes && later.processes[p].Waiting? && later.files == w.files
    ensures var outcome := Attempt(w.files, w.now, lead, s);
            if NeedsRefresh(w.files, w.now, lead)
            then Reaches(lead, p, w, [ReadClock, Tick(first), ReadAccess, Tick(second), ReadIdToken],
                         With(w, p, Waiting).(now := w.now + first + second))
                 && CanEndAs(lead, later, p, outcome)
            else CanEndAs(lead, w, p, outcome)
  {
    hide Reaches, NeedsRefresh, LockedAttempt;
    CheckIsSteps(lead, w, p, first, second);
    var outcome := Attempt(w.files, w.now, lead, s);
    if !NeedsRefresh(w.files, w.now, lead) {
      assert EndsAs(Checked(lead, w, p, first + second), p, outcome);
    } else if !s.lockAcquired {
      NoSteps(lead, p, later);
      EndsBy(lead, later, p, [], later, LockError, With(later, p, Finished(Failed(LockFailed))), outcome);
    } else if NeedsRefresh(later.files, later.now, lead) && later.files.refresh.Some? {
      LockedWithExchange(lead, later, p, s);
    } else {
      LockedWithoutExchange(lead, later, p, s);
    }
  }

  // ---------------------------------------------------------------------
  // The losing steps occur
  // ---------------------------------------------------------------------

  /** An expired access token, and the live refresh token. */
  const FILES: Files := Files(Some(Token(0, Some(0))), None, Some(0))

  const ROTATION: TokenSet := TokenSet(Some(Token(1, Some(9))), None, Some(1))

  const START: World := World(FILES, 0, None, map[0 := Entry], 0)

  const SENDING: World := World(FILES, 0, Some(0), map[0 := Sending(0)], 0)

  /** Steps of one process prolong a run. */
  lemma {:induction false} StepsExtendRun(
    lead: int, trace: seq<World>, events: seq<Event>, p: ProcessId, actions: seq<Action>, w': World)
    returns (longer: seq<World>, more: seq<Event>)
    requires Run(lead, trace, events) && Reaches(lead, p, trace[|events|], actions, w')
    ensures Run(lead, longer, more) && longer[0] == trace[0] && longer[|more|] == w'
    decreases |actions|
  {
    hide Step;
    longer, more := trace, events;
    if actions != [] {
      var m :| Step(lead, trace[|events|], p, actions[0], m) && Reaches(lead, p, m, actions[1..], w');
      RunExtends(lead, trace, events, Event(p, actions[0]), m);
      assert (trace + [m])[0] == trace[0] && (trace + [m])[|events| + 1] == m;
      longer, more := StepsExtendRun(lead, trace + [m], events + [Event(p, actions[0])], p, actions[1..], w');
    }
  }

  /** A run in which the process has sent its token. */
  lemma SendingIsReached() returns (trace: seq<World>, events: seq<Event>)
    ensures Run(0, trace, events) && trace[0] == START && trace[|events|] == SENDING
  {
    hide Reaches;
    var s := Surroundings(true, FILES, 0, 0, token => Transient, true, 0, false);
    var waiting := With(START, 0, Waiting);
    assert NeedsRefresh(FILES, 0, 0);
    CheckIsSteps(0, START, 0, 0, 0);
    var actions, m := LockIsSteps(0, waiting, 0, s);
    assert map[0 := Entry][0 := Waiting][0 := Sending(0)] == map[0 := Sending(0)];
    assert Run(0, [START], []);
    var check := [ReadClock, Tick(0), ReadAccess, Tick(0), ReadIdToken];
    trace, events := StepsExtendRun(0, [START], [], 0, check, waiting);
    trace, events := StepsExtendRun(0, trace, events, 0, actions, m);
  }

  /** The session is renewable up to the last step of the run, and not after it. */
  ghost predicate StrandedBy(lead: int, trace: seq<World>, events: seq<Event>, action: Action) {
    && Run(lead, trace, events) && events != []
    && events[|events| - 1].action == action
    && TokenLive(trace[0]) && TokenLive(trace[|events| - 1]) && !TokenLive(trace[|events|])
  }

  lemma StrandsAtOnce(trace: seq<World>, events: seq<Event>, e: Event, w': World)
    requires Run(0, trace, events) && TokenLive(trace[0]) && TokenLive(trace[|events|])
    requires Step(0, trace[|events|], e.process, e.action, w') && Loses(trace[|events|], e.process, e.action)
    ensures StrandedBy(0, trace + [w'], events + [e], e.action)
  {
    RunKeepsInvariant(0, trace, events, |events|);
    LiveUnlessLost(0, trace[|events|], e.process, e.action, w');
    RunExtends(0, trace, events, e, w');
    assert (trace + [w'])[0] == trace[0];
  }

  lemma StrandedWhileSending(action: Action)
    requires action in {LoseReply(Some(1)), Reject(true)}
    ensures exists trace, events :: StrandedBy(0, trace, events, action)
  {
    hide Run, StrandedBy;
    var trace, events := SendingIsReached();
    var end := if action.Reject? then Finish(SENDING, 0, Failed(SessionExpired)).(files := FILES.(refresh := None))
               else Finish(SENDING, 0, Failed(ExchangeFailed)).(live := 1);
    StrandsAtOnce(trace, events, Event(0, action), end);
  }

  lemma StrandedBeforeRename(action: Action)
    requires action in {Stop, StoreError}
    ensures exists trace, events :: StrandedBy(0, trace, events, action)
  {
    hide Run, StrandedBy;
    var trace, events := SendingIsReached();
    var grant := Event(0, Grant(ROTATION));
    var granted := With(SENDING, 0, Writing(0, ROTATION, FILES, 0, false)).(live := 1);
    RunExtends(0, trace, events, grant, granted);
    assert (trace + [granted])[0] == START && (trace + [granted])[|events| + 1] == granted;
    var end := Finish(granted, 0, if action.Stop? then Died else Failed(StoreFailed));
    StrandsAtOnce(trace + [granted], events + [grant], Event(0, action), end);
  }

  /** A run for every kind of losing step: each of them does strand a session. */
  lemma EachLosingStepOccurs(action: Action)
    requires action in {Stop, StoreError, LoseReply(Some(1)), Reject(true)}
    ensures exists trace, events :: StrandedBy(0, trace, events, action)
  {
    if action.Reject? || action.LoseReply? {
      StrandedWhileSending(action);
    } else {
      StrandedBeforeRename(action);
    }
  }
}
