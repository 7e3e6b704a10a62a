/**
 Any number of processes running the Pro token refresh over shared files, one
 lock and an IdP that may rotate the refresh token, with crashes and I/O
 errors at any step (src/auth/pro_refresh.rs).
 */
module RefreshProtocol {
  import opened Wrappers
  import opened ProSession

  type ProcessId = nat

  datatype Ending = Answered(outcome: Outcome) | Failed(error: RefreshError) | Died

  datatype Process =
    | Entry
    | Sampled(at: int)
    | SawAccess(at: int, access: Option<int>)
    | Waiting
    | Holding
    | Rechecked
    | Sending(token: nat)
    | Writing(sent: nat, tokens: TokenSet, before: Files, written: nat, staged: bool)
    | Finished(ending: Ending)

  /** `live` is the one refresh token the IdP accepts. */
  datatype World = World(
    files: Files,
    live: nat,
    lock: Option<ProcessId>,
    processes: map<ProcessId, Process>,
    now: int)

  datatype Action =
    | ReadClock             // unlocked check: the clock is read before the files
    | ReadAccess            // unlocked check, first file
    | ReadIdToken           // unlocked check, second file, and the decision
    | Acquire
    | LockError
    | Recheck               // under the lock no file changes between the clock and the reads
    | ReadToken
    | Grant(tokens: TokenSet)
    | Reject(removed: bool)
    | LoseReply(rotatedTo: Option<nat>)
    | Stage                 // the temporary file of the next target is complete
    | Rename
    | StoreError            // before a rename, or after it: file mode, directory sync
    | Complete
    | Stop                  // the process dies
    | Tick(elapsed: nat)

  predicate Critical(p: Process) {
    p.Holding? || p.Rechecked? || p.Sending? || p.Writing?
  }

  function With(w: World, p: ProcessId, proc: Process): World {
    w.(processes := w.processes[p := proc])
  }

  function Finish(w: World, p: ProcessId, ending: Ending): World {
    With(w, p, Finished(ending)).(lock := None)
  }

  function LiveAfter(live: nat, tokens: TokenSet): nat {
    if tokens.refresh.Some? then tokens.refresh.value else live
  }

  function EndingOf(r: Result<Outcome, RefreshError>): Ending {
    match r
    case Success(outcome) => Answered(outcome)
    case Failure(error) => Failed(error)
  }

  /** One step of process `p`; `lead` is the configured refresh lead. */
  ghost predicate Step(lead: int, w: World, p: ProcessId, action: Action, w': World) {
    && p in w.processes
    && var proc := w.processes[p];
       match action
       case ReadClock =>
         proc.Entry? && w' == With(w, p, Sampled(w.now))
       case ReadAccess =>
         proc.Sampled? && w' == With(w, p, SawAccess(proc.at, Exp(w.files.access)))
       case ReadIdToken =>
         && proc.SawAccess?
         && w' == With(w, p, if NearExpiry(Earliest(proc.access, Exp(w.files.idToken)), proc.at, lead)
                             then Waiting else Finished(Answered(NotNeeded)))
       case Acquire =>
         proc.Waiting? && w.lock.None? && w' == With(w, p, Holding).(lock := Some(p))
       case LockError =>
         proc.Waiting? && w' == With(w, p, Finished(Failed(LockFailed)))
       case Recheck =>
         && proc.Holding?
         && w' == if NeedsRefresh(w.files, w.now, lead) then With(w, p, Rechecked)
                  else Finish(w, p, Answered(SkippedRefreshedByPeer))
       case ReadToken =>
         && proc.Rechecked?
         && w' == if w.files.refresh.Some? then With(w, p, Sending(w.files.refresh.value))
                  else Finish(w, p, EndingOf(WithoutRefreshToken(w.files, w.now)))
       case Grant(tokens) =>
         // Only the live token is honoured; granting a new one retires it.
         && proc.Sending? && proc.token == w.live
         && w' == With(w, p, Writing(proc.token, tokens, w.files, 0, false)).(live := LiveAfter(w.live, tokens))
       case Reject(removed) =>
         // Removing the rejected token is best effort.
         && proc.Sending?
         && w' == Finish(w, p, Failed(SessionExpired)).(files := if removed then w.files.(refresh := None) else w.files)
       case LoseReply(rotatedTo) =>
         // Transient failure; the IdP may have rotated before the reply was lost.
         && proc.Sending? && (rotatedTo.Some? ==> proc.token == w.live)
         && w' == Finish(w, p, Failed(ExchangeFailed)).(live := if rotatedTo.Some? then rotatedTo.value else w.live)
       case Stage =>
         && proc.Writing? && !proc.staged && proc.written < |Targets(proc.sent, proc.tokens)|
         && w' == With(w, p, proc.(staged := true))
       case Rename =>
         && proc.Writing? && proc.staged
         && var targets := Targets(proc.sent, proc.tokens);
            && proc.written < |targets|
            && w' == With(w, p, proc.(written := proc.written + 1, staged := false)).(
                       files := WriteTarget(w.files, proc.tokens, targets[proc.written]))
       case StoreError =>
         proc.Writing? && w' == Finish(w, p, Failed(StoreFailed))
       case Complete =>
         && proc.Writing? && proc.written == |Targets(proc.sent, proc.tokens)|
         && w' == Finish(w, p, Answered(Refreshed))
       case Stop =>
         && !proc.Finished?
         && w' == (if Critical(proc) then Finish(w, p, Died) else With(w, p, Finished(Died)))
       case Tick(elapsed) =>
         w' == w.(now := w.now + elapsed)
  }

  // ---------------------------------------------------------------------
  // Mutual exclusion and the state of the files
  // ---------------------------------------------------------------------

  ghost predicate Locked(w: World) {
    && (forall p :: p in w.processes && Critical(w.processes[p]) ==> w.lock == Some(p))
    && (w.lock.Some? ==> w.lock.value in w.processes && Critical(w.processes[w.lock.value]))
  }

  /** What the lock holder knows about the files. */
  predicate HolderOk(w: World, proc: Process) {
    match proc
    case Sending(token) => w.files.refresh == Some(token)
    case Writing(sent, tokens, before, written, _) =>
      && written <= |Targets(sent, tokens)|
      && before.refresh == Some(sent)
      && w.live == LiveAfter(sent, tokens)
      && w.files == WriteTargets(before, tokens, Targets(sent, tokens)[..written])
    case _ => true
  }

  ghost predicate Invariant(w: World) {
    Locked(w) && (w.lock.Some? ==> HolderOk(w, w.processes[w.lock.value]))
  }

  /** Is the rotated token granted but not yet renamed into place? */
  predicate RotationPending(proc: Process) {
    proc.Writing? && Rotates(proc.sent, proc.tokens) && proc.written == 0
  }

  /** The stored refresh token, or the one about to be stored, is the live one: the session can be renewed. */
  ghost predicate TokenLive(w: World) {
    if HasPendingRotation(w) then w.processes[w.lock.value].tokens.refresh == Some(w.live)
    else w.files.refresh == Some(w.live)
  }

  /** No stored token but the live one; the file may also be gone. */
  ghost predicate NoStaleToken(w: World) {
    TokenLive(w) || (!HasPendingRotation(w) && w.files.refresh.None?)
  }

  ghost predicate HasPendingRotation(w: World) {
    w.lock.Some? && w.lock.value in w.processes && RotationPending(w.processes[w.lock.value])
  }

  /** Ending a run between a rotation and its rename, or losing the reply that rotates: the stored token is retired. */
  predicate Stales(w: World, p: ProcessId, action: Action) {
    && p in w.processes
    && match action
       case Stop => RotationPending(w.processes[p])
       case StoreError => RotationPending(w.processes[p])
       case LoseReply(rotatedTo) => rotatedTo.Some? && rotatedTo.value != w.live
       case _ => false
  }

  /** The steps that strand the session: those, and a rejection whose token is removed. */
  predicate Loses(w: World, p: ProcessId, action: Action) {
    Stales(w, p, action) || action == Reject(true)
  }

  lemma WrittenRefresh(f: Files, sent: nat, tokens: TokenSet, n: nat)
    requires n <= |Targets(sent, tokens)|
    ensures WriteTargets(f, tokens, Targets(sent, tokens)[..n]).refresh
            == if n > 0 && Rotates(sent, tokens) then tokens.refresh else f.refresh
  {
    var targets := Targets(sent, tokens);
    PartialWritesAreWhole(f, tokens, targets[..n]);
    assert n > 0 && Rotates(sent, tokens) ==> targets[..n][0] == RefreshFile;
    assert forall t :: t in targets[..n] ==> t in targets;
  }

  lemma StepKeepsInvariant(lead: int, w: World, p: ProcessId, action: Action, w': World)
    requires Invariant(w) && Step(lead, w, p, action, w')
    ensures Invariant(w')
  {
    var proc := w.processes[p];
    match action {
      case Grant(tokens) =>
        assert Targets(proc.token, tokens)[..0] == [];
      case Rename =>
        WriteOneMore(proc.before, proc.tokens, Targets(proc.sent, proc.tokens), proc.written);
      case _ =>
    }
  }

  /** The stored token stays live across a step exactly when the step is not one of the losing ones. */
  lemma LiveUnlessLost(lead: int, w: World, p: ProcessId, action: Action, w': World)
    requires Invariant(w) && Step(lead, w, p, action, w')
    ensures TokenLive(w) ==> (TokenLive(w') <==> !Loses(w, p, action))
    ensures NoStaleToken(w) ==> (NoStaleToken(w') <==> !Stales(w, p, action))
  {
    hide Targets, WriteTargets, WriteTarget, NeedsRefresh, WithoutRefreshToken;
    var proc := w.processes[p];
    if proc.Writing? {
      HolderWrites(w, p);
    }
  }

  /** What the writer has put in place, and what its next rename will. */
  lemma HolderWrites(w: World, p: ProcessId)
    requires Invariant(w) && p in w.processes && w.processes[p].Writing?
    ensures var Writing(sent, tokens, before, written, _) := w.processes[p];
            && w.lock == Some(p)
            && w.files.refresh == (if written > 0 && Rotates(sent, tokens) then tokens.refresh else Some(sent))
            && (written < |Targets(sent, tokens)| ==>
                  WriteTarget(w.files, tokens, Targets(sent, tokens)[written]).refresh
                  == if Rotates(sent, tokens) then tokens.refresh else Some(sent))
  {
    var Writing(sent, tokens, before, written, _) := w.processes[p];
    WrittenRefresh(before, sent, tokens, written);
    if written < |Targets(sent, tokens)| {
      WrittenRefresh(before, sent, tokens, written + 1);
      WriteOneMore(before, tokens, Targets(sent, tokens), written);
    }
  }

  /** A stranded session stays stranded: no step of the protocol brings a live token back. */
  lemma LivenessIsNotRegained(lead: int, w: World, p: ProcessId, action: Action, w': World)
    requires Invariant(w) && Step(lead, w, p, action, w')
    ensures TokenLive(w') ==> TokenLive(w)
  {
    hide Targets, WriteTargets, WriteTarget, NeedsRefresh, WithoutRefreshToken;
    var proc := w.processes[p];
    if proc.Writing? {
      HolderWrites(w, p);
    }
  }

  /**
   After a crash once the rotated token is in place the stored token is the
   live one, and wherever the writes stopped each file is wholly old or wholly new.
   */
  lemma CrashLeavesWholeFiles(lead: int, w: World, p: ProcessId, action: Action, w': World)
    requires Invariant(w) && TokenLive(w) && Step(lead, w, p, action, w')
    requires action.Stop? || action.StoreError?
    requires w.processes[p].Writing?
    ensures var Writing(sent, tokens, before, written, _) := w.processes[p];
            && w'.files.access in {before.access, tokens.access}
            && w'.files.idToken in {before.idToken, tokens.idToken}
            && w'.files.refresh in {before.refresh, tokens.refresh}
            && (w'.files.refresh == Some(w'.live) <==> !RotationPending(w.processes[p]))
  {
    var proc := w.processes[p];
    PartialWritesAreWhole(proc.before, proc.tokens, Targets(proc.sent, proc.tokens)[..proc.written]);
    WrittenRefresh(proc.before, proc.sent, proc.tokens, proc.written);
  }

  // ---------------------------------------------------------------------
  // Runs
  // ---------------------------------------------------------------------

  datatype Event = Event(process: ProcessId, action: Action)

  /** A run from any files whose refresh token, if present, is live. */
  ghost predicate Run(lead: int, trace: seq<World>, events: seq<Event>) {
    && |trace| == |events| + 1
    && trace[0].lock.None?
    && (trace[0].files.refresh.Some? ==> trace[0].files.refresh.value == trace[0].live)
    && (forall p :: p in trace[0].processes ==> trace[0].processes[p].Entry?)
    && forall i :: 0 <= i < |events| ==> Step(lead, trace[i], events[i].process, events[i].action, trace[i + 1])
  }

  ghost predicate NoneBefore(
    trace: seq<World>, events: seq<Event>, n: nat, bad: (World, ProcessId, Action) -> bool)
    requires n <= |events| <= |trace|
  {
    forall i :: 0 <= i < n ==> !bad(trace[i], events[i].process, events[i].action)
  }

  /**
   In every run mutual exclusion holds, and the session is renewable at a
   moment exactly when it started with a token and no losing step came before.
   */
  lemma {:induction false} RunKeepsInvariant(lead: int, trace: seq<World>, events: seq<Event>, n: nat)
    requires Run(lead, trace, events) && n < |trace|
    ensures Invariant(trace[n])
    ensures TokenLive(trace[n]) <==> trace[0].files.refresh.Some? && NoneBefore(trace, events, n, Loses)
    ensures NoneBefore(trace, events, n, Stales) ==> NoStaleToken(trace[n])
  {
    hide Invariant, Step, TokenLive, NoStaleToken, Loses, Stales;
    if n == 0 {
      StartIsLive(trace[0]);
    } else {
      var w, e, w' := trace[n - 1], events[n - 1], trace[n];
      RunKeepsInvariant(lead, trace, events, n - 1);
      assert Step(lead, w, e.process, e.action, w');
      StepKeepsInvariant(lead, w, e.process, e.action, w');
      LiveUnlessLost(lead, w, e.process, e.action, w');
      LivenessIsNotRegained(lead, w, e.process, e.action, w');
    }
  }

  lemma StartIsLive(w: World)
    requires w.lock.None? && (forall p :: p in w.processes ==> w.processes[p].Entry?)
    requires w.files.refresh.Some? ==> w.files.refresh.value == w.live
    ensures Invariant(w) && NoStaleToken(w) && (TokenLive(w) <==> w.files.refresh.Some?)
  {
  }

  /** In every interleaving in which no token was retired unseen, the token sent is the IdP's current one. */
  lemma SentTokenIsLive(lead: int, trace: seq<World>, events: seq<Event>, n: nat, p: ProcessId)
    requires Run(lead, trace, events) && n < |trace|
    requires NoneBefore(trace, events, n, Stales)
    requires p in trace[n].processes && trace[n].processes[p].Sending?
    ensures trace[n].processes[p].token == trace[n].live
    ensures forall q :: q in trace[n].processes && Critical(trace[n].processes[q]) ==> q == p
  {
    RunKeepsInvariant(lead, trace, events, n);
  }

  /** One more step makes a longer run. */
  lemma RunExtends(lead: int, trace: seq<World>, events: seq<Event>, e: Event, w': World)
    requires Run(lead, trace, events) && Step(lead, trace[|events|], e.process, e.action, w')
    ensures Run(lead, trace + [w'], events + [e]) && |trace| == |events| + 1
  {
    hide Step;
    var longer, more := trace + [w'], events + [e];
    forall i | 0 <= i < |more|
      ensures Step(lead, longer[i], more[i].process, more[i].action, longer[i + 1])
    {
      assert longer[i] == trace[i];
      if i < |events| {
        assert longer[i + 1] == trace[i + 1] && more[i] == events[i];
      }
    }
  }

  // ---------------------------------------------------------------------
  // One exchange per expiry
  // ---------------------------------------------------------------------

  /**
   A run in which nothing fails, up to `horizon`: no rejection, lost reply,
   I/O error or stop, and each grant leaves nothing to refresh until then.
   */
  ghost predicate SmoothEvent(lead: int, horizon: int, w: World, e: Event, w': World) {
    && !e.action.Reject? && !e.action.LoseReply? && !e.action.Stop? && !e.action.LockError? && !e.action.StoreError?
    && w'.now <= horizon
    && (e.action.Grant? ==>
          e.process in w.processes && w.processes[e.process].Sending? &&
          !NeedsRefresh(AfterGrant(w.files, w.processes[e.process].token, e.action.tokens), horizon, lead))
  }

  ghost predicate SmoothRun(lead: int, horizon: int, trace: seq<World>, events: seq<Event>) {
    && Run(lead, trace, events)
    && trace[0].files.refresh.Some? && trace[0].now <= horizon
    && forall i :: 0 <= i < |events| ==> SmoothEvent(lead, horizon, trace[i], events[i], trace[i + 1])
  }

  /** A process that has been granted new tokens in this run. */
  predicate Winner(proc: Process) {
    proc.Writing? || proc == Finished(Answered(Refreshed))
  }

  ghost predicate HasWinner(w: World) {
    exists p :: p in w.processes && Winner(w.processes[p])
  }

  /** What a process has seen while nobody has won: the initial, still expiring files. */
  predicate Undecided(lead: int, start: Files, now: int, proc: Process) {
    match proc
    case Entry => true
    case Sampled(at) => at <= now
    case SawAccess(at, access) => at <= now && access == Exp(start.access)
    case Waiting => NeedsRefresh(start, now, lead)
    case Holding => NeedsRefresh(start, now, lead)
    case Rechecked => NeedsRefresh(start, now, lead)
    case Sending(_) => NeedsRefresh(start, now, lead)
    case Writing(_, _, _, _, _) => false
    case Finished(ending) => ending == Answered(NotNeeded)
  }

  /** What a process can be once somebody has won. */
  predicate Decided(proc: Process) {
    proc.Finished? ==> proc.ending.Answered?
  }

  ghost predicate SmoothInvariant(lead: int, horizon: int, start: Files, w: World) {
    && Invariant(w)
    && w.now <= horizon
    && w.files.refresh.Some?
    && (!HasWinner(w) ==>
          && w.files == start
          && forall p :: p in w.processes ==> Undecided(lead, start, w.now, w.processes[p]))
    && (forall p, q ::
          p in w.processes && q in w.processes && Winner(w.processes[p]) && Winner(w.processes[q]) ==> p == q)
    && (HasWinner(w) ==>
          && (forall p :: p in w.processes ==> Decided(w.processes[p]))
          && (forall p :: p in w.processes ==> !w.processes[p].Rechecked? && !w.processes[p].Sending?)
          && (forall p :: p in w.processes && w.processes[p].Writing? ==>
                !NeedsRefresh(
                  AfterGrant(w.processes[p].before, w.processes[p].sent, w.processes[p].tokens), horizon, lead))
          && ((forall p :: p in w.processes ==> !w.processes[p].Writing?) ==> !NeedsRefresh(w.files, horizon, lead)))
  }

  lemma {:induction false} SmoothRunKeeps(lead: int, horizon: int, trace: seq<World>, events: seq<Event>, n: nat)
    requires SmoothRun(lead, horizon, trace, events) && n < |trace|
    ensures SmoothInvariant(lead, horizon, trace[0].files, trace[n])
  {
    if n > 0 {
      SmoothRunKeeps(lead, horizon, trace, events, n - 1);
      SmoothStep(lead, horizon, trace[0].files, trace[n - 1], events[n - 1], trace[n]);
    }
  }

  /** A winner stays one. */
  lemma WinnerPersists(lead: int, horizon: int, w: World, e: Event, w': World)
    requires Step(lead, w, e.process, e.action, w') && SmoothEvent(lead, horizon, w, e, w')
    requires HasWinner(w)
    ensures HasWinner(w')
  {
    var q :| q in w.processes && Winner(w.processes[q]);
    assert Winner(w'.processes[q]);
  }

  /** Without a winner the files are the initial ones, and what a step sees of them is undecided. */
  lemma UndecidedStep(lead: int, horizon: int, start: Files, w: World, e: Event, w': World)
    requires SmoothInvariant(lead, horizon, start, w) && !HasWinner(w) && !HasWinner(w')
    requires Step(lead, w, e.process, e.action, w') && SmoothEvent(lead, horizon, w, e, w')
    ensures w'.files == start
    ensures forall p :: p in w'.processes ==> Undecided(lead, start, w'.now, w'.processes[p])
  {
    var p := e.process;
    assert Undecided(lead, start, w.now, w.processes[p]);
    assert !Winner(w'.processes[p]);
    forall q | q in w'.processes
      ensures Undecided(lead, start, w'.now, w'.processes[q])
    {
      assert Undecided(lead, start, w.now, w.processes[q]);
      if NeedsRefresh(start, w.now, lead) {
        NeedsRefreshPersists(start, w.now, w'.now, lead);
      }
    }
  }

  /** The first grant: its process wins, and nobody else is near an exchange. */
  lemma WinningStep(lead: int, horizon: int, start: Files, w: World, e: Event, w': World)
    requires SmoothInvariant(lead, horizon, start, w) && !HasWinner(w) && HasWinner(w')
    requires Step(lead, w, e.process, e.action, w') && SmoothEvent(lead, horizon, w, e, w')
    ensures e.action.Grant? && SmoothInvariant(lead, horizon, start, w')
  {
    StepKeepsInvariant(lead, w, e.process, e.action, w');
    var p := e.process;
    var q :| q in w'.processes && Winner(w'.processes[q]);
    assert !Winner(w.processes[q]) && !Winner(w.processes[p]);
    assert q == p;
    assert Undecided(lead, start, w.now, w.processes[p]);
    forall r | r in w'.processes && r != p
      ensures !Winner(w'.processes[r]) && !Critical(w'.processes[r]) && Decided(w'.processes[r])
    {
      assert w'.processes[r] == w.processes[r];
      assert Undecided(lead, start, w.now, w.processes[r]);
    }
  }

  /** Renames leave a refresh token stored; completed, they have put all of the grant in place. */
  lemma WriterStep(lead: int, w: World, p: ProcessId, action: Action, w': World)
    requires Invariant(w) && Step(lead, w, p, action, w') && w.processes[p].Writing?
    ensures action.Rename? && w.files.refresh.Some? ==> w'.files.refresh.Some?
    ensures var Writing(sent, tokens, before, _, _) := w.processes[p];
            action.Complete? ==> w'.files == AfterGrant(before, sent, tokens)
  {
    hide Targets, WriteTargets, AfterGrant, NeedsRefresh, WithoutRefreshToken;
    var Writing(sent, tokens, before, written, _) := w.processes[p];
    var targets := Targets(sent, tokens);
    HolderWrites(w, p);
    WritesMakeGrant(before, sent, tokens);
    assert targets[..|targets|] == targets;
  }

  /**
   What a process becomes in a step taken after the win: it wins exactly if it
   had won, sends nothing, and the files change only under the writer's hands.
   */
  ghost predicate MovesTo(w: World, p: ProcessId, moved: Process, w': World) {
    && p in w.processes
    && w'.processes == w.processes[p := moved]
    && w'.files.refresh.Some?
    && Winner(moved) == Winner(w.processes[p])
    && Decided(moved) && !moved.Rechecked? && !moved.Sending?
    && var proc := w.processes[p];
       if moved.Writing? then
         proc.Writing? && moved.before == proc.before && moved.sent == proc.sent && moved.tokens == proc.tokens
       else if proc.Writing? then w'.files == AfterGrant(proc.before, proc.sent, proc.tokens)
       else w'.files == w.files
  }

  lemma DecidedMove(lead: int, horizon: int, start: Files, w: World, e: Event, w': World) returns (moved: Process)
    requires SmoothInvariant(lead, horizon, start, w) && HasWinner(w)
    requires Step(lead, w, e.process, e.action, w') && SmoothEvent(lead, horizon, w, e, w')
    ensures MovesTo(w, e.process, moved, w')
  {
    hide AfterGrant, WriteTargets;
    var p, proc := e.process, w.processes[e.process];
    assert Decided(proc) && !proc.Rechecked? && !proc.Sending?;
    moved := w'.processes[p];
    if proc.Writing? {
      WriterStep(lead, w, p, e.action, w');
    } else if e.action.Recheck? {
      // The lock holder is not the writer, so nobody is, and the files are fresh.
      assert forall q :: q in w.processes ==> !w.processes[q].Writing?;
      assert !NeedsRefresh(w.files, w.now, lead);
    } else if e.action.Tick? {
      assert w'.processes == w.processes[p := proc];
    }
  }

  /** Such a move keeps all that holds after the win. */
  lemma MoveKeeps(lead: int, horizon: int, start: Files, w: World, p: ProcessId, moved: Process, w': World)
    requires SmoothInvariant(lead, horizon, start, w) && HasWinner(w)
    requires MovesTo(w, p, moved, w') && Invariant(w') && w'.now <= horizon
    ensures SmoothInvariant(lead, horizon, start, w')
  {
    hide AfterGrant, NeedsRefresh, Invariant;
    var q :| q in w.processes && Winner(w.processes[q]);
    assert Winner(w'.processes[q]);
    var proc := w.processes[p];
    if forall r :: r in w'.processes ==> !w'.processes[r].Writing? {
      assert !moved.Writing?;
      if proc.Writing? {
        assert !NeedsRefresh(w'.files, horizon, lead);
      } else {
        assert forall r :: r in w.processes && r != p ==> w.processes[r] == w'.processes[r];
      }
    }
  }

  /** After a win the lock holder is the winner, or finds nothing left to refresh. */
  lemma DecidedStep(lead: int, horizon: int, start: Files, w: World, e: Event, w': World)
    requires SmoothInvariant(lead, horizon, start, w) && HasWinner(w)
    requires Step(lead, w, e.process, e.action, w') && SmoothEvent(lead, horizon, w, e, w')
    ensures SmoothInvariant(lead, horizon, start, w')
  {
    var moved := DecidedMove(lead, horizon, start, w, e, w');
    StepKeepsInvariant(lead, w, e.process, e.action, w');
    MoveKeeps(lead, horizon, start, w, e.process, moved, w');
  }

  lemma SmoothStep(lead: int, horizon: int, start: Files, w: World, e: Event, w': World)
    requires SmoothInvariant(lead, horizon, start, w)
    requires Step(lead, w, e.process, e.action, w') && SmoothEvent(lead, horizon, w, e, w')
    ensures SmoothInvariant(lead, horizon, start, w')
  {
    if HasWinner(w) {
      DecidedStep(lead, horizon, start, w, e, w');
    } else if HasWinner(w') {
      WinningStep(lead, horizon, start, w, e, w');
    } else {
      UndecidedStep(lead, horizon, start, w, e, w');
      StepKeepsInvariant(lead, w, e.process, e.action, w');
    }
  }

  /** In a smooth run at most one exchange is granted. */
  lemma AtMostOneExchange(lead: int, horizon: int, trace: seq<World>, events: seq<Event>, i: nat, j: nat)
    requires SmoothRun(lead, horizon, trace, events)
    requires i < |events| && j < |events| && events[i].action.Grant? && events[j].action.Grant?
    ensures i == j
  {
    if i < j {
      GrantedOnce(lead, horizon, trace, events, i, j);
    } else if j < i {
      GrantedOnce(lead, horizon, trace, events, j, i);
    }
  }

  lemma GrantedOnce(lead: int, horizon: int, trace: seq<World>, events: seq<Event>, i: nat, j: nat)
    requires SmoothRun(lead, horizon, trace, events)
    requires i < j < |events| && events[i].action.Grant?
    ensures !events[j].action.Grant?
  {
    assert Step(lead, trace[i], events[i].process, events[i].action, trace[i + 1]);
    assert Winner(trace[i + 1].processes[events[i].process]);
    WinnerStays(lead, horizon, trace, events, i + 1, j);
    SmoothRunKeeps(lead, horizon, trace, events, j);
    assert Step(lead, trace[j], events[j].process, events[j].action, trace[j + 1]);
  }

  lemma {:induction false} WinnerStays(lead: int, horizon: int, trace: seq<World>, events: seq<Event>, i: nat, j: nat)
    requires SmoothRun(lead, horizon, trace, events)
    requires i <= j < |trace| && HasWinner(trace[i])
    ensures HasWinner(trace[j])
    decreases j
  {
    if i < j {
      WinnerStays(lead, horizon, trace, events, i, j - 1);
      WinnerPersists(lead, horizon, trace[j - 1], events[j - 1], trace[j]);
    }
  }

  /**
   When all processes of a smooth run are done and any of them saw the tokens
   near expiry, exactly one exchanged; every other one was told that a peer had
   refreshed or that nothing was needed.
   */
  lemma ExactlyOneRefreshes(lead: int, horizon: int, trace: seq<World>, events: seq<Event>)
    requires SmoothRun(lead, horizon, trace, events)
    requires var last := trace[|events|];
             forall p :: p in last.processes ==> last.processes[p].Finished?
    ensures var last := trace[|events|];
            if exists p :: p in last.processes && last.processes[p].ending != Answered(NotNeeded)
            then exists w :: w in last.processes && last.processes[w].ending == Answered(Refreshed)
                             && forall p :: p in last.processes && p != w ==>
                                  last.processes[p].ending in {Answered(NotNeeded), Answered(SkippedRefreshedByPeer)}
            else trace[|events|].files == trace[0].files
  {
    var last := trace[|events|];
    SmoothRunKeeps(lead, horizon, trace, events, |events|);
    if HasWinner(last) {
      var w :| w in last.processes && Winner(last.processes[w]);
      forall p | p in last.processes && p != w
        ensures last.processes[p].ending in {Answered(NotNeeded), Answered(SkippedRefreshedByPeer)}
      {
        var proc := last.processes[p];
        assert Decided(proc) && !Winner(proc);
        assert proc == Finished(Answered(proc.ending.outcome));
        match proc.ending.outcome {
          case NotNeeded =>
          case SkippedRefreshedByPeer =>
          case Refreshed =>
        }
      }
    } else {
      forall p | p in last.processes
        ensures last.processes[p].ending == Answered(NotNeeded)
      {
        assert Undecided(lead, trace[0].files, last.now, last.processes[p]);
      }
    }
  }
}
