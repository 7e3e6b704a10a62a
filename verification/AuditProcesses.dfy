/**
 Any number of connections to one audit database, each running its operations
 statement by statement inside `BEGIN IMMEDIATE` transactions that may fail or
 die at any point (src/audit/writer.rs).
 */
module AuditProcesses {
  import opened Wrappers
  import opened Bytes
  import opened AuditRow
  import opened LayoutCommit
  import opened ChainVerifier
  import opened AuditTable
  import opened AuditInvariants

  const WRITE_LOCK_ATTEMPTS: nat := 3

  type ConnId = nat

  datatype Connection =
    | Idle
    | Contending(op: Operation, attempt: nat)
    | InTransaction(op: Operation, work: Table, plan: Option<seq<Statement>>, executed: nat)

  /** `history` is the list of operations whose transactions committed, in commit order. */
  datatype System = System(
    committed: Table,
    lock: Option<ConnId>,
    connections: map<ConnId, Connection>,
    history: seq<Operation>)

  datatype Action =
    | Submit(op: Operation)
    | Begin
    | Busy
    | Read
    | ExecuteNext
    | Commit
    | Abort

  function With(s: System, c: ConnId, conn: Connection): System {
    s.(connections := s.connections[c := conn])
  }

  /** One step of connection `c`. */
  ghost predicate Step(h: Hashes, s: System, c: ConnId, action: Action, s': System) {
    && c in s.connections
    && var conn := s.connections[c];
       match action
       case Submit(op) =>
         conn.Idle? && s' == With(s, c, Contending(op, 1))
       case Begin =>
         // The immediate write lock is free: the transaction starts from the committed table.
         && conn.Contending? && s.lock.None?
         && s' == With(s, c, InTransaction(conn.op, s.committed, None, 0)).(lock := Some(c))
       case Busy =>
         // Held by another connection: retry, and give up after the last attempt.
         && conn.Contending? && s.lock.Some?
         && s' == With(s, c, if conn.attempt < WRITE_LOCK_ATTEMPTS then conn.(attempt := conn.attempt + 1) else Idle)
       case Read =>
         // All reads and checks of the operation; a refusal rolls back.
         && conn.InTransaction? && conn.plan.None?
         && (match Decide(h, conn.work, conn.op)
             case Failure(_) => s' == With(s, c, Idle).(lock := None)
             case Success(decision) => s' == With(s, c, conn.(plan := Some(decision.1))))
       case ExecuteNext =>
         && conn.InTransaction? && conn.plan.Some? && conn.executed < |conn.plan.value|
         && var next := Execute(conn.work, conn.plan.value[conn.executed]);
            && next.Some?
            && s' == With(s, c, conn.(work := next.value, executed := conn.executed + 1))
       case Commit =>
         && conn.InTransaction? && conn.plan.Some? && conn.executed == |conn.plan.value|
         && s' == With(s, c, Idle).(committed := conn.work, lock := None, history := s.history + [conn.op])
       case Abort =>
         // An SQL error, a failed COMMIT, or the death of the process: rollback.
         conn.InTransaction? && s' == With(s, c, Idle).(lock := None)
  }

  /** A lock held elsewhere is tried three times and then given up, with nothing written. */
  lemma GivesUpAfterThree(h: Hashes, a: System, b: System, c: ConnId, op: Operation, attempt: nat)
    requires c in a.connections && a.connections[c] == Contending(op, attempt)
    requires Step(h, a, c, Busy, b)
    ensures a.lock.Some? && b.committed == a.committed && b.history == a.history && b.lock == a.lock
    ensures b.connections == a.connections[c := if attempt < 3 then Contending(op, attempt + 1) else Idle]
  {
  }

  /** The lock holder's private table is a prefix of its plan applied to the committed one. */
  ghost predicate TransactionOk(h: Hashes, committed: Table, conn: Connection)
    requires conn.InTransaction?
  {
    match conn.plan
    case None => conn.work == committed && conn.executed == 0
    case Some(plan) =>
      && Decide(h, committed, conn.op).Success?
      && Decide(h, committed, conn.op).value.1 == plan
      && conn.executed <= |plan|
      && ExecuteAll(committed, plan[..conn.executed]) == Some(conn.work)
  }

  ghost predicate Invariant(h: Hashes, start: Table, s: System) {
    && (forall c :: c in s.connections && s.connections[c].InTransaction? ==> s.lock == Some(c))
    && (s.lock.Some? ==> s.lock.value in s.connections && s.connections[s.lock.value].InTransaction?
                         && TransactionOk(h, s.committed, s.connections[s.lock.value]))
    && ValidTable(s.committed)
    && s.committed == PerformAll(h, start, s.history)
  }

  /** Reading fixes the plan of the operation. */
  lemma ReadKeepsTransaction(h: Hashes, committed: Table, conn: Connection)
    requires conn.InTransaction? && conn.plan.None? && TransactionOk(h, committed, conn)
    requires Decide(h, conn.work, conn.op).Success?
    ensures TransactionOk(h, committed, conn.(plan := Some(Decide(h, conn.work, conn.op).value.1)))
  {
    assert Decide(h, conn.work, conn.op).value.1[..0] == [];
  }

  /** One more statement of the plan. */
  lemma ExecuteKeepsTransaction(h: Hashes, committed: Table, conn: Connection, next: Table)
    requires conn.InTransaction? && conn.plan.Some? && TransactionOk(h, committed, conn)
    requires conn.executed < |conn.plan.value|
    requires Execute(conn.work, conn.plan.value[conn.executed]) == Some(next)
    ensures TransactionOk(h, committed, conn.(work := next, executed := conn.executed + 1))
  {
    hide Decide, Execute;
    var plan, n := conn.plan.value, conn.executed;
    assert plan[..n + 1] == plan[..n] + [plan[n]];
    ExecuteAllSnoc(committed, plan[..n], plan[n]);
  }

  /** A fully executed plan is the operation run alone. */
  lemma CompletedTransaction(h: Hashes, committed: Table, conn: Connection)
    requires ValidTable(committed)
    requires conn.InTransaction? && conn.plan.Some? && TransactionOk(h, committed, conn)
    requires conn.executed == |conn.plan.value|
    ensures conn.work == Perform(h, committed, conn.op) && ValidTable(conn.work)
  {
    PerformKeepsValid(h, committed, conn.op);
    assert conn.plan.value[..conn.executed] == conn.plan.value;
  }

  /** A commit makes exactly one operation visible, whole; nothing else changes what is visible. */
  lemma StepKeepsInvariant(h: Hashes, start: Table, s: System, c: ConnId, action: Action, s': System)
    requires Invariant(h, start, s) && Step(h, s, c, action, s')
    ensures Invariant(h, start, s')
    ensures action.Commit? ==> s'.committed == Perform(h, s.committed, s.connections[c].op)
    ensures !action.Commit? ==> s'.committed == s.committed
  {
    hide Decide, Execute, Perform;
    var conn := s.connections[c];
    match action {
      case Read =>
        if Decide(h, conn.work, conn.op).Success? {
          ReadKeepsTransaction(h, s.committed, conn);
        }
      case ExecuteNext =>
        ExecuteKeepsTransaction(h, s.committed, conn, s'.connections[c].work);
      case Commit =>
        CompletedTransaction(h, s.committed, conn);
        assert s'.history[..|s.history|] == s.history;
      case _ =>
    }
  }

  // ---------------------------------------------------------------------
  // Runs
  // ---------------------------------------------------------------------

  datatype Event = Event(connection: ConnId, action: Action)

  /** A run from a quiet database: any interleaving of any connections. */
  ghost predicate Run(h: Hashes, trace: seq<System>, events: seq<Event>) {
    && |trace| == |events| + 1
    && trace[0].lock.None? && trace[0].history == []
    && (forall c :: c in trace[0].connections ==> trace[0].connections[c].Idle?)
    && forall i :: 0 <= i < |events| ==> Step(h, trace[i], events[i].connection, events[i].action, trace[i + 1])
  }

  /** Every interleaving is a serial history: the operations that committed, in commit order. */
  lemma {:induction false} RunIsSerial(h: Hashes, trace: seq<System>, events: seq<Event>, n: nat)
    requires Run(h, trace, events) && ValidTable(trace[0].committed)
    requires n < |trace|
    ensures Invariant(h, trace[0].committed, trace[n])
    ensures trace[n].committed == PerformAll(h, trace[0].committed, trace[n].history)
  {
    if n > 0 {
      RunIsSerial(h, trace, events, n - 1);
      StepKeepsInvariant(h, trace[0].committed, trace[n - 1], events[n - 1].connection, events[n - 1].action, trace[n]);
    }
  }

  ghost predicate HonestRun(events: seq<Event>) {
    forall i :: 0 <= i < |events| && events[i].action.Submit? ==> Honest(events[i].action.op)
  }

  /** Every operation in flight or committed was submitted, so it is honest if they all are. */
  lemma {:induction false} OperationsWereSubmitted(h: Hashes, trace: seq<System>, events: seq<Event>, n: nat)
    requires Run(h, trace, events) && HonestRun(events)
    requires n < |trace|
    ensures forall i :: 0 <= i < |trace[n].history| ==> Honest(trace[n].history[i])
    ensures forall c :: c in trace[n].connections && !trace[n].connections[c].Idle? ==>
            Honest(trace[n].connections[c].op)
  {
    if n > 0 {
      OperationsWereSubmitted(h, trace, events, n - 1);
      assert Step(h, trace[n - 1], events[n - 1].connection, events[n - 1].action, trace[n]);
    }
  }

  /** The history only grows. */
  lemma {:induction false} HistoryGrows(h: Hashes, trace: seq<System>, events: seq<Event>, m: nat, n: nat)
    requires Run(h, trace, events) && m <= n < |trace|
    ensures trace[m].history <= trace[n].history
    decreases n
  {
    if m < n {
      HistoryGrows(h, trace, events, m, n - 1);
      assert Step(h, trace[n - 1], events[n - 1].connection, events[n - 1].action, trace[n]);
    }
  }

  /**
   In every interleaving, with aborts anywhere, what other connections see
   always verifies, has strictly increasing ids and no placeholder tag; and
   from any moment to any later one at most one commitment appears and the
   rows it pins stay as they are.
   */
  lemma CommittedLogIsAlwaysSound(h: Hashes, trace: seq<System>, events: seq<Event>, m: nat, n: nat)
    requires Run(h, trace, events) && HonestRun(events)
    requires ValidTable(trace[0].committed) && Sound(h, trace[0].committed.rows)
    requires m <= n < |trace|
    ensures Sound(h, trace[n].committed.rows) && Increasing(trace[n].committed.rows)
    ensures forall i :: 0 <= i < |trace[n].committed.rows| ==> trace[n].committed.rows[i].hmac != []
    ensures CommitmentsKept(trace[m].committed.rows, trace[n].committed.rows)
  {
    var start, early, late := trace[0].committed, trace[m].history, trace[n].history;
    RunIsSerial(h, trace, events, m);
    RunIsSerial(h, trace, events, n);
    OperationsWereSubmitted(h, trace, events, m);
    OperationsWereSubmitted(h, trace, events, n);
    HistoryGrows(h, trace, events, m, n);
    HistoryKeeps(h, start, early);
    HistoryKeeps(h, start, late);
    assert late == early + late[|early|..];
    PerformAllAppend(h, start, early, late[|early|..]);
    HistoryKeeps(h, trace[m].committed, late[|early|..]);
    forall i | 0 <= i < |trace[n].committed.rows|
      ensures trace[n].committed.rows[i].hmac != []
    {
      SoundRow(h, trace[n].committed.rows, i);
    }
  }
}
