/**
 One connection to the audit database and its write operations, as they run:
 the write lock, statement by statement, commit or rollback
 (src/audit/writer.rs, src/audit/layout_commit.rs). Each is proved against
 the functions of `AuditTable`.
 */
module AuditLog {
  import opened Wrappers
  import opened Bytes
  import opened AuditRow
  import opened LayoutCommit
  import opened ChainVerifier
  import opened AuditTable

  const WRITE_LOCK_ATTEMPTS: nat := 3

  /** What SQLite answers to one `BEGIN IMMEDIATE`. */
  datatype LockAnswer = Acquired | Busy | Broken

  /** One of the first three attempts gets the lock, after nothing but busy answers. */
  ghost predicate Granted(answer: nat -> LockAnswer) {
    exists n :: 1 <= n <= 3 && answer(n) == Acquired && forall m :: 1 <= m < n ==> answer(m) == Busy
  }

  /** The complaint when none does. */
  function LockComplaint(answer: nat -> LockAnswer): AuditError {
    if answer(1) == answer(2) == answer(3) == Busy then Locked else Sql
  }

  class AuditConnection {
    /** What every other connection sees. */
    var committed: Table
    /** What this connection sees. */
    var work: Table
    var inTransaction: bool
    /** How many more SQL statements succeed before the next I/O failure. */
    var healthy: nat

    ghost predicate Valid()
      reads this
    {
      ValidTable(committed) && ValidTable(work) && (!inTransaction ==> work == committed)
    }

    constructor (table: Table, healthy: nat)
      requires ValidTable(table)
      ensures Valid() && committed == table && !inTransaction
    {
      committed, work, inTransaction := table, table, false;
      this.healthy := healthy;
    }

    /** One SQL statement: it fails exactly when the budget is spent. */
    method Tick() returns (ok: bool)
      modifies this`healthy
      ensures ok <==> old(healthy) > 0
      ensures healthy == old(healthy) - if ok then 1 else 0
    {
      ok := healthy > 0;
      if ok {
        healthy := healthy - 1;
      }
    }

    /** `begin_immediate`: bounded retries while the lock is held elsewhere. */
    method BeginImmediate(answer: nat -> LockAnswer) returns (r: Result<(), AuditError>)
      requires Valid() && !inTransaction
      modifies this`inTransaction
      ensures r.Success? == inTransaction
      ensures r.Success? <==> Granted(answer)
      ensures r.Failure? ==> r.error == LockComplaint(answer)
    {
      var attempt: nat := 1;
      while true
        invariant 1 <= attempt <= WRITE_LOCK_ATTEMPTS && !inTransaction
        invariant forall m :: 1 <= m < attempt ==> answer(m) == Busy
        decreases WRITE_LOCK_ATTEMPTS - attempt
      {
        match answer(attempt) {
          case Acquired =>
            inTransaction := true;
            return Success(());
          case Busy =>
            if attempt < WRITE_LOCK_ATTEMPTS {
              attempt := attempt + 1;
            } else {
              return Failure(Locked);
            }
          case Broken =>
            return Failure(Sql);
        }
      }
    }

    /** `COMMIT`, or `ROLLBACK` when the body or the commit itself failed. */
    method EndTransaction(bodySucceeded: bool) returns (ok: bool)
      requires Valid() && inTransaction
      modifies this
      ensures Valid() && !inTransaction
      ensures ok <==> bodySucceeded && old(healthy) > 0
      ensures healthy == old(healthy) - if ok then 1 else 0
      ensures ok ==> committed == old(work)
      ensures !ok ==> committed == old(committed)
    {
      ok := false;
      if bodySucceeded {
        ok := Tick();
      }
      if ok {
        committed := work;
      } else {
        work := committed;
      }
      inTransaction := false;
    }

    /** One write statement on this connection's view. */
    method Run(s: Statement) returns (ok: bool)
      requires Valid() && inTransaction
      modifies this`work, this`healthy
      ensures Valid()
      ensures ok <==> old(healthy) > 0 && Execute(old(work), s).Some?
      ensures ok ==> Execute(old(work), s) == Some(work) && healthy == old(healthy) - 1
      ensures !ok ==> work == old(work)
    {
      ok := Tick();
      if ok {
        var next := Execute(work, s);
        if next.Some? {
          ExecuteKeepsValid(work, s);
          work := next.value;
        } else {
          ok := false;
        }
      }
    }

    // -------------------------------------------------------------------
    // Record
    // -------------------------------------------------------------------

    /** `record_in_txn`: read the tip, insert a placeholder, put the tag in place. */
    method RecordInTransaction(mac: Hash, event: AuditEvent) returns (r: Result<Int64, AuditError>)
      requires Valid() && inTransaction
      modifies this`work, this`healthy
      ensures Valid()
      ensures r.Success? <==> old(work).sequence < MAX_ROWID && old(healthy) >= 3
      ensures r.Success? ==> work == Recorded(mac, old(work), event) && healthy == old(healthy) - 3
      ensures r.Success? ==> r.value == work.sequence && r.value == work.rows[|work.rows| - 1].fields.id
      ensures r.Success? ==> Appends(mac, old(work), work, event)
      ensures r.Failure? ==> r.error == Sql
    {
      hide Recorded, SignedRow, InjectiveEncoding, Placeholder, Appends;
      var ok := Tick();
      if !ok {
        return Failure(Sql);
      }
      ghost var before := work;
      var prev: Text := if work.rows == [] then [] else work.rows[|work.rows| - 1].hmac;
      ok := Run(InsertPlaceholder(event, prev));
      if !ok {
        return Failure(Sql);
      }
      var id: Int64 := work.sequence;
      var placeholder := Placeholder(id, event, prev);
      var tag := InjectiveMac(mac, V4_DOMAIN, 4, placeholder.fields);
      ok := Run(SetTag(id, tag));
      if !ok {
        return Failure(Sql);
      }
      SignedTag(mac, id, event, prev);
      TagPlaceholder(mac, before, event);
      RecordedRowIsEvent(mac, before, event);
      r := Success(id);
    }

    /** `record_event`: one transaction of its own, or inline in the caller's. */
    method RecordEvent(mac: Hash, event: AuditEvent, answer: nat -> LockAnswer) returns (r: Result<Int64, AuditError>)
      requires Valid()
      modifies this
      ensures Valid() && inTransaction == old(inTransaction)
      ensures r.Success? ==> old(work).sequence < MAX_ROWID && work == Recorded(mac, old(work), event)
      ensures r.Success? ==> r.value == work.sequence && Appends(mac, old(work), work, event)
      ensures r.Failure? && !inTransaction ==> work == old(work)
      ensures r.Failure? && inTransaction ==> r.error == Sql
      ensures !inTransaction && !Granted(answer) ==> r == Failure(LockComplaint(answer))
      ensures Granted(answer) && r.Failure? ==> r == Failure(Sql)
      ensures (inTransaction || Granted(answer)) && old(work).sequence < MAX_ROWID && old(healthy) >= 4 ==>
              r.Success?
      ensures r.Success? ==> healthy == old(healthy) - if inTransaction then 3 else 4
      ensures inTransaction ==> committed == old(committed)
    {
      if inTransaction {
        r := RecordInTransaction(mac, event);
        return;
      }
      var begun := BeginImmediate(answer);
      if begun.Failure? {
        return Failure(begun.error);
      }
      r := RecordInTransaction(mac, event);
      var ok := EndTransaction(r.Success?);
      if r.Success? && !ok {
        r := Failure(Sql);
      }
    }

    // -------------------------------------------------------------------
    // Status update
    // -------------------------------------------------------------------

    /** Step 1 of `update_in_txn`: everything about to be re-signed must verify as it stands. */
    method CheckResignable(mac: Hash, rows: seq<StoredEvent>, k: nat) returns (r: Option<ChainError>)
      requires k < |rows|
      ensures r == ResignFault(mac, rows, k)
    {
      var target := rows[k];
      var fault := CheckTag(mac, target);
      if fault.Some? {
        return fault;
      }
      if k + 1 < |rows| && IsLegacyLayout(target.version) {
        return Some(LayoutViolation(target.fields.id, LegacyTargetHasSuccessors(target.version)));
      }
      var expectedPrev := target.hmac;
      for i := k + 1 to |rows|
        invariant expectedPrev == rows[i - 1].hmac
        invariant ResignFault(mac, rows, k) == SuccessorFault(mac, rows, i)
      {
        var s := rows[i];
        if s.fields.prevHmac != expectedPrev {
          return Some(ChainBroken(s.fields.id));
        }
        if s.version != CURRENT_HMAC_LAYOUT {
          return Some(LayoutViolation(s.fields.id, LegacyAfterCurrent(s.version)));
        }
        fault := CheckTag(mac, s);
        if fault.Some? {
          return fault;
        }
        expectedPrev := s.hmac;
      }
      r := None;
    }

    /** Step 2: re-sign the target under its own layout, then re-link and re-tag each successor. */
    method ResignFrom(mac: Hash, ghost start: Table, ghost after: seq<StoredEvent>, rows: seq<StoredEvent>,
                      k: nat, update: StatusUpdate, firstTag: Tag) returns (ok: bool)
      requires Valid() && inTransaction
      requires work == start && rows == start.rows && k < |rows| && ResignFault(mac, rows, k).None?
      requires after == UpdatedRows(mac, rows, k, update, firstTag)
      modifies this`work, this`healthy
      ensures Valid()
      ensures ok <==> old(healthy) >= |rows| - k
      ensures ok ==> work == start.(rows := after) && healthy == old(healthy) - (|rows| - k)
    {
      hide TagFor, Relinked, UpdatedRows, ResignFault, TagFault, Midway, Execute;
      UpdateOnlyResigns(mac, rows, k, update, firstTag);
      UpdatedAt(mac, rows, k, update, firstTag, k);
      SuccessorsAreCurrent(mac, rows, k);
      RewriteStep(start, after, k, update, k);
      MidwayEnds(start, after, k, update);
      ok := Run(SetOutcome(rows[k].fields.id, update, firstTag));
      if !ok {
        return;
      }
      var tag := firstTag;
      for j := k + 1 to |rows|
        invariant Valid() && work == Midway(start, after, j)
        invariant tag == after[j - 1].hmac
        invariant healthy == old(healthy) - (j - k)
      {
        UpdatedAt(mac, rows, k, update, firstTag, j);
        RewriteStep(start, after, k, update, j);
        RelinkedTag(mac, rows[j], tag);
        var next := rows[j].(fields := rows[j].fields.(prevHmac := tag));
        var retagged := ComputeForLayout(mac, next.version, next.fields);
        tag := retagged.value;
        assert after[j] == next.(hmac := tag);
        ok := Run(SetLink(next.fields.id, next.fields.prevHmac, tag));
        if !ok {
          return;
        }
      }
    }

    /** `update_in_txn`. */
    method UpdateInTransaction(mac: Hash, id: Int64, update: StatusUpdate) returns (r: Result<(), AuditError>)
      requires Valid() && inTransaction
      modifies this`work, this`healthy
      ensures Valid()
      ensures r.Success? ==>
                var found := DecideUpdate(mac, old(work).rows, id, update);
                found.Success?
                && work == old(work).(rows := UpdatedRows(mac, old(work).rows, found.value.0, update, found.value.1))
      ensures r.Failure? && r.error != Sql ==>
                work == old(work) && DecideUpdate(mac, old(work).rows, id, update) == Failure(r.error)
      ensures r == Failure(Sql) ==> old(healthy) <= |old(work).rows|
      ensures old(healthy) <= healthy + |old(work).rows| + 1
    {
      hide TagFor, ResignFault, UpdatedRows;
      var ok := Tick();
      if !ok {
        return Failure(Sql);
      }
      var rows := work.rows;
      var k := StartOf(rows, id);
      if k == |rows| || rows[k].fields.id != id {
        return Failure(RowNotFound(id));
      }
      var fault := CheckResignable(mac, rows, k);
      if fault.Some? {
        return Failure(Chain(fault.value));
      }
      var stamped := Stamp(rows[k].fields, update);
      var tagged := ComputeForLayout(mac, rows[k].version, stamped);
      if tagged.Failure? {
        return Failure(Rehash(id, tagged.error));
      }
      ok := ResignFrom(mac, work, UpdatedRows(mac, rows, k, update, tagged.value), rows, k, update, tagged.value);
      r := if ok then Success(()) else Failure(Sql);
    }

    /** `update_event_status`: one transaction of its own, or inline in the caller's. */
    method UpdateEventStatus(mac: Hash, id: Int64, update: StatusUpdate, answer: nat -> LockAnswer)
      returns (r: Result<(), AuditError>)
      requires Valid()
      modifies this
      ensures Valid() && inTransaction == old(inTransaction)
      ensures r.Success? ==>
                var found := DecideUpdate(mac, old(work).rows, id, update);
                found.Success?
                && work == old(work).(rows := UpdatedRows(mac, old(work).rows, found.value.0, update, found.value.1))
      ensures r.Failure? && !inTransaction ==> work == old(work)
      ensures inTransaction ==> committed == old(committed)
      ensures !inTransaction && !Granted(answer) ==> r == Failure(LockComplaint(answer))
      ensures (inTransaction || Granted(answer)) && old(healthy) > |old(work).rows| + 1 ==>
                var found := DecideUpdate(mac, old(work).rows, id, update);
                if found.Success? then r.Success? else r == Failure(found.error)
    {
      hide DecideUpdate, UpdatedRows;
      if inTransaction {
        r := UpdateInTransaction(mac, id, update);
        return;
      }
      var begun := BeginImmediate(answer);
      if begun.Failure? {
        return Failure(begun.error);
      }
      r := UpdateInTransaction(mac, id, update);
      var ok := EndTransaction(r.Success?);
      if r.Success? && !ok {
        r := Failure(Sql);
      }
    }

    // -------------------------------------------------------------------
    // Commit of the legacy layout
    // -------------------------------------------------------------------

    /** `commit_in_txn`: verify everything, then decide. */
    method CommitInTransaction(h: Hashes, tsUnixMs: Int64) returns (r: Result<CommitOutcome, AuditError>)
      requires Valid() && inTransaction
      modifies this
      ensures Valid() && inTransaction && committed == old(committed)
      ensures r.Success? ==> DecideCommit(h, old(work)) == r
      ensures r.Success? ==>
                work == if r.value.Committed? && old(work).sequence < MAX_ROWID
                        then Recorded(h.mac, old(work), CommitmentEvent(r.value.digest, tsUnixMs)) else old(work)
      ensures r.Failure? && r.error != Sql ==> work == old(work) && DecideCommit(h, old(work)) == r
      ensures old(healthy) >= 6 ==> r == DecideCommit(h, old(work)) && (r.Success? ==> healthy > 0)
    {
      hide Verdict, SignedRow, DigestInput, IsCommitment, Appends, RecordPlan, Recorded, CommitmentEvent, Granted,
           LockComplaint, LegacyRows, Commitments, FirstMismatch, ValidTable;
      var ok := Tick();
      if !ok {
        return Failure(Sql);
      }
      var verdict := VerifyChainReport(h, work.rows);
      if verdict.Failure? {
        return Failure(Chain(verdict.error));
      }
      ok := Tick();
      if !ok {
        return Failure(Sql);
      }
      var legacy, existing := LegacyRows(work.rows), Commitments(work.rows);
      var digest := LegacyLayoutDigest(h.sha, legacy);
      if legacy == [] {
        return Success(NothingToCommit);
      }
      var mismatch := FirstMismatch(existing, digest);
      if mismatch.Some? {
        return Failure(Chain(LayoutViolation(mismatch.value.fields.id, CommitmentStale)));
      }
      if existing != [] {
        return Success(AlreadyCommitted(existing[0].fields.id, |legacy|));
      }
      var row := RecordEvent(h.mac, CommitmentEvent(digest, tsUnixMs), n => Broken);
      if row.Failure? {
        return Failure(row.error);
      }
      r := Success(Committed(row.value, |legacy|, digest));
    }

    /** `commit_legacy_layout`. */
    method CommitLegacyLayout(h: Hashes, tsUnixMs: Int64, answer: nat -> LockAnswer)
      returns (r: Result<CommitOutcome, AuditError>)
      requires Valid()
      modifies this
      ensures Valid() && inTransaction == old(inTransaction)
      ensures inTransaction ==> r == Failure(OwnTransaction)
      ensures r.Success? ==>
              DecideCommit(h, old(committed)) == r && committed == Perform(h, old(committed), CommitLayout(tsUnixMs))
      ensures r.Failure? ==> committed == old(committed)
      ensures !inTransaction && !Granted(answer) ==> r == Failure(LockComplaint(answer))
      ensures !inTransaction && Granted(answer) && old(healthy) >= 6 ==> r == DecideCommit(h, old(committed))
    {
      if inTransaction {
        return Failure(OwnTransaction);
      }
      var begun := BeginImmediate(answer);
      if begun.Failure? {
        return Failure(begun.error);
      }
      ghost var before := committed;
      r := CommitInTransaction(h, tsUnixMs);
      if r.Success? {
        PerformCommit(h, before, tsUnixMs);
      }
      var ok := EndTransaction(r.Success?);
      if r.Success? && !ok {
        r := Failure(Sql);
      }
    }
  }

  lemma {:induction false} SuccessorsAreCurrent(mac: Hash, rows: seq<StoredEvent>, k: nat)
    requires k < |rows| && ResignFault(mac, rows, k).None?
    ensures forall i :: k < i < |rows| ==> rows[i].version == CURRENT_HMAC_LAYOUT
  {
    CheckedAreCurrent(mac, rows, k + 1);
  }

  lemma {:induction false} CheckedAreCurrent(mac: Hash, rows: seq<StoredEvent>, i: nat)
    requires 0 < i <= |rows| && SuccessorFault(mac, rows, i).None?
    ensures forall j :: i <= j < |rows| ==> rows[j].version == CURRENT_HMAC_LAYOUT
    decreases |rows| - i
  {
    if i < |rows| {
      CheckedAreCurrent(mac, rows, i + 1);
    }
  }
}
