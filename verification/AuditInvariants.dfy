/** What each write operation keeps, and what whole serial histories keep. */
module AuditInvariants {
  import opened Wrappers
  import opened Bytes
  import opened AuditRow
  import opened LayoutCommit
  import opened ChainVerifier
  import opened AuditTable

  // ---------------------------------------------------------------------
  // Record
  // ---------------------------------------------------------------------

  predicate EventShapedLikeCommitment(e: AuditEvent) {
    CommitmentShaped(CURRENT_HMAC_LAYOUT, e.profileId, e.primitive, e.action, e.flags)
  }

  /** A recorded row is linked, ordered and tagged; only the pin can be wrong. */
  lemma RecordedRowSound(h: Hashes, rows: seq<StoredEvent>, id: Int64, event: AuditEvent)
    ensures var e := SignedRow(h.mac, id, event, TipTag(rows));
            RowSound(h, rows + [e], |rows|) <==>
            (EventShapedLikeCommitment(event) ==> event.argsHash == h.sha(DigestInput(LegacyRows(rows))))
  {
    var e := SignedRow(h.mac, id, event, TipTag(rows));
    var longer := rows + [e];
    assert longer[..|rows|] == rows;
    assert Linked(longer, |rows|) && Ordered(longer, |rows|) && Tagged(h.mac, e);
    assert IsCommitment(e) <==> EventShapedLikeCommitment(event);
  }

  /**
   Recording keeps a log sound exactly when the event is not shaped like a
   commitment or carries the digest of the legacy rows; it never repairs one.
   */
  lemma RecordKeepsSound(h: Hashes, t: Table, event: AuditEvent)
    requires ValidTable(t) && t.sequence < MAX_ROWID
    ensures Sound(h, Recorded(h.mac, t, event).rows) <==>
            && Sound(h, t.rows)
            && (EventShapedLikeCommitment(event) ==> event.argsHash == h.sha(DigestInput(LegacyRows(t.rows))))
  {
    SoundSnoc(h, t.rows, SignedRow(h.mac, t.sequence + 1, event, TipTag(t.rows)));
    RecordedRowSound(h, t.rows, t.sequence + 1, event);
  }

  /** Recording one event adds one row, none of them legacy. */
  lemma RecordCounts(h: Hashes, t: Table, event: AuditEvent)
    requires t.sequence < MAX_ROWID
    ensures var after := Recorded(h.mac, t, event).rows;
            && LegacyRows(after) == LegacyRows(t.rows)
            && Commitments(after) == Commitments(t.rows)
               + if EventShapedLikeCommitment(event) then [after[|t.rows|]] else []
  {
    FiltersSnoc(t.rows, SignedRow(h.mac, t.sequence + 1, event, TipTag(t.rows)));
  }

  // ---------------------------------------------------------------------
  // Status update
  // ---------------------------------------------------------------------

  /** A passed successor check says of every successor what the verifier would. */
  lemma {:induction false} SuccessorsSound(mac: Hash, rows: seq<StoredEvent>, i: nat, j: nat)
    requires 0 < i <= j < |rows|
    requires SuccessorFault(mac, rows, i).None?
    ensures Linked(rows, j) && rows[j].version == CURRENT_HMAC_LAYOUT && Tagged(mac, rows[j])
    decreases j - i
  {
    if i < j {
      SuccessorsSound(mac, rows, i + 1, j);
    }
  }

  /** The columns the verifier reads beside link and tag. */
  predicate SameShape(e: StoredEvent, f: StoredEvent) {
    && e.version == f.version
    && e.fields.id == f.fields.id
    && e.fields.argsHash == f.fields.argsHash
    && IsCommitment(e) == IsCommitment(f)
  }

  /** Row `i` looks the same to the verifier in both logs, its predecessors' legacy rows aside. */
  predicate RowKept(mac: Hash, rows: seq<StoredEvent>, after: seq<StoredEvent>, i: nat)
    requires i < |rows| == |after|
  {
    && SameShape(rows[i], after[i])
    && Linked(rows, i) == Linked(after, i)
    && MacVerifies(mac, rows[i]) == MacVerifies(mac, after[i])
  }

  /** `after` is `rows` re-signed from row `k` on. */
  ghost predicate Resigned(mac: Hash, rows: seq<StoredEvent>, after: seq<StoredEvent>, k: nat) {
    && k < |rows| == |after|
    && (forall i :: 0 <= i < k ==> after[i] == rows[i])
    && (forall i :: 0 <= i < |rows| ==> RowKept(mac, rows, after, i))
    && (k + 1 < |rows| ==> forall i :: k <= i < |rows| ==> !IsLegacyLayout(rows[i].version))
  }

  lemma UpdateKeepsRow(mac: Hash, rows: seq<StoredEvent>, id: Int64, update: StatusUpdate, k: nat, tag: Tag, i: nat)
    requires DecideUpdate(mac, rows, id, update) == Success((k, tag))
    requires i < |rows|
    ensures RowKept(mac, rows, UpdatedRows(mac, rows, k, update, tag), i)
    ensures i < k ==> UpdatedRows(mac, rows, k, update, tag)[i] == rows[i]
    ensures k < i ==> rows[i].version == CURRENT_HMAC_LAYOUT
  {
    var after := UpdatedRows(mac, rows, k, update, tag);
    UpdatedAt(mac, rows, k, update, tag, i);
    if i > 0 {
      UpdatedAt(mac, rows, k, update, tag, i - 1);
    }
    if i == k {
      StampKeepsShape(mac, rows[k], update, tag);
    } else if i > k {
      SuccessorsSound(mac, rows, k + 1, i);
      RelinkedIsTagged(mac, rows[i], after[i - 1].hmac);
    }
  }

  lemma StampKeepsShape(mac: Hash, r: StoredEvent, update: StatusUpdate, tag: Tag)
    requires Tagged(mac, r) && TagFor(mac, r.version, Stamp(r.fields, update)) == Success(tag)
    ensures Tagged(mac, UpdatedTarget(r, update, tag)) && SameShape(r, UpdatedTarget(r, update, tag))
  {
  }

  lemma RelinkedIsTagged(mac: Hash, r: StoredEvent, prev: Text)
    requires r.version == CURRENT_HMAC_LAYOUT
    ensures Tagged(mac, Relinked(mac, r, prev)) && SameShape(r, Relinked(mac, r, prev))
    ensures Relinked(mac, r, prev).fields.prevHmac == prev
  {
  }

  lemma UpdateIsResigned(
      mac: Hash, rows: seq<StoredEvent>, id: Int64, update: StatusUpdate, k: nat, tag: Tag, after: seq<StoredEvent>)
    requires DecideUpdate(mac, rows, id, update) == Success((k, tag))
    requires after == UpdatedRows(mac, rows, k, update, tag)
    ensures Resigned(mac, rows, after, k)
  {
    forall i | 0 <= i < |rows|
      ensures RowKept(mac, rows, after, i)
    {
      UpdateKeepsRow(mac, rows, id, update, k, tag, i);
    }
    forall i | 0 <= i < k
      ensures after[i] == rows[i]
    {
      UpdateKeepsRow(mac, rows, id, update, k, tag, i);
    }
    if k + 1 < |rows| {
      TargetWithSuccessors(mac, rows, k);
      forall i | k < i < |rows|
        ensures !IsLegacyLayout(rows[i].version)
      {
        UpdateKeepsRow(mac, rows, id, update, k, tag, i);
      }
    }
  }

  lemma TargetWithSuccessors(mac: Hash, rows: seq<StoredEvent>, k: nat)
    requires k + 1 < |rows| && ResignFault(mac, rows, k).None?
    ensures !IsLegacyLayout(rows[k].version)
  {
  }

  /** Re-signing changes no legacy row that any row's pin could cover. */
  lemma ResigningKeepsLegacy(mac: Hash, rows: seq<StoredEvent>, after: seq<StoredEvent>, k: nat, i: nat)
    requires Resigned(mac, rows, after, k) && i <= |rows|
    requires i < |rows| || !IsLegacyLayout(rows[k].version)
    ensures LegacyRows(after[..i]) == LegacyRows(rows[..i])
  {
    hide MacVerifies;
    if i <= k {
      assert after[..i] == rows[..i];
    } else {
      forall j | k <= j < i
        ensures !IsLegacyLayout(rows[..i][j].version) && !IsLegacyLayout(after[..i][j].version)
      {
        assert RowKept(mac, rows, after, j);
        assert SameShape(rows[j], after[j]);
      }
      LegacyRowsOfCurrentTail(rows[..i], k);
      LegacyRowsOfCurrentTail(after[..i], k);
      assert rows[..i][..k] == rows[..k] == after[..k] == after[..i][..k];
    }
  }

  lemma SameShapeSameFilters(e: StoredEvent, f: StoredEvent)
    requires SameShape(e, f)
    ensures e.fields.id == f.fields.id
    ensures IsCommitment(e) == IsCommitment(f) && IsLegacyLayout(e.version) == IsLegacyLayout(f.version)
  {
  }

  /** Logs whose rows have the same shapes have the same counts and the same first commitment. */
  lemma {:induction false} SameShapesSameReport(rows: seq<StoredEvent>, after: seq<StoredEvent>)
    requires |rows| == |after|
    requires forall i :: 0 <= i < |rows| ==> SameShape(rows[i], after[i])
    ensures Report(after) == Report(rows)
    ensures Commitments(rows) != [] ==> Commitments(after)[0].fields.id == Commitments(rows)[0].fields.id
  {
    hide SameShape, IsCommitment;
    if rows != [] {
      var n := |rows| - 1;
      SameShapesSameReport(rows[..n], after[..n]);
      SameShapeSameFilters(rows[n], after[n]);
      FiltersLast(rows);
      FiltersLast(after);
    }
  }

  /** Both filters, one row from the end. */
  lemma FiltersLast(rows: seq<StoredEvent>)
    requires rows != []
    ensures var (init, last) := (rows[..|rows| - 1], rows[|rows| - 1]);
            && |LegacyRows(rows)| == |LegacyRows(init)| + (if IsLegacyLayout(last.version) then 1 else 0)
            && Commitments(rows) == Commitments(init) + if IsCommitment(last) then [last] else []
  {
    hide IsCommitment;
  }

  /** Re-signing leaves the verifier's complaint about every row as it was. */
  lemma ResigningKeepsFault(h: Hashes, rows: seq<StoredEvent>, after: seq<StoredEvent>, k: nat, i: nat)
    requires Resigned(h.mac, rows, after, k) && i < |rows|
    ensures RowFault(h, after, i) == RowFault(h, rows, i)
  {
    ResigningKeepsLegacy(h.mac, rows, after, k, i);
    assert RowKept(h.mac, rows, after, i);
    forall j | 0 <= j < |rows|
      ensures rows[j].version == after[j].version
    {
      assert RowKept(h.mac, rows, after, j);
    }
    assert SeenCurrent(rows, i) == SeenCurrent(after, i);
  }

  lemma {:induction false} SameFaultsSameVerdict(h: Hashes, a: seq<StoredEvent>, b: seq<StoredEvent>, i: nat)
    requires |a| == |b| && i <= |a| && Report(a) == Report(b)
    requires forall j :: 0 <= j < |a| ==> RowFault(h, a, j) == RowFault(h, b, j)
    ensures VerdictFrom(h, a, i) == VerdictFrom(h, b, i)
    decreases |a| - i
  {
    hide RowFault;
    if i < |a| {
      SameFaultsSameVerdict(h, a, b, i + 1);
    }
  }

  /**
   A successful status update leaves the verdict on the whole log exactly as
   it was: it neither breaks a sound chain nor launders a broken one.
   */
  lemma UpdateKeepsVerdict(h: Hashes, t: Table, id: Int64, update: StatusUpdate)
    requires ValidTable(t)
    ensures Verdict(h, Perform(h, t, UpdateStatus(id, update)).rows) == Verdict(h, t.rows)
  {
    var found := DecideUpdate(h.mac, t.rows, id, update);
    if found.Success? {
      var (k, tag) := found.value;
      var after := UpdatedRows(h.mac, t.rows, k, update, tag);
      PerformUpdate(h, t, id, update, k, tag);
      UpdateIsResigned(h.mac, t.rows, id, update, k, tag, after);
      ResigningKeepsVerdict(h, t.rows, after, k);
    }
  }

  lemma ResigningKeepsVerdict(h: Hashes, rows: seq<StoredEvent>, after: seq<StoredEvent>, k: nat)
    requires Resigned(h.mac, rows, after, k)
    ensures Verdict(h, after) == Verdict(h, rows)
    ensures Report(after) == Report(rows)
    ensures Commitments(rows) != [] ==> Commitments(after)[0].fields.id == Commitments(rows)[0].fields.id
  {
    forall i | 0 <= i < |rows|
      ensures RowFault(h, after, i) == RowFault(h, rows, i)
      ensures SameShape(rows[i], after[i])
    {
      ResigningKeepsFault(h, rows, after, k, i);
      assert RowKept(h.mac, rows, after, i);
    }
    SameShapesSameReport(rows, after);
    SameFaultsSameVerdict(h, rows, after, 0);
  }

  // ---------------------------------------------------------------------
  // Commit
  // ---------------------------------------------------------------------

  /** After a verification that passed, no commitment can be stale. */
  lemma StaleBranchIsUnreachable(h: Hashes, t: Table)
    requires Sound(h, t.rows)
    ensures FirstMismatch(Commitments(t.rows), h.sha(DigestInput(LegacyRows(t.rows)))).None?
  {
    var digest := h.sha(DigestInput(LegacyRows(t.rows)));
    forall c | c in Commitments(t.rows)
      ensures c.fields.argsHash == digest
    {
      var i :| 0 <= i < |t.rows| && t.rows[i] == c;
      PrefixDigestIsWholeDigest(h, t.rows, i);
    }
  }

  /** What `commit-layout` answers, exactly, in terms of the log alone. */
  lemma CommitAnswers(h: Hashes, t: Table)
    requires ValidTable(t)
    ensures !Sound(h, t.rows) <==> DecideCommit(h, t).Failure? && DecideCommit(h, t).error.Chain?
    ensures !Sound(h, t.rows) ==> exists i: nat :: LeastFault(h, t.rows, i, DecideCommit(h, t).error.error)
    ensures Sound(h, t.rows) ==>
              DecideCommit(h, t) ==
              if LegacyRows(t.rows) == [] then Success(NothingToCommit)
              else if Commitments(t.rows) != [] then
                Success(AlreadyCommitted(Commitments(t.rows)[0].fields.id, |LegacyRows(t.rows)|))
              else if t.sequence >= MAX_ROWID then Failure(Sql)
              else Success(Committed(t.sequence + 1, |LegacyRows(t.rows)|, h.sha(DigestInput(LegacyRows(t.rows)))))
  {
    VerdictMeaning(h, t.rows);
    if Sound(h, t.rows) {
      StaleBranchIsUnreachable(h, t);
    }
  }

  /** A commit that appends keeps the log sound and pins what was there. */
  lemma CommitKeepsSound(h: Hashes, t: Table, ts: Int64)
    requires ValidTable(t) && Sound(h, t.rows)
    ensures Sound(h, Perform(h, t, CommitLayout(ts)).rows)
    ensures LegacyRows(Perform(h, t, CommitLayout(ts)).rows) == LegacyRows(t.rows)
    ensures Commitments(t.rows) != [] || LegacyRows(t.rows) == [] ==> Perform(h, t, CommitLayout(ts)) == t
    ensures |Commitments(Perform(h, t, CommitLayout(ts)).rows)|
            <= if Commitments(t.rows) == [] then 1 else |Commitments(t.rows)|
  {
    hide DecideCommit, Perform;
    CommitAnswers(h, t);
    PerformCommit(h, t, ts);
    var decision := DecideCommit(h, t);
    if decision.Success? && decision.value.Committed? {
      var event := CommitmentEvent(decision.value.digest, ts);
      RecordKeepsSound(h, t, event);
      RecordCounts(h, t, event);
    }
  }

  // ---------------------------------------------------------------------
  // Every operation, and every serial history
  // ---------------------------------------------------------------------

  /** No one records an event that passes for a commitment. */
  predicate Honest(op: Operation) {
    op.Record? ==> !EventShapedLikeCommitment(op.event)
  }

  /** What one step of the log may do to the commitments and the rows they pin. */
  ghost predicate CommitmentsKept(before: seq<StoredEvent>, after: seq<StoredEvent>) {
    && |Commitments(before)| <= |Commitments(after)|
    && |Commitments(after)| <= (if Commitments(before) == [] then 1 else |Commitments(before)|)
    && (Commitments(before) != [] ==>
          && LegacyRows(after) == LegacyRows(before)
          && Commitments(after)[0].fields.id == Commitments(before)[0].fields.id)
  }

  lemma UpdateKeepsCommitments(h: Hashes, t: Table, id: Int64, update: StatusUpdate)
    requires ValidTable(t) && Sound(h, t.rows)
    ensures CommitmentsKept(t.rows, Perform(h, t, UpdateStatus(id, update)).rows)
  {
    var found := DecideUpdate(h.mac, t.rows, id, update);
    if found.Success? {
      var (k, tag) := found.value;
      var after := UpdatedRows(h.mac, t.rows, k, update, tag);
      PerformUpdate(h, t, id, update, k, tag);
      UpdateIsResigned(h.mac, t.rows, id, update, k, tag, after);
      if Commitments(t.rows) != [] {
        CommittedTargetIsCurrent(h, t.rows, k);
      }
      ResigningKeepsCommitments(h, t.rows, after, k);
    }
  }

  lemma ResigningKeepsCommitments(h: Hashes, rows: seq<StoredEvent>, after: seq<StoredEvent>, k: nat)
    requires Resigned(h.mac, rows, after, k)
    requires Commitments(rows) != [] ==> !IsLegacyLayout(rows[k].version)
    ensures CommitmentsKept(rows, after)
  {
    ResigningKeepsVerdict(h, rows, after, k);
    if Commitments(rows) != [] {
      ResigningKeepsLegacy(h.mac, rows, after, k, |rows|);
      assert after[..|rows|] == after && rows[..|rows|] == rows;
    }
  }

  /** With a commitment in the log, a row that may be re-signed is not a legacy row. */
  lemma CommittedTargetIsCurrent(h: Hashes, rows: seq<StoredEvent>, k: nat)
    requires Sound(h, rows) && Commitments(rows) != []
    requires k < |rows| && ResignFault(h.mac, rows, k).None?
    ensures !IsLegacyLayout(rows[k].version)
  {
    if k + 1 < |rows| {
      TargetWithSuccessors(h.mac, rows, k);
    } else {
      var i :| 0 <= i < |rows| && IsCommitment(rows[i]);
      CurrentLayoutIsClosed(h, rows, i, k);
    }
  }

  lemma PerformKeeps(h: Hashes, t: Table, op: Operation)
    requires ValidTable(t) && Sound(h, t.rows) && Honest(op)
    ensures Sound(h, Perform(h, t, op).rows)
    ensures CommitmentsKept(t.rows, Perform(h, t, op).rows)
  {
    match op {
      case Record(event) =>
        if t.sequence < MAX_ROWID {
          PerformRecord(h, t, event);
          RecordKeepsSound(h, t, event);
          RecordCounts(h, t, event);
        }
      case UpdateStatus(id, update) =>
        VerdictMeaning(h, t.rows);
        VerdictMeaning(h, Perform(h, t, op).rows);
        UpdateKeepsVerdict(h, t, id, update);
        UpdateKeepsCommitments(h, t, id, update);
      case CommitLayout(ts) =>
        CommitKeepsSound(h, t, ts);
        CommitAnswers(h, t);
        if DecideCommit(h, t).Success? {
          PerformCommit(h, t, ts);
          if DecideCommit(h, t).value.Committed? {
            RecordCounts(h, t, CommitmentEvent(DecideCommit(h, t).value.digest, ts));
          }
        }
    }
  }

  /** Operations run one after the other. */
  function PerformAll(h: Hashes, t: Table, ops: seq<Operation>): Table {
    if ops == [] then t else Perform(h, PerformAll(h, t, ops[..|ops| - 1]), ops[|ops| - 1])
  }

  /**
   Every serial history of honest operations keeps the log sound, appends at
   most one commitment, and never changes a pinned legacy row again.
   */
  lemma {:induction false} HistoryKeeps(h: Hashes, t: Table, ops: seq<Operation>)
    requires ValidTable(t) && Sound(h, t.rows)
    requires forall i :: 0 <= i < |ops| ==> Honest(ops[i])
    ensures ValidTable(PerformAll(h, t, ops)) && Sound(h, PerformAll(h, t, ops).rows)
    ensures CommitmentsKept(t.rows, PerformAll(h, t, ops).rows)
  {
    if ops != [] {
      var n := |ops| - 1;
      HistoryKeeps(h, t, ops[..n]);
      var u := PerformAll(h, t, ops[..n]);
      PerformKeeps(h, u, ops[n]);
      PerformKeepsValid(h, u, ops[n]);
    }
  }

  lemma {:induction false} PerformAllAppend(h: Hashes, t: Table, ops: seq<Operation>, more: seq<Operation>)
    ensures PerformAll(h, t, ops + more) == PerformAll(h, PerformAll(h, t, ops), more)
  {
    if more == [] {
      assert ops + more == ops;
    } else {
      var n := |more| - 1;
      assert (ops + more)[..|ops| + n] == ops + more[..n];
      PerformAllAppend(h, t, ops, more[..n]);
    }
  }

  /** Once a commit has answered for a row, every later commit gives the same answer. */
  lemma LaterCommitsAgree(h: Hashes, t: Table, ops: seq<Operation>)
    requires ValidTable(t) && Sound(h, t.rows)
    requires forall i :: 0 <= i < |ops| ==> Honest(ops[i])
    requires Commitments(t.rows) != [] && LegacyRows(t.rows) != []
    ensures DecideCommit(h, t).Success? && DecideCommit(h, t).value.AlreadyCommitted?
    ensures DecideCommit(h, PerformAll(h, t, ops)) == DecideCommit(h, t)
  {
    HistoryKeeps(h, t, ops);
    CommitAnswers(h, t);
    CommitAnswers(h, PerformAll(h, t, ops));
  }

  /** A commit that appended fixes the answer of every later commit: its own row and count. */
  lemma CommitIsFinal(h: Hashes, t: Table, ts: Int64, ops: seq<Operation>)
    requires ValidTable(t)
    requires DecideCommit(h, t).Success? && DecideCommit(h, t).value.Committed?
    requires forall i :: 0 <= i < |ops| ==> Honest(ops[i])
    ensures var outcome := DecideCommit(h, t).value;
            DecideCommit(h, PerformAll(h, Perform(h, t, CommitLayout(ts)), ops))
            == Success(AlreadyCommitted(outcome.row, outcome.legacyRows))
  {
    var outcome, u := DecideCommit(h, t).value, Perform(h, t, CommitLayout(ts));
    CommitAnswers(h, t);
    CommitKeepsSound(h, t, ts);
    AppendedCommitment(h, t, ts);
    CommitAnswers(h, u);
    LaterCommitsAgree(h, u, ops);
  }

  lemma AppendedCommitment(h: Hashes, t: Table, ts: Int64)
    requires ValidTable(t)
    requires DecideCommit(h, t).Success? && DecideCommit(h, t).value.Committed?
    ensures var u := Perform(h, t, CommitLayout(ts));
            ValidTable(u) && LegacyRows(u.rows) == LegacyRows(t.rows) != []
            && |Commitments(u.rows)| == 1 && Commitments(u.rows)[0].fields.id == DecideCommit(h, t).value.row
  {
    var event := CommitmentEvent(DecideCommit(h, t).value.digest, ts);
    PerformCommit(h, t, ts);
    PerformRecord(h, t, event);
    RecordCounts(h, t, event);
  }

  /** What the successor check demands of the rows `rows[i..]`. */
  ghost predicate SuccessorsAuthentic(mac: Hash, rows: seq<StoredEvent>, i: nat) {
    forall j :: i <= j < |rows| ==> Linked(rows, j) && rows[j].version == CURRENT_HMAC_LAYOUT && Tagged(mac, rows[j])
  }

  lemma {:induction false} SuccessorCheck(mac: Hash, rows: seq<StoredEvent>, i: nat)
    requires 0 < i <= |rows|
    ensures SuccessorFault(mac, rows, i).None? <==> SuccessorsAuthentic(mac, rows, i)
    decreases |rows| - i
  {
    if i < |rows| {
      SuccessorCheck(mac, rows, i + 1);
    }
  }

  /** An update of an id no row has is refused. */
  lemma UpdateFindsRow(mac: Hash, rows: seq<StoredEvent>, id: Int64, update: StatusUpdate)
    requires Increasing(rows)
    ensures DecideUpdate(mac, rows, id, update) == Failure(RowNotFound(id))
            <==> forall k :: 0 <= k < |rows| ==> rows[k].fields.id != id
  {
    var k := StartOf(rows, id);
    assert forall i :: k < i < |rows| ==> rows[i].fields.id > rows[k].fields.id;
  }

  /**
   Exactly when the update of row `k` goes through: the row is authentic,
   everything chained after it is linked, current and authentic, a legacy row
   is the tip, and the stamped row is encodable. Nothing else is re-signed.
   */
  lemma UpdateAccepted(mac: Hash, rows: seq<StoredEvent>, k: nat, update: StatusUpdate)
    requires Increasing(rows) && k < |rows|
    ensures DecideUpdate(mac, rows, rows[k].fields.id, update).Success? <==>
            && Tagged(mac, rows[k])
            && (k + 1 < |rows| ==> !IsLegacyLayout(rows[k].version))
            && SuccessorsAuthentic(mac, rows, k + 1)
            && TagFor(mac, rows[k].version, Stamp(rows[k].fields, update)).Success?
  {
    assert StartOf(rows, rows[k].fields.id) == k;
    SuccessorCheck(mac, rows, k + 1);
  }
}
