/**
 The table behind the log, the SQL statements of the writers, and what each
 of the three write operations decides and does, as functions of the table
 (src/audit/writer.rs, src/audit/layout_commit.rs).
 */
module AuditTable {
  import opened Wrappers
  import opened Bytes
  import opened AuditRow
  import opened LayoutCommit
  import opened ChainVerifier

  const MAX_ROWID: nat := 0x7fff_ffff_ffff_ffff

  datatype Status = Started | Ok | Error {
    function AsText(): Text {
      match this
      case Started => Ascii("started")
      case Ok => Ascii("ok")
      case Error => Ascii("error")
    }
  }

  datatype Severity = Info | Warn | Severe {
    function AsText(): Text {
      match this
      case Info => Ascii("info")
      case Warn => Ascii("warn")
      case Severe => Ascii("error")
    }
  }

  datatype AuditEvent = AuditEvent(
    tsUnixMs: Int64,
    profileId: Text,
    primitive: Text,
    action: Text,
    argsHash: Text,
    status: Status,
    severity: Severity,
    flags: Text,
    remoteAuditId: Option<Text>,
    errorCode: Option<Text>,
    errorMessage: Option<Text>)

  datatype StatusUpdate = StatusUpdate(
    status: Status,
    severity: Severity,
    errorCode: Option<Text>,
    errorMessage: Option<Text>)

  /** `audit_events` in id order, and SQLite's AUTOINCREMENT counter. */
  datatype Table = Table(rows: seq<StoredEvent>, sequence: nat)

  predicate Increasing(rows: seq<StoredEvent>) {
    forall i, j :: 0 <= i < j < |rows| ==> rows[i].fields.id < rows[j].fields.id
  }

  predicate ValidTable(t: Table) {
    && Increasing(t.rows)
    && (forall i :: 0 <= i < |t.rows| ==> t.rows[i].fields.id <= t.sequence)
    && t.sequence <= MAX_ROWID
  }

  datatype AuditError =
    | Chain(error: ChainError)
    | RowNotFound(id: Int64)
    | Rehash(id: Int64, why: LayoutError)
    | Locked
    | Sql
    | OwnTransaction

  // ---------------------------------------------------------------------
  // Statements
  // ---------------------------------------------------------------------

  datatype Statement =
    | InsertPlaceholder(event: AuditEvent, prev: Text)
    | SetTag(id: Int64, tag: Text)
    | SetOutcome(id: Int64, update: StatusUpdate, tag: Text)
    | SetLink(id: Int64, prev: Text, tag: Text)

  function Stamp(fields: RowFields, update: StatusUpdate): RowFields {
    fields.(status := update.status.AsText(), severity := update.severity.AsText(),
            errorCode := update.errorCode, errorMessage := update.errorMessage)
  }

  /** `UPDATE ... WHERE id = ?`, seen by one row. */
  function Touch(s: Statement, r: StoredEvent): StoredEvent {
    match s
    case InsertPlaceholder(_, _) => r
    case SetTag(id, tag) => if r.fields.id == id then r.(hmac := tag) else r
    case SetOutcome(id, update, tag) =>
      if r.fields.id == id then r.(fields := Stamp(r.fields, update), hmac := tag) else r
    case SetLink(id, prev, tag) =>
      if r.fields.id == id then r.(fields := r.fields.(prevHmac := prev), hmac := tag) else r
  }

  function TouchAll(s: Statement, rows: seq<StoredEvent>): (r: seq<StoredEvent>)
    ensures |r| == |rows|
    ensures forall i :: 0 <= i < |rows| ==> r[i] == Touch(s, rows[i])
  {
    seq(|rows|, i requires 0 <= i < |rows| => Touch(s, rows[i]))
  }

  /** The row an insert creates: current layout, empty placeholder tag. */
  function Placeholder(id: Int64, event: AuditEvent, prev: Text): StoredEvent {
    StoredEvent(
      RowFields(id, event.tsUnixMs, event.profileId, event.primitive, event.action, event.argsHash,
                event.status.AsText(), event.severity.AsText(), event.flags, prev,
                event.remoteAuditId, event.errorCode, event.errorMessage),
      CURRENT_HMAC_LAYOUT, [])
  }

  /** One statement; None when the AUTOINCREMENT counter is exhausted. */
  function Execute(t: Table, s: Statement): Option<Table> {
    if s.InsertPlaceholder? then
      if t.sequence >= MAX_ROWID then None
      else Some(Table(t.rows + [Placeholder(t.sequence + 1, s.event, s.prev)], t.sequence + 1))
    else Some(t.(rows := TouchAll(s, t.rows)))
  }

  function ExecuteAll(t: Table, statements: seq<Statement>): Option<Table> {
    if statements == [] then Some(t)
    else
      match ExecuteAll(t, statements[..|statements| - 1])
      case None => None
      case Some(u) => Execute(u, statements[|statements| - 1])
  }

  lemma ExecuteAllSnoc(t: Table, statements: seq<Statement>, s: Statement)
    ensures ExecuteAll(t, statements + [s]) ==
            match ExecuteAll(t, statements) case None => None case Some(u) => Execute(u, s)
  {
    assert (statements + [s])[..|statements|] == statements;
  }

  /** Statements never renumber, drop or reorder rows. */
  lemma ExecuteKeepsValid(t: Table, s: Statement)
    requires ValidTable(t) && Execute(t, s).Some?
    ensures ValidTable(Execute(t, s).value)
  {
    var u := Execute(t, s).value;
    if s.InsertPlaceholder? {
      assert forall i :: 0 <= i < |t.rows| ==> u.rows[i] == t.rows[i];
    } else {
      assert forall i :: 0 <= i < |t.rows| ==> u.rows[i].fields.id == t.rows[i].fields.id;
    }
  }

  // ---------------------------------------------------------------------
  // Record
  // ---------------------------------------------------------------------

  function TipTag(rows: seq<StoredEvent>): Text {
    PrevTag(rows, |rows|)
  }

  /** The row `record` leaves behind: linked to the tip, tagged under the current layout. */
  function SignedRow(mac: Hash, id: Int64, event: AuditEvent, prev: Text): StoredEvent {
    var p := Placeholder(id, event, prev);
    p.(hmac := mac(InjectiveEncoding(V4_DOMAIN, 4, p.fields)))
  }

  /** The texts the status and severity columns hold. */
  predicate StatusText(status: Status, text: Text) {
    match status
    case Started => text == Ascii("started")
    case Ok => text == Ascii("ok")
    case Error => text == Ascii("error")
  }

  predicate SeverityText(severity: Severity, text: Text) {
    match severity
    case Info => text == Ascii("info")
    case Warn => text == Ascii("warn")
    case Severe => text == Ascii("error")
  }

  /** The columns of a row are those of an event. */
  predicate HoldsEvent(f: RowFields, event: AuditEvent) {
    && f.tsUnixMs == event.tsUnixMs
    && f.profileId == event.profileId
    && f.primitive == event.primitive
    && f.action == event.action
    && f.argsHash == event.argsHash
    && StatusText(event.status, f.status)
    && SeverityText(event.severity, f.severity)
    && f.flags == event.flags
    && f.remoteAuditId == event.remoteAuditId
    && f.errorCode == event.errorCode
    && f.errorMessage == event.errorMessage
  }

  /**
   `after` is `t` and one more row, the event's: next id, current layout, every
   column the event's own, linked to the last tag (nothing on an empty table)
   and tagged as the verifier will tag it.
   */
  predicate Appends(mac: Hash, t: Table, after: Table, event: AuditEvent) {
    && |after.rows| == |t.rows| + 1 && after.rows[..|t.rows|] == t.rows
    && after.sequence == t.sequence + 1
    && var row := after.rows[|t.rows|];
       && row.fields.id == t.sequence + 1
       && row.version == 4
       && HoldsEvent(row.fields, event)
       && row.fields.prevHmac == (if t.rows == [] then [] else t.rows[|t.rows| - 1].hmac)
       && TagFor(mac, 4, row.fields) == Success(row.hmac)
  }

  /** The recorded row is the event. */
  lemma RecordedRowIsEvent(mac: Hash, t: Table, event: AuditEvent)
    requires t.sequence < MAX_ROWID
    ensures Appends(mac, t, Recorded(mac, t, event), event)
  {
  }

  lemma SignedTag(mac: Hash, id: Int64, event: AuditEvent, prev: Text)
    ensures SignedRow(mac, id, event, prev).hmac
            == mac(InjectiveEncoding(V4_DOMAIN, 4, Placeholder(id, event, prev).fields))
  {
  }

  function Recorded(mac: Hash, t: Table, event: AuditEvent): Table
    requires t.sequence < MAX_ROWID
  {
    Table(t.rows + [SignedRow(mac, t.sequence + 1, event, TipTag(t.rows))], t.sequence + 1)
  }

  function RecordPlan(mac: Hash, t: Table, event: AuditEvent): seq<Statement>
    requires t.sequence < MAX_ROWID
  {
    var prev := TipTag(t.rows);
    [InsertPlaceholder(event, prev), SetTag(t.sequence + 1, SignedRow(mac, t.sequence + 1, event, prev).hmac)]
  }

  /** Tagging the fresh id touches the placeholder and no other row. */
  lemma TagPlaceholder(mac: Hash, t: Table, event: AuditEvent)
    requires ValidTable(t) && t.sequence < MAX_ROWID
    ensures var plan := RecordPlan(mac, t, event);
            var inserted := Execute(t, plan[0]);
            inserted.Some? && Execute(inserted.value, plan[1]) == Some(Recorded(mac, t, event))
    ensures ValidTable(Recorded(mac, t, event))
    ensures var after := Recorded(mac, t, event);
            |after.rows| == |t.rows| + 1 && after.sequence == t.sequence + 1 == after.rows[|t.rows|].fields.id
  {
    var plan := RecordPlan(mac, t, event);
    var u := Execute(t, plan[0]).value;
    var v := Execute(u, plan[1]).value;
    assert v.rows == Recorded(mac, t, event).rows;
    ExecuteKeepsValid(t, plan[0]);
    ExecuteKeepsValid(u, plan[1]);
  }

  lemma RecordPlanRecords(mac: Hash, t: Table, event: AuditEvent)
    requires ValidTable(t) && t.sequence < MAX_ROWID
    ensures ExecuteAll(t, RecordPlan(mac, t, event)) == Some(Recorded(mac, t, event))
  {
    var plan := RecordPlan(mac, t, event);
    TagPlaceholder(mac, t, event);
    assert plan == [plan[0]] + [plan[1]] && [plan[0]] == [] + [plan[0]];
    ExecuteAllSnoc(t, [], plan[0]);
    ExecuteAllSnoc(t, [plan[0]], plan[1]);
  }

  // ---------------------------------------------------------------------
  // Status update
  // ---------------------------------------------------------------------

  /** How many rows precede `id`: where `list_from(id)` starts. */
  function StartOf(rows: seq<StoredEvent>, id: Int64): (k: nat)
    ensures k <= |rows|
    ensures forall i :: 0 <= i < k ==> rows[i].fields.id < id
    ensures k < |rows| ==> rows[k].fields.id >= id
  {
    if rows == [] || rows[0].fields.id >= id then 0
    else
      assert rows == [rows[0]] + rows[1..];
      1 + StartOf(rows[1..], id)
  }

  /** The first complaint about the successors `rows[i..]`, in the order the writer checks. */
  function SuccessorFault(mac: Hash, rows: seq<StoredEvent>, i: nat): Option<ChainError>
    requires 0 < i <= |rows|
    decreases |rows| - i
  {
    if i == |rows| then None
    else
      var s := rows[i];
      if s.fields.prevHmac != rows[i - 1].hmac then Some(ChainBroken(s.fields.id))
      else if s.version != CURRENT_HMAC_LAYOUT then Some(LayoutViolation(s.fields.id, LegacyAfterCurrent(s.version)))
      else
        match TagFault(mac, s)
        case Some(error) => Some(error)
        case None => SuccessorFault(mac, rows, i + 1)
  }

  /** Why row `k` and its successors may not be re-signed, if they may not. */
  function ResignFault(mac: Hash, rows: seq<StoredEvent>, k: nat): Option<ChainError>
    requires k < |rows|
  {
    var target := rows[k];
    match TagFault(mac, target)
    case Some(error) => Some(error)
    case None =>
      if k + 1 < |rows| && IsLegacyLayout(target.version) then
        Some(LayoutViolation(target.fields.id, LegacyTargetHasSuccessors(target.version)))
      else SuccessorFault(mac, rows, k + 1)
  }

  /** A current-layout row with a new link, re-tagged. */
  function Relinked(mac: Hash, r: StoredEvent, prev: Text): StoredEvent {
    var fields := r.fields.(prevHmac := prev);
    r.(fields := fields, hmac := mac(InjectiveEncoding(V4_DOMAIN, 4, fields)))
  }

  lemma RelinkedTag(mac: Hash, r: StoredEvent, prev: Text)
    requires r.version == CURRENT_HMAC_LAYOUT
    ensures var fields := r.fields.(prevHmac := prev);
            TagFor(mac, r.version, fields).Success?
            && Relinked(mac, r, prev) == r.(fields := fields, hmac := TagFor(mac, r.version, fields).value)
  {
  }

  /** Successors re-linked one after the other, each tagged over its new link. */
  function Rechain(mac: Hash, tag: Text, rows: seq<StoredEvent>): (r: seq<StoredEvent>)
    ensures |r| == |rows|
    decreases |rows|
  {
    if rows == [] then []
    else
      var next := Relinked(mac, rows[0], tag);
      [next] + Rechain(mac, next.hmac, rows[1..])
  }

  function UpdatedTarget(target: StoredEvent, update: StatusUpdate, tag: Text): StoredEvent {
    target.(fields := Stamp(target.fields, update), hmac := tag)
  }

  /** The log after a successful update of row `k`. */
  function UpdatedRows(
      mac: Hash, rows: seq<StoredEvent>, k: nat, update: StatusUpdate, tag: Text): (r: seq<StoredEvent>)
    requires k < |rows|
    ensures |r| == |rows|
  {
    rows[..k] + [UpdatedTarget(rows[k], update, tag)] + Rechain(mac, tag, rows[k + 1..])
  }

  /** The row to update and its new tag, or the refusal. */
  function DecideUpdate(
      mac: Hash, rows: seq<StoredEvent>, id: Int64, update: StatusUpdate): (r: Result<(nat, Tag), AuditError>)
    ensures r.Success? ==> r.value.0 < |rows| && rows[r.value.0].fields.id == id
    ensures r.Success? ==> ResignFault(mac, rows, r.value.0).None?
    ensures r.Success? ==>
            TagFor(mac, rows[r.value.0].version, Stamp(rows[r.value.0].fields, update)) == Success(r.value.1)
  {
    var k := StartOf(rows, id);
    if k == |rows| || rows[k].fields.id != id then Failure(RowNotFound(id))
    else
      match ResignFault(mac, rows, k)
      case Some(error) => Failure(Chain(error))
      case None =>
        match TagFor(mac, rows[k].version, Stamp(rows[k].fields, update))
        case Failure(why) => Failure(Rehash(id, why))
        case Success(tag) => Success((k, tag))
  }

  /** What `Rechain` does to row `i`: a new link, a new tag, nothing else. */
  lemma {:induction false} RechainAt(mac: Hash, tag: Text, rows: seq<StoredEvent>, i: nat)
    requires i < |rows|
    ensures var r := Rechain(mac, tag, rows);
            r[i] == Relinked(mac, rows[i], if i == 0 then tag else r[i - 1].hmac)
    decreases i
  {
    if i > 0 {
      var r := Rechain(mac, tag, rows);
      RechainAt(mac, r[0].hmac, rows[1..], i - 1);
      assert r[1..] == Rechain(mac, r[0].hmac, rows[1..]);
    }
  }

  /** A row of the updated log, column by column. */
  lemma UpdatedAt(mac: Hash, rows: seq<StoredEvent>, k: nat, update: StatusUpdate, tag: Text, i: nat)
    requires k < |rows| && i < |rows|
    ensures var after := UpdatedRows(mac, rows, k, update, tag);
            && (i < k ==> after[i] == rows[i])
            && (i == k ==> after[i] == UpdatedTarget(rows[k], update, tag))
            && (i > k ==> after[i] == Relinked(mac, rows[i], after[i - 1].hmac))
  {
    hide Relinked;
    var tail := rows[k + 1..];
    var chained, after := Rechain(mac, tag, tail), UpdatedRows(mac, rows, k, update, tag);
    hide Rechain;
    assert after == rows[..k] + [UpdatedTarget(rows[k], update, tag)] + chained;
    assert i > k ==> after[i] == chained[i - k - 1];
    if i > k {
      RechainAt(mac, tag, tail, i - k - 1);
      assert tail[i - k - 1] == rows[i];
      assert i > k + 1 ==> after[i - 1] == chained[i - k - 2];
    }
  }

  /**
   `after` differs from `rows` only in the four status columns of row `k`, in
   its tag, and in the links and tags of the rows after it.
   */
  ghost predicate OnlyResigned(rows: seq<StoredEvent>, after: seq<StoredEvent>, k: nat, update: StatusUpdate) {
    && k < |rows| == |after|
    && (forall i :: 0 <= i < k ==> after[i] == rows[i])
    && after[k] == rows[k].(
                     fields := rows[k].fields.(status := after[k].fields.status, severity := after[k].fields.severity,
                                               errorCode := update.errorCode, errorMessage := update.errorMessage),
                     hmac := after[k].hmac)
    && StatusText(update.status, after[k].fields.status)
    && SeverityText(update.severity, after[k].fields.severity)
    && (forall i :: k < i < |rows| ==>
          after[i] == rows[i].(fields := rows[i].fields.(prevHmac := after[i].fields.prevHmac), hmac := after[i].hmac))
  }

  lemma UpdateOnlyResigns(mac: Hash, rows: seq<StoredEvent>, k: nat, update: StatusUpdate, tag: Text)
    requires k < |rows|
    ensures OnlyResigned(rows, UpdatedRows(mac, rows, k, update, tag), k, update)
  {
    var after := UpdatedRows(mac, rows, k, update, tag);
    forall i | 0 <= i < |rows|
      ensures i < k ==> after[i] == rows[i]
      ensures i == k ==> after[i] == UpdatedTarget(rows[k], update, after[k].hmac)
      ensures i > k ==>
                after[i]
                    == rows[i].(fields := rows[i].fields.(prevHmac := after[i].fields.prevHmac), hmac := after[i].hmac)
    {
      UpdatedAt(mac, rows, k, update, tag, i);
    }
  }

  /** The statement that rewrites row `j`. */
  function RewriteStatement(after: seq<StoredEvent>, k: nat, update: StatusUpdate, j: nat): Statement
    requires j < |after|
  {
    if j == k then SetOutcome(after[j].fields.id, update, after[j].hmac)
    else SetLink(after[j].fields.id, after[j].fields.prevHmac, after[j].hmac)
  }

  function UpdatePlan(after: seq<StoredEvent>, k: nat, update: StatusUpdate): seq<Statement>
    requires k < |after|
  {
    seq(|after| - k, n requires 0 <= n < |after| - k => RewriteStatement(after, k, update, k + n))
  }

  /** The rows before `j` rewritten, the others still as they were. */
  function Midway(t: Table, after: seq<StoredEvent>, j: nat): Table
    requires j <= |after| == |t.rows|
  {
    t.(rows := after[..j] + t.rows[j..])
  }

  lemma MidwayEnds(t: Table, after: seq<StoredEvent>, k: nat, update: StatusUpdate)
    requires OnlyResigned(t.rows, after, k, update)
    ensures Midway(t, after, k) == t && Midway(t, after, |t.rows|) == t.(rows := after)
  {
    assert after[..k] + t.rows[k..] == t.rows;
    assert after[..|t.rows|] + t.rows[|t.rows|..] == after;
  }

  /** Each statement of the plan rewrites exactly its own row. */
  lemma RewriteStep(t: Table, after: seq<StoredEvent>, k: nat, update: StatusUpdate, j: nat)
    requires OnlyResigned(t.rows, after, k, update) && k <= j < |t.rows| && Increasing(t.rows)
    ensures Execute(Midway(t, after, j), RewriteStatement(after, k, update, j)) == Some(Midway(t, after, j + 1))
  {
    var s := RewriteStatement(after, k, update, j);
    assert forall i :: 0 <= i < |t.rows| ==> after[i].fields.id == t.rows[i].fields.id;
    assert TouchAll(s, after[..j] + t.rows[j..]) == after[..j + 1] + t.rows[j + 1..];
  }

  /** The plan, one statement from the end of a prefix. */
  lemma PlanSnoc(after: seq<StoredEvent>, k: nat, update: StatusUpdate, n: nat)
    requires k < |after| && 0 < n <= |after| - k
    ensures var plan := UpdatePlan(after, k, update);
            plan[..n] == plan[..n - 1] + [RewriteStatement(after, k, update, k + (n - 1))]
  {
    var plan := UpdatePlan(after, k, update);
    assert plan[n - 1] == RewriteStatement(after, k, update, k + (n - 1));
  }

  lemma {:induction false} UpdatePlanPrefix(t: Table, after: seq<StoredEvent>, k: nat, update: StatusUpdate, n: nat)
    requires OnlyResigned(t.rows, after, k, update) && Increasing(t.rows)
    requires n <= |t.rows| - k
    ensures ExecuteAll(t, UpdatePlan(after, k, update)[..n]) == Some(Midway(t, after, k + n))
  {
    hide Execute, Midway, RewriteStatement, Increasing;
    var plan := UpdatePlan(after, k, update);
    if n == 0 {
      MidwayEnds(t, after, k, update);
    } else {
      hide UpdatePlan;
      UpdatePlanPrefix(t, after, k, update, n - 1);
      RewriteStep(t, after, k, update, k + (n - 1));
      PlanSnoc(after, k, update, n);
      ExecuteAllSnoc(t, plan[..n - 1], RewriteStatement(after, k, update, k + (n - 1)));
    }
  }

  lemma UpdatePlanUpdates(t: Table, after: seq<StoredEvent>, k: nat, update: StatusUpdate)
    requires OnlyResigned(t.rows, after, k, update) && Increasing(t.rows)
    ensures ExecuteAll(t, UpdatePlan(after, k, update)) == Some(t.(rows := after))
  {
    UpdatePlanPrefix(t, after, k, update, |t.rows| - k);
    assert UpdatePlan(after, k, update)[..|t.rows| - k] == UpdatePlan(after, k, update);
    MidwayEnds(t, after, k, update);
  }

  // ---------------------------------------------------------------------
  // Commit of the legacy layout
  // ---------------------------------------------------------------------

  datatype CommitOutcome =
    | NothingToCommit
    | AlreadyCommitted(row: Int64, legacyRows: nat)
    | Committed(row: Int64, legacyRows: nat, digest: Tag)

  function CommitmentEvent(digest: Tag, tsUnixMs: Int64): AuditEvent {
    AuditEvent(tsUnixMs, PRIMITIVE_SYSTEM, PRIMITIVE_SYSTEM, AUDIT_LAYOUT_COMMITTED, digest, Ok, Info,
               AUDIT_LAYOUT_COMMITTED, None, None, None)
  }

  /** The first commitment that does not carry `digest`. */
  function FirstMismatch(commitments: seq<StoredEvent>, digest: Tag): (r: Option<StoredEvent>)
    ensures r.None? <==> forall i :: 0 <= i < |commitments| ==> commitments[i].fields.argsHash == digest
    ensures r.Some? ==> exists i :: 0 <= i < |commitments| && commitments[i] == r.value
                                    && r.value.fields.argsHash != digest
                                    && forall j :: 0 <= j < i ==> commitments[j].fields.argsHash == digest
  {
    if commitments == [] then None
    else if commitments[0].fields.argsHash != digest then Some(commitments[0])
    else
      assert commitments == [commitments[0]] + commitments[1..];
      FirstMismatch(commitments[1..], digest)
  }

  /** What `commit-layout` answers; `Committed` is the one case that appends. */
  function DecideCommit(h: Hashes, t: Table): Result<CommitOutcome, AuditError> {
    match Verdict(h, t.rows)
    case Failure(error) => Failure(Chain(error))
    case Success(_) =>
      var legacy, existing := LegacyRows(t.rows), Commitments(t.rows);
      var digest := h.sha(DigestInput(legacy));
      if legacy == [] then Success(NothingToCommit)
      else
        match FirstMismatch(existing, digest)
        case Some(bad) => Failure(Chain(LayoutViolation(bad.fields.id, CommitmentStale)))
        case None =>
          if existing != [] then Success(AlreadyCommitted(existing[0].fields.id, |legacy|))
          else if t.sequence >= MAX_ROWID then Failure(Sql)
          else Success(Committed(t.sequence + 1, |legacy|, digest))
  }

  // ---------------------------------------------------------------------
  // One operation, atomically
  // ---------------------------------------------------------------------

  datatype Operation =
    | Record(event: AuditEvent)
    | UpdateStatus(id: Int64, update: StatusUpdate)
    | CommitLayout(tsUnixMs: Int64)

  datatype Answer = RowId(id: Int64) | Done | Outcome(outcome: CommitOutcome)

  /** What an operation answers on a table, and the statements it issues. */
  function Decide(h: Hashes, t: Table, op: Operation): Result<(Answer, seq<Statement>), AuditError> {
    match op
    case Record(event) =>
      if t.sequence >= MAX_ROWID then Failure(Sql)
      else Success((RowId(t.sequence + 1), RecordPlan(h.mac, t, event)))
    case UpdateStatus(id, update) =>
      (match DecideUpdate(h.mac, t.rows, id, update)
       case Failure(error) => Failure(error)
       case Success(found) =>
         Success((Done, UpdatePlan(UpdatedRows(h.mac, t.rows, found.0, update, found.1), found.0, update))))
    case CommitLayout(ts) =>
      match DecideCommit(h, t)
      case Failure(error) => Failure(error)
      case Success(outcome) =>
        Success((Outcome(outcome),
                 if outcome.Committed? && t.sequence < MAX_ROWID
                 then RecordPlan(h.mac, t, CommitmentEvent(outcome.digest, ts)) else []))
  }

  /** The table after an operation run alone; a refused operation changes nothing. */
  function Perform(h: Hashes, t: Table, op: Operation): Table {
    match Decide(h, t, op)
    case Failure(_) => t
    case Success(decision) =>
      match ExecuteAll(t, decision.1)
      case None => t
      case Some(u) => u
  }

  /** The closed form of `Perform`, operation by operation. */
  lemma PerformRecord(h: Hashes, t: Table, event: AuditEvent)
    requires ValidTable(t) && t.sequence < MAX_ROWID
    ensures ExecuteAll(t, RecordPlan(h.mac, t, event)) == Some(Recorded(h.mac, t, event))
    ensures Perform(h, t, Record(event)) == Recorded(h.mac, t, event)
    ensures ValidTable(Recorded(h.mac, t, event))
  {
    RecordPlanRecords(h.mac, t, event);
    TagPlaceholder(h.mac, t, event);
  }

  /** Recording answers the new id and appends the event, whatever the event is. */
  lemma RecordAppends(h: Hashes, t: Table, event: AuditEvent)
    requires ValidTable(t) && t.sequence < MAX_ROWID
    ensures Appends(h.mac, t, Perform(h, t, Record(event)), event)
    ensures Decide(h, t, Record(event)).Success? && Decide(h, t, Record(event)).value.0 == RowId(t.sequence + 1)
  {
    hide Appends, Recorded;
    PerformRecord(h, t, event);
    RecordedRowIsEvent(h.mac, t, event);
  }

  /** A commit that appends is the recording of this one event. */
  lemma CommitIsRecord(h: Hashes, t: Table, ts: Int64)
    requires ValidTable(t) && t.sequence < MAX_ROWID
    requires DecideCommit(h, t).Success? && DecideCommit(h, t).value.Committed?
    ensures var system, action := Ascii("kvendra.system"), Ascii("audit_layout_committed");
            Perform(h, t, CommitLayout(ts)) ==
            Perform(h, t, Record(AuditEvent(ts, system, system, action, h.sha(DigestInput(LegacyRows(t.rows))),
                                            Ok, Info, action, None, None, None)))
    ensures Decide(h, t, CommitLayout(ts)).Success?
            && Decide(h, t, CommitLayout(ts)).value.0 == Outcome(DecideCommit(h, t).value)
  {
    hide Recorded, RecordPlan, Perform, Verdict, DigestInput;
    PerformCommit(h, t, ts);
    PerformRecord(h, t, CommitmentEvent(DecideCommit(h, t).value.digest, ts));
  }

  /** Five columns make a commitment: exactly the rows that agree in them with what a commit appends. */
  lemma CommitmentsAgree(mac: Hash, e: StoredEvent, id: Int64, digest: Tag, ts: Int64, prev: Text)
    ensures var c := SignedRow(mac, id, CommitmentEvent(digest, ts), prev);
            IsCommitment(e) <==>
            && e.version == c.version && e.fields.profileId == c.fields.profileId
            && e.fields.primitive == c.fields.primitive && e.fields.action == c.fields.action
            && e.fields.flags == c.fields.flags
  {
  }

  lemma PerformUpdate(h: Hashes, t: Table, id: Int64, update: StatusUpdate, k: nat, tag: Tag)
    requires ValidTable(t) && DecideUpdate(h.mac, t.rows, id, update) == Success((k, tag))
    ensures var after := UpdatedRows(h.mac, t.rows, k, update, tag);
            && ExecuteAll(t, UpdatePlan(after, k, update)) == Some(t.(rows := after))
            && Perform(h, t, UpdateStatus(id, update)) == t.(rows := after)
            && OnlyResigned(t.rows, after, k, update)
            && ValidTable(t.(rows := after))
  {
    hide DecideUpdate;
    var after := UpdatedRows(h.mac, t.rows, k, update, tag);
    UpdateOnlyResigns(h.mac, t.rows, k, update, tag);
    UpdatePlanUpdates(t, after, k, update);
    ResigningKeepsIds(t, after, k, update);
  }

  lemma ResigningKeepsIds(t: Table, after: seq<StoredEvent>, k: nat, update: StatusUpdate)
    requires ValidTable(t) && OnlyResigned(t.rows, after, k, update)
    ensures ValidTable(t.(rows := after))
  {
    assert forall i :: 0 <= i < |t.rows| ==> after[i].fields.id == t.rows[i].fields.id;
  }

  lemma PerformCommit(h: Hashes, t: Table, ts: Int64)
    requires ValidTable(t)
    ensures var decision := DecideCommit(h, t);
            if decision.Success? && decision.value.Committed?
            then && t.sequence < MAX_ROWID
                 && Perform(h, t, CommitLayout(ts)) == Recorded(h.mac, t, CommitmentEvent(decision.value.digest, ts))
            else Perform(h, t, CommitLayout(ts)) == t
  {
    var decision := DecideCommit(h, t);
    if decision.Success? && decision.value.Committed? {
      PerformRecord(h, t, CommitmentEvent(decision.value.digest, ts));
    }
  }

  /** What an operation decided on does, in one go; a refused one does nothing. */
  ghost predicate Performed(h: Hashes, t: Table, op: Operation) {
    && ValidTable(Perform(h, t, op))
    && (Decide(h, t, op).Success? ==> ExecuteAll(t, Decide(h, t, op).value.1) == Some(Perform(h, t, op)))
    && (Decide(h, t, op).Failure? ==> Perform(h, t, op) == t)
  }

  lemma RecordIsPerformed(h: Hashes, t: Table, event: AuditEvent)
    requires ValidTable(t)
    ensures Performed(h, t, Record(event))
  {
    hide RecordPlan, Recorded, ExecuteAll, ValidTable;
    if t.sequence < MAX_ROWID {
      PerformRecord(h, t, event);
    }
  }

  lemma UpdateIsPerformed(h: Hashes, t: Table, id: Int64, update: StatusUpdate)
    requires ValidTable(t)
    ensures Performed(h, t, UpdateStatus(id, update))
  {
    hide DecideUpdate, UpdatePlan, UpdatedRows, ExecuteAll, ValidTable;
    var found := DecideUpdate(h.mac, t.rows, id, update);
    if found.Success? {
      PerformUpdate(h, t, id, update, found.value.0, found.value.1);
    }
  }

  lemma CommitIsPerformed(h: Hashes, t: Table, ts: Int64)
    requires ValidTable(t)
    ensures Performed(h, t, CommitLayout(ts))
  {
    hide DecideCommit, RecordPlan, Recorded, Execute, ValidTable;
    var decision := DecideCommit(h, t);
    if decision.Success? && decision.value.Committed? && t.sequence < MAX_ROWID {
      PerformRecord(h, t, CommitmentEvent(decision.value.digest, ts));
    }
  }

  lemma PerformKeepsValid(h: Hashes, t: Table, op: Operation)
    requires ValidTable(t)
    ensures ValidTable(Perform(h, t, op))
    ensures Decide(h, t, op).Success? ==> ExecuteAll(t, Decide(h, t, op).value.1) == Some(Perform(h, t, op))
    ensures Decide(h, t, op).Failure? ==> Perform(h, t, op) == t
  {
    hide ValidTable, Perform, Decide, ExecuteAll;
    match op {
      case Record(event) => RecordIsPerformed(h, t, event);
      case UpdateStatus(id, update) => UpdateIsPerformed(h, t, id, update);
      case CommitLayout(ts) => CommitIsPerformed(h, t, ts);
    }
  }
}
