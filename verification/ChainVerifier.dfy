/** The one-pass chain verifier (src/audit/reader.rs). */
module ChainVerifier {
  import opened Wrappers
  import opened Bytes
  import opened AuditRow
  import opened LayoutCommit

  datatype Reason =
    | LegacyAfterCurrent(layout: Int64)
    | Unmacable(why: LayoutError)
    | CommitmentMismatch(pinned: nat)
    | LegacyTargetHasSuccessors(layout: Int64)
    | CommitmentStale

  datatype ChainError = ChainBroken(row: Int64) | LayoutViolation(row: Int64, reason: Reason)

  datatype ChainReport = ChainReport(rows: nat, legacyRows: nat, commitmentRows: nat) {
    function CommittedLegacyRows(): nat {
      if commitmentRows > 0 then legacyRows else 0
    }

    function UncommittedLegacyRows(): nat {
      legacyRows - CommittedLegacyRows()
    }
  }

  /** The HMAC under the log's key and the digest of the commitments. */
  datatype Hashes = Hashes(mac: Hash, sha: Hash)

  /** `mac_verifies`: does the stored tag match the columns under the row's own layout? */
  function MacVerifies(mac: Hash, e: StoredEvent): Result<bool, ChainError> {
    match TagFor(mac, e.version, e.fields)
    case Failure(why) => Failure(LayoutViolation(e.fields.id, Unmacable(why)))
    case Success(tag) => Success(tag == e.hmac)
  }

  method CheckMac(mac: Hash, e: StoredEvent) returns (r: Result<bool, ChainError>)
    ensures r == MacVerifies(mac, e)
  {
    var tag := ComputeForLayout(mac, e.version, e.fields);
    match tag {
      case Failure(why) => r := Failure(LayoutViolation(e.fields.id, Unmacable(why)));
      case Success(t) => r := Success(t == e.hmac);
    }
  }

  /** The complaint of a check that insists on a matching tag. */
  function TagFault(mac: Hash, e: StoredEvent): Option<ChainError> {
    match MacVerifies(mac, e)
    case Failure(error) => Some(error)
    case Success(ok) => if ok then None else Some(ChainBroken(e.fields.id))
  }

  method CheckTag(mac: Hash, e: StoredEvent) returns (r: Option<ChainError>)
    ensures r == TagFault(mac, e)
    ensures r.None? <==> MacVerifies(mac, e) == Success(true)
  {
    var ok := CheckMac(mac, e);
    match ok {
      case Failure(error) => r := Some(error);
      case Success(same) => r := if same then None else Some(ChainBroken(e.fields.id));
    }
  }

  // ---------------------------------------------------------------------
  // What a sound log is
  // ---------------------------------------------------------------------

  function PrevTag(events: seq<StoredEvent>, i: nat): Text
    requires i <= |events|
  {
    if i == 0 then [] else events[i - 1].hmac
  }

  predicate SeenCurrent(events: seq<StoredEvent>, i: nat)
    requires i <= |events|
  {
    exists j :: 0 <= j < i && events[j].version == CURRENT_HMAC_LAYOUT
  }

  /** Every row names the tag of the row before it. */
  predicate Linked(events: seq<StoredEvent>, i: nat)
    requires i < |events|
  {
    events[i].fields.prevHmac == PrevTag(events, i)
  }

  /** No row of an older layout follows a row of the current one. */
  predicate Ordered(events: seq<StoredEvent>, i: nat)
    requires i < |events|
  {
    SeenCurrent(events, i) ==> events[i].version >= CURRENT_HMAC_LAYOUT
  }

  /** The stored tag is the MAC of the row. */
  predicate Tagged(mac: Hash, e: StoredEvent) {
    MacVerifies(mac, e) == Success(true)
  }

  /** A commitment carries the digest of all legacy rows before it. */
  predicate Pinned(sha: Hash, events: seq<StoredEvent>, i: nat)
    requires i < |events|
  {
    IsCommitment(events[i]) ==> events[i].fields.argsHash == sha(DigestInput(LegacyRows(events[..i])))
  }

  predicate RowSound(h: Hashes, events: seq<StoredEvent>, i: nat)
    requires i < |events|
  {
    Linked(events, i) && Ordered(events, i) && Tagged(h.mac, events[i]) && Pinned(h.sha, events, i)
  }

  /** The whole log is sound. */
  ghost predicate Sound(h: Hashes, events: seq<StoredEvent>) {
    forall i :: 0 <= i < |events| ==> RowSound(h, events, i)
  }

  /** The first complaint about row `i`, in the order the verifier checks. */
  function RowFault(h: Hashes, events: seq<StoredEvent>, i: nat): (r: Option<ChainError>)
    requires i < |events|
    ensures r.None? <==> RowSound(h, events, i)
    ensures r.Some? ==> r.value.row == events[i].fields.id
  {
    var e := events[i];
    if !Linked(events, i) then Some(ChainBroken(e.fields.id))
    else if SeenCurrent(events, i) && e.version < CURRENT_HMAC_LAYOUT then
      Some(LayoutViolation(e.fields.id, LegacyAfterCurrent(e.version)))
    else
      match TagFault(h.mac, e)
      case Some(error) => Some(error)
      case None =>
        if !Pinned(h.sha, events, i) then
          Some(LayoutViolation(e.fields.id, CommitmentMismatch(|LegacyRows(events[..i])|)))
        else None
  }

  function Report(events: seq<StoredEvent>): ChainReport {
    ChainReport(|events|, |LegacyRows(events)|, |Commitments(events)|)
  }

  /** The verdict from row `i` on: the first fault, or the counts. */
  function VerdictFrom(h: Hashes, events: seq<StoredEvent>, i: nat): Result<ChainReport, ChainError>
    requires i <= |events|
    decreases |events| - i
  {
    if i == |events| then Success(Report(events))
    else
      match RowFault(h, events, i)
      case Some(fault) => Failure(fault)
      case None => VerdictFrom(h, events, i + 1)
  }

  function Verdict(h: Hashes, events: seq<StoredEvent>): Result<ChainReport, ChainError> {
    VerdictFrom(h, events, 0)
  }

  /** Is row `i` the least offending one? */
  ghost predicate LeastFault(h: Hashes, events: seq<StoredEvent>, i: nat, error: ChainError) {
    i < |events| && RowFault(h, events, i) == Some(error) && forall j :: 0 <= j < i ==> RowSound(h, events, j)
  }

  /**
   The verdict is success exactly on sound logs, with exact counts; otherwise
   it is the complaint about the least offending row.
   */
  lemma VerdictMeaning(h: Hashes, events: seq<StoredEvent>)
    ensures Verdict(h, events).Success? <==> Sound(h, events)
    ensures Verdict(h, events).Success? ==> Verdict(h, events).value == Report(events)
    ensures forall error :: Verdict(h, events) == Failure(error) <==> exists i: nat :: LeastFault(h, events, i, error)
  {
    VerdictFromMeaning(h, events, 0);
  }

  lemma {:induction false} VerdictFromMeaning(h: Hashes, events: seq<StoredEvent>, i: nat)
    requires i <= |events|
    requires forall j :: 0 <= j < i ==> RowSound(h, events, j)
    ensures VerdictFrom(h, events, i).Success? <==> Sound(h, events)
    ensures VerdictFrom(h, events, i).Success? ==> VerdictFrom(h, events, i).value == Report(events)
    ensures forall error :: VerdictFrom(h, events, i) == Failure(error) <==>
            exists k: nat :: LeastFault(h, events, k, error)
    decreases |events| - i
  {
    if i < |events| {
      var fault := RowFault(h, events, i);
      if fault.None? {
        VerdictFromMeaning(h, events, i + 1);
      } else {
        assert LeastFault(h, events, i, fault.value);
        forall k: nat, error | LeastFault(h, events, k, error)
          ensures error == fault.value
        {
          assert k == i;
        }
      }
    }
  }

  /** One turn of the pass: a fault is the verdict, a sound row extends what is kept. */
  lemma RowTurn(h: Hashes, events: seq<StoredEvent>, i: nat)
    requires i < |events|
    ensures VerdictFrom(h, events, i)
            == if RowSound(h, events, i) then VerdictFrom(h, events, i + 1) else Failure(RowFault(h, events, i).value)
    ensures SeenCurrent(events, i + 1) == (SeenCurrent(events, i) || events[i].version == CURRENT_HMAC_LAYOUT)
    ensures var (e, before) := (events[i], events[..i]);
            && LegacyRows(events[..i + 1]) == LegacyRows(before) + (if IsLegacyLayout(e.version) then [e] else [])
            && Commitments(events[..i + 1]) == Commitments(before) + (if IsCommitment(e) then [e] else [])
  {
    hide RowFault;
    assert events[..i + 1] == events[..i] + [events[i]];
    FiltersSnoc(events[..i], events[i]);
  }

  /** `verify_chain_report`: one pass with a running link, layout flag and legacy list. */
  method VerifyChainReport(h: Hashes, events: seq<StoredEvent>) returns (r: Result<ChainReport, ChainError>)
    ensures r == Verdict(h, events)
  {
    hide TagFault, IsCommitment, DigestInput, MacVerifies;
    var prev: Text := [];
    var seenCurrentLayout := false;
    var legacy: seq<StoredEvent> := [];
    var commitmentRows := 0;
    for i := 0 to |events|
      invariant Verdict(h, events) == VerdictFrom(h, events, i)
      invariant prev == PrevTag(events, i)
      invariant seenCurrentLayout == SeenCurrent(events, i)
      invariant legacy == LegacyRows(events[..i])
      invariant commitmentRows == |Commitments(events[..i])|
    {
      var e := events[i];
      RowTurn(h, events, i);
      if e.fields.prevHmac != prev {
        return Failure(ChainBroken(e.fields.id));
      }
      if seenCurrentLayout && e.version < CURRENT_HMAC_LAYOUT {
        return Failure(LayoutViolation(e.fields.id, LegacyAfterCurrent(e.version)));
      }
      var fault := CheckTag(h.mac, e);
      if fault.Some? {
        return Failure(fault.value);
      }
      if IsCommitment(e) {
        var digest := LegacyLayoutDigest(h.sha, legacy);
        if digest != e.fields.argsHash {
          return Failure(LayoutViolation(e.fields.id, CommitmentMismatch(|legacy|)));
        }
        commitmentRows := commitmentRows + 1;
      }
      if IsLegacyLayout(e.version) {
        legacy := legacy + [e];
      }
      if e.version == CURRENT_HMAC_LAYOUT {
        seenCurrentLayout := true;
      }
      prev := e.hmac;
    }
    assert events[..|events|] == events;
    r := Success(ChainReport(|events|, |legacy|, commitmentRows));
  }

  /** `verify_chain`: success exactly on sound logs, else the complaint about the least offending row. */
  method VerifyChain(h: Hashes, events: seq<StoredEvent>) returns (r: Result<(), ChainError>)
    ensures r.Success? <==> Sound(h, events)
    ensures r.Failure? ==> exists i: nat :: LeastFault(h, events, i, r.error)
  {
    VerdictMeaning(h, events);
    var report := VerifyChainReport(h, events);
    match report {
      case Success(_) => r := Success(());
      case Failure(error) => r := Failure(error);
    }
  }

  // ---------------------------------------------------------------------
  // Prefixes
  // ---------------------------------------------------------------------

  /** Whether a row is at fault depends only on the rows up to it. */
  lemma RowFaultIsLocal(h: Hashes, a: seq<StoredEvent>, b: seq<StoredEvent>, i: nat)
    requires i < |a| && i < |b| && a[..i + 1] == b[..i + 1]
    ensures RowFault(h, a, i) == RowFault(h, b, i)
  {
    assert a[i] == a[..i + 1][i] && b[i] == b[..i + 1][i];
    assert a[..i] == a[..i + 1][..i] && b[..i] == b[..i + 1][..i];
    assert forall j :: 0 <= j < i ==> a[j] == a[..i][j] && b[j] == b[..i][j];
    assert PrevTag(a, i) == PrevTag(b, i);
    assert SeenCurrent(a, i) == SeenCurrent(b, i);
  }

  lemma SoundPrefix(h: Hashes, events: seq<StoredEvent>, n: nat)
    requires n <= |events| && Sound(h, events)
    ensures Sound(h, events[..n])
  {
    forall i | 0 <= i < n
      ensures RowSound(h, events[..n], i)
    {
      assert events[..n][..i + 1] == events[..i + 1];
      RowFaultIsLocal(h, events, events[..n], i);
      assert RowFault(h, events, i).None?;
    }
  }

  lemma SoundSnoc(h: Hashes, events: seq<StoredEvent>, e: StoredEvent)
    ensures Sound(h, events + [e]) <==> Sound(h, events) && RowSound(h, events + [e], |events|)
  {
    var longer := events + [e];
    assert longer[..|events|] == events;
    if Sound(h, longer) {
      SoundPrefix(h, longer, |events|);
    }
    if Sound(h, events) && RowSound(h, longer, |events|) {
      forall i | 0 <= i < |longer|
        ensures RowSound(h, longer, i)
      {
        if i < |events| {
          assert longer[..i + 1] == events[..i + 1];
          RowFaultIsLocal(h, longer, events, i);
          assert RowFault(h, events, i).None?;
        }
      }
    }
  }

  /** In a sound log a row of the current layout is followed only by such rows. */
  lemma CurrentLayoutIsClosed(h: Hashes, events: seq<StoredEvent>, i: nat, j: nat)
    requires Sound(h, events) && i <= j < |events|
    requires events[i].version == CURRENT_HMAC_LAYOUT
    ensures events[j].version == CURRENT_HMAC_LAYOUT
  {
    assert RowSound(h, events, j);
    if i < j {
      assert SeenCurrent(events, j);
    }
  }

  /** What soundness says of one row; in particular no stored tag is empty. */
  lemma SoundRow(h: Hashes, events: seq<StoredEvent>, i: nat)
    requires Sound(h, events) && i < |events|
    ensures Tagged(h.mac, events[i]) && |events[i].hmac| == 64
    ensures events[i].fields.prevHmac == PrevTag(events, i)
    ensures IsLegacyLayout(events[i].version) || events[i].version == CURRENT_HMAC_LAYOUT
    ensures SeenCurrent(events, i) ==> events[i].version == CURRENT_HMAC_LAYOUT
    ensures IsCommitment(events[i]) ==> events[i].fields.argsHash == h.sha(DigestInput(LegacyRows(events[..i])))
  {
    assert RowSound(h, events, i);
  }

  /** The digest a commitment pins is the digest of every legacy row of the log. */
  lemma PrefixDigestIsWholeDigest(h: Hashes, events: seq<StoredEvent>, i: nat)
    requires Sound(h, events) && i < |events| && IsCommitment(events[i])
    ensures LegacyRows(events[..i]) == LegacyRows(events)
    ensures events[i].fields.argsHash == h.sha(DigestInput(LegacyRows(events)))
  {
    assert RowSound(h, events, i);
    forall j | i <= j < |events|
      ensures !IsLegacyLayout(events[j].version)
    {
      CurrentLayoutIsClosed(h, events, i, j);
    }
    LegacyRowsOfCurrentTail(events, i);
  }

  /**
   The report's pinned count is the number of legacy rows each commitment
   covers: all of them or, without a commitment, none.
   */
  lemma PinnedCount(h: Hashes, events: seq<StoredEvent>)
    requires Sound(h, events)
    ensures forall i :: 0 <= i < |events| && IsCommitment(events[i]) ==>
              |LegacyRows(events[..i])| == Report(events).CommittedLegacyRows()
    ensures Report(events).UncommittedLegacyRows() == 0
            <==> LegacyRows(events) == [] || exists i :: 0 <= i < |events| && IsCommitment(events[i])
  {
    forall i | 0 <= i < |events| && IsCommitment(events[i])
      ensures LegacyRows(events[..i]) == LegacyRows(events)
    {
      PrefixDigestIsWholeDigest(h, events, i);
    }
  }
}
