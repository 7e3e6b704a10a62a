/**
 What an accepted log determines: the tip tag fixes every bound column, and a
 commitment fixes every column. Nothing is assumed of the hash functions: the
 alternative is always a named pair of different inputs with equal hashes.
 */
module ChainTheorems {
  import opened Wrappers
  import opened Bytes
  import opened AuditRow
  import opened LayoutCommit
  import opened ChainVerifier

  /** Two stored rows with different MAC inputs and the same MAC. */
  predicate CollidingRows(mac: Hash, e: StoredEvent, f: StoredEvent) {
    var x, y := MacInput(e.version, e.fields), MacInput(f.version, f.fields);
    x.Success? && y.Success? && x.value != y.value && mac(x.value) == mac(y.value)
  }

  /** A MAC collision exhibited by one row of each log. */
  ghost predicate MacCollision(h: Hashes, a: seq<StoredEvent>, b: seq<StoredEvent>) {
    exists e, f :: e in a && f in b && CollidingRows(h.mac, e, f)
  }

  /** A digest collision exhibited by the legacy rows of two logs. */
  predicate DigestCollision(h: Hashes, a: seq<StoredEvent>, b: seq<StoredEvent>) {
    var x, y := DigestInput(LegacyRows(a)), DigestInput(LegacyRows(b));
    x != y && h.sha(x) == h.sha(y)
  }

  predicate SameRow(e: StoredEvent, f: StoredEvent) {
    e.version == f.version && e.hmac == f.hmac && SameBound(e.version, e.fields, f.fields)
  }

  ghost predicate SameRows(a: seq<StoredEvent>, b: seq<StoredEvent>) {
    |a| == |b| && forall i :: 0 <= i < |a| ==> SameRow(a[i], b[i])
  }

  /** Equal tags on two authentic rows: the same bound columns, or a collision. */
  lemma SameTagSameRow(h: Hashes, e: StoredEvent, f: StoredEvent)
    requires Tagged(h.mac, e) && Tagged(h.mac, f) && e.hmac == f.hmac
    ensures SameRow(e, f) || CollidingRows(h.mac, e, f)
    ensures SameRow(e, f) ==> e.fields.prevHmac == f.fields.prevHmac
  {
    MacInputInjective(e.version, e.fields, f.version, f.fields);
  }

  /** Two sound logs with the same last tag agree row by row. */
  lemma {:induction false} TipDeterminesLog(h: Hashes, a: seq<StoredEvent>, b: seq<StoredEvent>)
    requires a != [] && b != []
    requires Sound(h, a) && Sound(h, b)
    requires a[|a| - 1].hmac == b[|b| - 1].hmac
    ensures SameRows(a, b) || MacCollision(h, a, b)
  {
    hide MacInput, SameBound, MacVerifies;
    var n, m := |a| - 1, |b| - 1;
    var e, f := a[n], b[m];
    RootLink(h, a, n);
    RootLink(h, b, m);
    SameTagSameRow(h, e, f);
    if SameRow(e, f) && n > 0 {
      SoundPrefix(h, a, n);
      SoundPrefix(h, b, m);
      TipDeterminesLog(h, a[..n], b[..m]);
      assert a == a[..n] + [e] && b == b[..m] + [f];
    }
  }

  /** Only the first row of a sound log has an empty link. */
  lemma RootLink(h: Hashes, events: seq<StoredEvent>, i: nat)
    requires Sound(h, events) && i < |events|
    ensures Tagged(h.mac, events[i])
    ensures events[i].fields.prevHmac == [] <==> i == 0
    ensures i > 0 ==> events[i].fields.prevHmac == events[i - 1].hmac
  {
    SoundRow(h, events, i);
    if i > 0 {
      SoundRow(h, events, i - 1);
    }
  }

  /** The legacy rows of a sound log are a prefix of it; the rest is of the current layout. */
  lemma LegacyIsPrefix(h: Hashes, events: seq<StoredEvent>)
    requires Sound(h, events)
    ensures LegacyRows(events) == events[..|LegacyRows(events)|]
    ensures forall i :: |LegacyRows(events)| <= i < |events| ==> events[i].version == CURRENT_HMAC_LAYOUT
  {
    var m := 0;
    while m < |events| && IsLegacyLayout(events[m].version)
      invariant m <= |events|
      invariant forall i :: 0 <= i < m ==> IsLegacyLayout(events[i].version)
    {
      m := m + 1;
    }
    forall i | m <= i < |events|
      ensures events[i].version == CURRENT_HMAC_LAYOUT
    {
      SoundRow(h, events, m);
      CurrentLayoutIsClosed(h, events, m, i);
    }
    LegacyRowsOfCurrentTail(events, m);
    LegacyRowsOfLegacy(events[..m]);
  }

  lemma {:induction false} LegacyRowsOfLegacy(events: seq<StoredEvent>)
    requires forall i :: 0 <= i < |events| ==> IsLegacyLayout(events[i].version)
    ensures LegacyRows(events) == events
  {
    if events != [] {
      var n := |events| - 1;
      LegacyRowsOfLegacy(events[..n]);
      assert events == events[..n] + [events[n]];
    }
  }

  /** Once a commitment is present, the last tag determines the log in every column. */
  lemma CommittedTipDeterminesEverything(h: Hashes, a: seq<StoredEvent>, b: seq<StoredEvent>)
    requires a != [] && b != []
    requires Sound(h, a) && Sound(h, b)
    requires a[|a| - 1].hmac == b[|b| - 1].hmac
    requires exists i :: 0 <= i < |a| && IsCommitment(a[i])
    ensures a == b || MacCollision(h, a, b) || DigestCollision(h, a, b)
  {
    TipDeterminesLog(h, a, b);
    if SameRows(a, b) && !DigestCollision(h, a, b) {
      var i :| 0 <= i < |a| && IsCommitment(a[i]);
      assert SameRow(a[i], b[i]);
      PrefixDigestIsWholeDigest(h, a, i);
      PrefixDigestIsWholeDigest(h, b, i);
      DigestInputInjective(LegacyRows(a), LegacyRows(b));
      LegacyIsPrefix(h, a);
      LegacyIsPrefix(h, b);
      var k := |LegacyRows(a)|;
      forall j | 0 <= j < |a|
        ensures a[j] == b[j]
      {
        assert SameRow(a[j], b[j]);
        if j < k {
          assert a[j] == LegacyRows(a)[j] == LegacyRows(b)[j] == b[j];
        }
      }
    }
  }

  /** A log some row of which, at or before `n`, is at fault. */
  ghost predicate FailsBy(h: Hashes, events: seq<StoredEvent>, n: nat) {
    exists k: nat, error :: k <= n && LeastFault(h, events, k, error) && Verdict(h, events) == Failure(error)
  }

  lemma FaultByOrSound(h: Hashes, events: seq<StoredEvent>, n: nat)
    requires n < |events|
    ensures FailsBy(h, events, n) || Sound(h, events[..n + 1])
  {
    if !Sound(h, events[..n + 1]) {
      var i :| 0 <= i <= n && !RowSound(h, events[..n + 1], i);
      assert events[..n + 1][..i + 1] == events[..i + 1];
      RowFaultIsLocal(h, events, events[..n + 1], i);
      assert RowFault(h, events, i).Some?;
      VerdictMeaning(h, events);
      assert !RowSound(h, events, i);
      var k: nat :| LeastFault(h, events, k, Verdict(h, events).error);
      assert k <= i;
    }
  }

  /**
   The commitment pins the legacy rows in every column: put any other legacy
   rows in front of it, by edit, NULL-to-empty, relabelling, insertion,
   deletion or reordering, and verification fails at or before it.
   */
  lemma CommitmentPinsLegacyRows(h: Hashes, a: seq<StoredEvent>, i: nat, b: seq<StoredEvent>, j: nat)
    requires Sound(h, a) && i < |a| && IsCommitment(a[i])
    requires j < |b| && b[j] == a[i]
    requires LegacyRows(b[..j]) != LegacyRows(a[..i])
    ensures FailsBy(h, b, j) || DigestCollision(h, a[..i], b[..j])
  {
    FaultByOrSound(h, b, j);
    if Sound(h, b[..j + 1]) {
      assert b[..j + 1][..j] == b[..j];
      assert RowSound(h, b[..j + 1], j);
      assert RowSound(h, a, i);
      if DigestInput(LegacyRows(b[..j])) == DigestInput(LegacyRows(a[..i])) {
        DigestInputInjective(LegacyRows(b[..j]), LegacyRows(a[..i]));
      }
    }
  }

  /** The same for the whole prefix, legacy and current rows alike. */
  lemma CommitmentPinsPrefix(h: Hashes, a: seq<StoredEvent>, i: nat, b: seq<StoredEvent>, j: nat)
    requires Sound(h, a) && i < |a| && IsCommitment(a[i])
    requires j < |b| && b[j] == a[i]
    requires b[..j] != a[..i]
    ensures || FailsBy(h, b, j)
            || MacCollision(h, a[..i + 1], b[..j + 1])
            || DigestCollision(h, a[..i + 1], b[..j + 1])
  {
    FaultByOrSound(h, b, j);
    if Sound(h, b[..j + 1]) {
      SoundPrefix(h, a, i + 1);
      assert IsCommitment(a[..i + 1][i]);
      CommittedTipDeterminesEverything(h, a[..i + 1], b[..j + 1]);
      PrefixOfEqual(a, i, b, j);
    }
  }

  lemma PrefixOfEqual(a: seq<StoredEvent>, i: nat, b: seq<StoredEvent>, j: nat)
    requires i < |a| && j < |b|
    ensures a[..i + 1] == b[..j + 1] ==> a[..i] == b[..j]
  {
    assert |a[..i + 1]| == i + 1 && |b[..j + 1]| == j + 1;
    assert a[..i] == a[..i + 1][..i] && b[..j] == b[..j + 1][..j];
  }
}
