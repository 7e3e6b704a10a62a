/**
 Stored rows, commitment rows and the digest that pins the legacy rows
 (src/audit/layout_commit.rs).
 */
module LayoutCommit {
  import opened Wrappers
  import opened Bytes
  import opened AuditRow

  const PRIMITIVE_SYSTEM: Text := Ascii("kvendra.system")
  const AUDIT_LAYOUT_COMMITTED: Text := Ascii("audit_layout_committed")
  const DIGEST_DOMAIN: seq<byte> := Ascii("kvendra.audit.legacy-layout-commitment\0")

  /** One row of `audit_events`: its MAC-bound columns, its layout and its tag. */
  datatype StoredEvent = StoredEvent(fields: RowFields, version: Int64, hmac: Text)

  predicate CommitmentShaped(version: Int64, profileId: Text, primitive: Text, action: Text, flags: Text) {
    && version == CURRENT_HMAC_LAYOUT
    && profileId == PRIMITIVE_SYSTEM
    && primitive == PRIMITIVE_SYSTEM
    && action == AUDIT_LAYOUT_COMMITTED
    && flags == AUDIT_LAYOUT_COMMITTED
  }

  predicate IsCommitment(e: StoredEvent) {
    CommitmentShaped(e.version, e.fields.profileId, e.fields.primitive, e.fields.action, e.fields.flags)
  }

  function LegacyRows(events: seq<StoredEvent>): (r: seq<StoredEvent>)
    ensures forall i :: 0 <= i < |r| ==> IsLegacyLayout(r[i].version) && r[i] in events
    ensures |r| <= |events|
  {
    if events == [] then []
    else
      var last := events[|events| - 1];
      LegacyRows(events[..|events| - 1]) + if IsLegacyLayout(last.version) then [last] else []
  }

  function Commitments(events: seq<StoredEvent>): (r: seq<StoredEvent>)
    ensures forall i :: 0 <= i < |r| ==> IsCommitment(r[i]) && r[i] in events
    ensures r == [] <==> forall i :: 0 <= i < |events| ==> !IsCommitment(events[i])
    ensures |r| <= |events|
  {
    if events == [] then []
    else
      var last := events[|events| - 1];
      Commitments(events[..|events| - 1]) + if IsCommitment(last) then [last] else []
  }

  // ---------------------------------------------------------------------
  // The digest
  // ---------------------------------------------------------------------

  /** Every column of a stored row, self-delimiting. */
  function RowBytes(e: StoredEvent): seq<byte> {
    ColumnBytes(e.fields) + (I64(e.version) + PutText(e.hmac))
  }

  function RowsBytes(rows: seq<StoredEvent>): seq<byte> {
    if rows == [] then [] else RowBytes(rows[0]) + RowsBytes(rows[1..])
  }

  function DigestInput(rows: seq<StoredEvent>): seq<byte> {
    DIGEST_DOMAIN + U64(|rows| % TWO_TO_THE_64) + RowsBytes(rows)
  }

  lemma RowBytesCancel(e: StoredEvent, f: StoredEvent, x: seq<byte>, y: seq<byte>)
    requires RowBytes(e) + x == RowBytes(f) + y
    ensures e == f && x == y
  {
    RowBytesTail(e, x);
    RowBytesTail(f, y);
    ColumnBytesCancel(e.fields, f.fields, I64(e.version) + (PutText(e.hmac) + x),
        I64(f.version) + (PutText(f.hmac) + y));
    I64Cancel(e.version, f.version, PutText(e.hmac) + x, PutText(f.hmac) + y);
    PutTextCancel(e.hmac, f.hmac, x, y);
  }

  lemma RowBytesTail(e: StoredEvent, x: seq<byte>)
    ensures RowBytes(e) + x == ColumnBytes(e.fields) + (I64(e.version) + (PutText(e.hmac) + x))
  {
    Associative(ColumnBytes(e.fields), I64(e.version) + PutText(e.hmac), x);
    Associative(I64(e.version), PutText(e.hmac), x);
  }

  lemma {:induction false} RowsBytesSnoc(rows: seq<StoredEvent>, e: StoredEvent)
    ensures RowsBytes(rows + [e]) == RowsBytes(rows) + RowBytes(e)
  {
    if rows == [] {
      assert rows + [e] == [e] && [e][1..] == [];
      assert RowBytes(e) + [] == RowBytes(e) && [] + RowBytes(e) == RowBytes(e);
    } else {
      assert (rows + [e])[1..] == rows[1..] + [e];
      RowsBytesSnoc(rows[1..], e);
      Associative(RowBytes(rows[0]), RowsBytes(rows[1..]), RowBytes(e));
    }
  }

  lemma RowsBytesNonEmpty(rows: seq<StoredEvent>)
    ensures rows != [] <==> RowsBytes(rows) != []
  {
    if rows != [] {
      assert |RowBytes(rows[0])| >= |I64(rows[0].version)|;
    }
  }

  lemma {:induction false} RowsBytesInjective(a: seq<StoredEvent>, b: seq<StoredEvent>)
    requires RowsBytes(a) == RowsBytes(b)
    ensures a == b
  {
    RowsBytesNonEmpty(a);
    RowsBytesNonEmpty(b);
    if a != [] {
      RowBytesCancel(a[0], b[0], RowsBytes(a[1..]), RowsBytes(b[1..]));
      RowsBytesInjective(a[1..], b[1..]);
      assert a == [a[0]] + a[1..] && b == [b[0]] + b[1..];
    }
  }

  /** The digest input binds every column of every row, their order and their number. */
  lemma DigestInputInjective(a: seq<StoredEvent>, b: seq<StoredEvent>)
    requires DigestInput(a) == DigestInput(b)
    ensures a == b
  {
    PrefixCancel(DIGEST_DOMAIN + U64(|a| % TWO_TO_THE_64), DIGEST_DOMAIN + U64(|b| % TWO_TO_THE_64), RowsBytes(a),
        RowsBytes(b));
    RowsBytesInjective(a, b);
  }

  /** `legacy_layout_digest`: one hasher fed row by row. */
  method LegacyLayoutDigest(sha: Hash, rows: seq<StoredEvent>) returns (digest: Tag)
    ensures digest == sha(DigestInput(rows))
  {
    var h := new Hasher();
    h.Update(DIGEST_DOMAIN);
    h.Update(U64(|rows| % TWO_TO_THE_64));
    ghost var head := h.fed;
    assert head == DIGEST_DOMAIN + U64(|rows| % TWO_TO_THE_64);
    assert head + [] == head;
    for k := 0 to |rows|
      invariant h.fed == head + RowsBytes(rows[..k])
    {
      h.UpdateColumns(rows[k].fields);
      h.Update(I64(rows[k].version));
      h.UpdateText(rows[k].hmac);
      RowFed(head, rows, k);
    }
    assert rows[..|rows|] == rows;
    digest := sha(h.fed);
  }

  lemma RowFed(head: seq<byte>, rows: seq<StoredEvent>, k: nat)
    requires k < |rows|
    ensures head + RowsBytes(rows[..k]) + ColumnBytes(rows[k].fields) + I64(rows[k].version) + PutText(rows[k].hmac)
            == head + RowsBytes(rows[..k + 1])
  {
    var r, before := rows[k], head + RowsBytes(rows[..k]);
    Associative(before + ColumnBytes(r.fields), I64(r.version), PutText(r.hmac));
    Associative(before, ColumnBytes(r.fields), I64(r.version) + PutText(r.hmac));
    assert rows[..k + 1] == rows[..k] + [r];
    RowsBytesSnoc(rows[..k], r);
    Associative(head, RowsBytes(rows[..k]), RowBytes(r));
  }

  // ---------------------------------------------------------------------
  // Facts about the filters
  // ---------------------------------------------------------------------

  lemma FiltersSnoc(events: seq<StoredEvent>, e: StoredEvent)
    ensures LegacyRows(events + [e]) == LegacyRows(events) + if IsLegacyLayout(e.version) then [e] else []
    ensures Commitments(events + [e]) == Commitments(events) + if IsCommitment(e) then [e] else []
  {
    assert (events + [e])[..|events|] == events;
  }

  /** Rows of the current layout add nothing to the legacy rows. */
  lemma {:induction false} LegacyRowsOfCurrentTail(events: seq<StoredEvent>, k: nat)
    requires k <= |events|
    requires forall i :: k <= i < |events| ==> !IsLegacyLayout(events[i].version)
    ensures LegacyRows(events) == LegacyRows(events[..k])
  {
    if k == |events| {
      assert events[..k] == events;
    } else {
      var init := events[..|events| - 1];
      LegacyRowsOfCurrentTail(init, k);
      assert init[..k] == events[..k];
    }
  }
}
