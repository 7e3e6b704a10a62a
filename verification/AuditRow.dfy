/**
 The four MAC layouts of one audit row (src/audit/hmac.rs): three frozen
 pipe-joined encodings and the length-prefixed, domain-separated one.
 */
module AuditRow {
  import opened Wrappers
  import opened Bytes

  const CURRENT_HMAC_LAYOUT: Int64 := 4
  const V4_DOMAIN: seq<byte> := Ascii("kvendra.audit.row\0")
  const NONCANONICAL_LEGACY_DOMAIN: seq<byte> := Ascii("kvendra.audit.noncanonical-legacy\0")

  /** The MAC-bound columns of one audit row. */
  datatype RowFields = RowFields(
    id: Int64,
    tsUnixMs: Int64,
    profileId: Text,
    primitive: Text,
    action: Text,
    argsHash: Text,
    status: Text,
    severity: Text,
    flags: Text,
    prevHmac: Text,
    remoteAuditId: Option<Text>,
    errorCode: Option<Text>,
    errorMessage: Option<Text>)

  datatype Column =
    ProfileId | Primitive | Action | ArgsHash | Status | Severity | Flags | PrevHmac | RemoteAuditId | ErrorCode

  datatype LayoutError = Unknown(layout: Int64) | NonCanonicalLegacy(layout: Int64, column: Column)

  predicate IsLegacyLayout(layout: Int64) {
    1 <= layout <= 3
  }

  function OrEmpty(o: Option<Text>): Text {
    match o
    case None => []
    case Some(s) => s
  }

  /** The eight text columns every layout binds, in encoding order. */
  function Texts(row: RowFields): (r: seq<Text>)
    ensures |r| == 8
  {
    [row.profileId, row.primitive, row.action, row.argsHash, row.status, row.severity, row.flags, row.prevHmac]
  }

  function Optionals(row: RowFields): (r: seq<Option<Text>>)
    ensures |r| == 3
  {
    [row.remoteAuditId, row.errorCode, row.errorMessage]
  }

  // ---------------------------------------------------------------------
  // Legacy layouts
  // ---------------------------------------------------------------------

  function LegacyParts(layout: Int64, row: RowFields): (r: seq<Text>)
    ensures |r| == if layout >= 3 then 11 else if layout >= 2 then 9 else 8
  {
    Texts(row)
    + (if layout >= 2 then [OrEmpty(row.remoteAuditId)] else [])
    + (if layout >= 3 then [OrEmpty(row.errorCode), OrEmpty(row.errorMessage)] else [])
  }

  function IdPrefix(row: RowFields): (r: seq<byte>)
    ensures |r| == 18
  {
    I64(row.id) + [PIPE] + I64(row.tsUnixMs) + [PIPE]
  }

  function LegacyEncoding(layout: Int64, row: RowFields): seq<byte> {
    IdPrefix(row) + Join(LegacyParts(layout, row))
  }

  /** The columns in which a '|' makes the legacy encoding ambiguous. */
  function CheckedColumns(layout: Int64, row: RowFields): seq<(Column, Text)> {
    [ (ProfileId, row.profileId), (Primitive, row.primitive), (Action, row.action), (ArgsHash, row.argsHash),
      (Status, row.status), (Severity, row.severity), (Flags, row.flags), (PrevHmac, row.prevHmac) ]
    + (if layout >= 2 then [(RemoteAuditId, OrEmpty(row.remoteAuditId))] else [])
    + (if layout >= 3 then [(ErrorCode, OrEmpty(row.errorCode))] else [])
  }

  function FirstWithPipe(columns: seq<(Column, Text)>): (r: Option<Column>)
    ensures r.None? <==> forall i :: 0 <= i < |columns| ==> PipeFree(columns[i].1)
    ensures r.Some? ==> exists i :: 0 <= i < |columns| && columns[i].0 == r.value && !PipeFree(columns[i].1)
                                    && forall j :: 0 <= j < i ==> PipeFree(columns[j].1)
  {
    if columns == [] then None
    else if PIPE in columns[0].1 then Some(columns[0].0)
    else
      var rest := FirstWithPipe(columns[1..]);
      assert columns == [columns[0]] + columns[1..];
      rest
  }

  function NonCanonicalColumn(layout: Int64, row: RowFields): Option<Column> {
    FirstWithPipe(CheckedColumns(layout, row))
  }

  /** Canonical rows have no '|' in any part that another part may follow. */
  lemma CanonicalIsDelimited(layout: Int64, row: RowFields)
    requires IsLegacyLayout(layout) && NonCanonicalColumn(layout, row).None?
    ensures Delimited(LegacyParts(layout, row))
    ensures layout < 3 ==> PipeFree(LegacyParts(layout, row)[|LegacyParts(layout, row)| - 1])
  {
    var columns, parts := CheckedColumns(layout, row), LegacyParts(layout, row);
    assert forall i :: 0 <= i < |columns| ==> columns[i].1 == parts[i];
  }

  // ---------------------------------------------------------------------
  // The injective layout
  // ---------------------------------------------------------------------

  /** All thirteen columns, each fixed-width, length-prefixed or tagged. */
  function ColumnBytes(row: RowFields): seq<byte> {
    I64(row.id) + (I64(row.tsUnixMs) + (PutTexts(Texts(row)) + PutOptions(Optionals(row))))
  }

  function InjectiveEncoding(domain: seq<byte>, layout: Int64, row: RowFields): seq<byte> {
    domain + (I64(layout) + ColumnBytes(row))
  }

  lemma ColumnBytesCancel(r: RowFields, s: RowFields, x: seq<byte>, y: seq<byte>)
    requires ColumnBytes(r) + x == ColumnBytes(s) + y
    ensures r == s && x == y
  {
    ColumnBytesTail(r, x);
    ColumnBytesTail(s, y);
    I64Cancel(r.id, s.id,
              I64(r.tsUnixMs) + (PutTexts(Texts(r)) + (PutOptions(Optionals(r)) + x)),
              I64(s.tsUnixMs) + (PutTexts(Texts(s)) + (PutOptions(Optionals(s)) + y)));
    I64Cancel(r.tsUnixMs, s.tsUnixMs,
              PutTexts(Texts(r)) + (PutOptions(Optionals(r)) + x),
              PutTexts(Texts(s)) + (PutOptions(Optionals(s)) + y));
    PutTextsCancel(Texts(r), Texts(s), PutOptions(Optionals(r)) + x, PutOptions(Optionals(s)) + y);
    PutOptionsCancel(Optionals(r), Optionals(s), x, y);
    SameColumns(r, s);
  }

  lemma SameColumns(r: RowFields, s: RowFields)
    requires r.id == s.id && r.tsUnixMs == s.tsUnixMs
    requires Texts(r) == Texts(s) && Optionals(r) == Optionals(s)
    ensures r == s
  {
    var a, b, o, p := Texts(r), Texts(s), Optionals(r), Optionals(s);
    assert a[0] == b[0] && a[1] == b[1] && a[2] == b[2] && a[3] == b[3];
    assert a[4] == b[4] && a[5] == b[5] && a[6] == b[6] && a[7] == b[7];
    assert o[0] == p[0] && o[1] == p[1] && o[2] == p[2];
  }

  lemma ColumnBytesTail(r: RowFields, x: seq<byte>)
    ensures ColumnBytes(r) + x ==
            I64(r.id) + (I64(r.tsUnixMs) + (PutTexts(Texts(r)) + (PutOptions(Optionals(r)) + x)))
  {
    var texts, optionals := PutTexts(Texts(r)), PutOptions(Optionals(r));
    Associative(I64(r.id), I64(r.tsUnixMs) + (texts + optionals), x);
    Associative(I64(r.tsUnixMs), texts + optionals, x);
    Associative(texts, optionals, x);
  }

  // ---------------------------------------------------------------------
  // Dispatch and its injectivity
  // ---------------------------------------------------------------------

  /** What `compute_for_layout` feeds to the MAC, or why it refuses. */
  function MacInput(layout: Int64, row: RowFields): Result<seq<byte>, LayoutError> {
    if IsLegacyLayout(layout) then
      match NonCanonicalColumn(layout, row)
      case Some(column) => Failure(NonCanonicalLegacy(layout, column))
      case None => Success(LegacyEncoding(layout, row))
    else if layout == 4 then Success(InjectiveEncoding(V4_DOMAIN, 4, row))
    else Failure(Unknown(layout))
  }

  /** What the public `compute_hmac_v{1,2,3}` builders feed to the MAC. */
  function LegacyBuilderInput(layout: Int64, row: RowFields): seq<byte> {
    if NonCanonicalColumn(layout, row).Some?
    then InjectiveEncoding(NONCANONICAL_LEGACY_DOMAIN, layout, row)
    else LegacyEncoding(layout, row)
  }

  /**
   The columns a tag of `layout` vouches for: all thirteen under the current
   layout; under a legacy one the ten it encodes, NULL and empty identified.
   */
  predicate SameBound(layout: Int64, r: RowFields, s: RowFields) {
    if layout == CURRENT_HMAC_LAYOUT then r == s
    else
      && r.id == s.id && r.tsUnixMs == s.tsUnixMs
      && r.profileId == s.profileId && r.primitive == s.primitive && r.action == s.action
      && r.argsHash == s.argsHash && r.status == s.status && r.severity == s.severity
      && r.flags == s.flags && r.prevHmac == s.prevHmac
      && (layout >= 2 ==> OrEmpty(r.remoteAuditId) == OrEmpty(s.remoteAuditId))
      && (layout >= 3 ==> OrEmpty(r.errorCode) == OrEmpty(s.errorCode)
                          && OrEmpty(r.errorMessage) == OrEmpty(s.errorMessage))
  }

  lemma PartsAreBound(layout: Int64, r: RowFields, s: RowFields)
    requires IsLegacyLayout(layout)
    requires r.id == s.id && r.tsUnixMs == s.tsUnixMs
    ensures LegacyParts(layout, r) == LegacyParts(layout, s) <==> SameBound(layout, r, s)
  {
    var a, b := LegacyParts(layout, r), LegacyParts(layout, s);
    if a == b {
      assert a[0] == b[0] && a[1] == b[1] && a[2] == b[2] && a[3] == b[3];
      assert a[4] == b[4] && a[5] == b[5] && a[6] == b[6] && a[7] == b[7];
      assert layout >= 2 ==> a[8] == b[8];
      assert layout >= 3 ==> a[9] == b[9] && a[10] == b[10];
    }
  }

  lemma IdPrefixCancel(r: RowFields, s: RowFields, x: seq<byte>, y: seq<byte>)
    requires IdPrefix(r) + x == IdPrefix(s) + y
    ensures r.id == s.id && r.tsUnixMs == s.tsUnixMs && x == y
  {
    PrefixCancel(IdPrefix(r), IdPrefix(s), x, y);
    IdPrefixShape(r);
    IdPrefixShape(s);
    I64Cancel(r.id, s.id, [PIPE] + (I64(r.tsUnixMs) + [PIPE]), [PIPE] + (I64(s.tsUnixMs) + [PIPE]));
    PrefixCancel([PIPE], [PIPE], I64(r.tsUnixMs) + [PIPE], I64(s.tsUnixMs) + [PIPE]);
    I64Cancel(r.tsUnixMs, s.tsUnixMs, [PIPE], [PIPE]);
  }

  lemma IdPrefixShape(r: RowFields)
    ensures IdPrefix(r) == I64(r.id) + ([PIPE] + (I64(r.tsUnixMs) + [PIPE]))
    ensures IdPrefix(r)[8] == PIPE
  {
    assert I64(r.id) + [PIPE] + I64(r.tsUnixMs) + [PIPE] == I64(r.id) + ([PIPE] + (I64(r.tsUnixMs) + [PIPE]));
  }

  /** The frozen layouts are one code: equal bytes, equal layout, equal bound columns. */
  lemma LegacyEncodingInjective(l1: Int64, r1: RowFields, l2: Int64, r2: RowFields)
    requires IsLegacyLayout(l1) && NonCanonicalColumn(l1, r1).None?
    requires IsLegacyLayout(l2) && NonCanonicalColumn(l2, r2).None?
    requires LegacyEncoding(l1, r1) == LegacyEncoding(l2, r2)
    ensures l1 == l2 && SameBound(l1, r1, r2)
  {
    var a, b := LegacyParts(l1, r1), LegacyParts(l2, r2);
    IdPrefixCancel(r1, r2, Join(a), Join(b));
    CanonicalIsDelimited(l1, r1);
    CanonicalIsDelimited(l2, r2);
    JoinInjective(a, b);
    PartsAreBound(l1, r1, r2);
  }

  /**
   The frozen layouts byte for byte: id and time in eight bytes each, then the
   columns in their order, all joined by '|', an absent optional as nothing.
   */
  lemma LegacyBytes(layout: Int64, row: RowFields, remote: Text, code: Text, message: Text)
    requires row.remoteAuditId == Some(remote) || (row.remoteAuditId == None && remote == [])
    requires row.errorCode == Some(code) || (row.errorCode == None && code == [])
    requires row.errorMessage == Some(message) || (row.errorMessage == None && message == [])
    ensures var pipe: seq<byte> := [124];
            LegacyEncoding(layout, row) ==
            I64(row.id) + pipe + I64(row.tsUnixMs) + pipe
            + (row.profileId + pipe + row.primitive + pipe + row.action + pipe + row.argsHash + pipe
               + row.status + pipe + row.severity + pipe + row.flags + pipe + row.prevHmac
               + (if layout >= 2 then pipe + remote else [])
               + (if layout >= 3 then pipe + code + pipe + message else []))
  {
    var texts, eight := Texts(row), JoinedTexts(row);
    EightJoined(row);
    hide Join, I64;
    assert OrEmpty(row.remoteAuditId) == remote;
    assert OrEmpty(row.errorCode) == code && OrEmpty(row.errorMessage) == message;
    if layout >= 2 {
      JoinSnoc(texts, remote);
    }
    if layout >= 3 {
      JoinSnoc(texts + [remote], code);
      JoinSnoc(texts + [remote] + [code], message);
      assert LegacyParts(layout, row) == texts + [remote] + [code] + [message];
      assert eight + [PIPE] + remote + [PIPE] + code + [PIPE] + message
          == eight + ([PIPE] + remote) + ([PIPE] + code + [PIPE] + message);
    } else if layout >= 2 {
      assert LegacyParts(layout, row) == texts + [remote];
      assert eight + [PIPE] + remote == eight + ([PIPE] + remote) + [];
    } else {
      assert LegacyParts(layout, row) == texts;
      assert eight == eight + [] + [];
    }
  }

  function JoinedTexts(row: RowFields): seq<byte> {
    row.profileId + [PIPE] + row.primitive + [PIPE] + row.action + [PIPE] + row.argsHash + [PIPE]
    + row.status + [PIPE] + row.severity + [PIPE] + row.flags + [PIPE] + row.prevHmac
  }

  lemma EightJoined(row: RowFields)
    ensures Join(Texts(row)) == JoinedTexts(row)
  {
    var t := Texts(row);
    assert t[..1] == [t[0]] && t[..8] == t;
    assert Join(t[..1]) == t[0];
    hide Join;
    JoinUpTo(t, 1);
    JoinUpTo(t, 2);
    JoinUpTo(t, 3);
    JoinUpTo(t, 4);
    JoinUpTo(t, 5);
    JoinUpTo(t, 6);
    JoinUpTo(t, 7);
  }

  lemma JoinUpTo(t: seq<Text>, k: nat)
    requires 0 < k < |t|
    ensures Join(t[..k + 1]) == Join(t[..k]) + [PIPE] + t[k]
  {
    JoinSnoc(t[..k], t[k]);
    assert t[..k + 1] == t[..k] + [t[k]];
  }

  /**
   The current layout byte for byte: domain, layout, id and time, then every
   text with its length and every optional with its mark, in column order.
   */
  lemma InjectiveBytes(domain: seq<byte>, layout: Int64, row: RowFields)
    ensures InjectiveEncoding(domain, layout, row) ==
            domain + I64(layout) + I64(row.id) + I64(row.tsUnixMs)
            + PutText(row.profileId) + PutText(row.primitive) + PutText(row.action) + PutText(row.argsHash)
            + PutText(row.status) + PutText(row.severity) + PutText(row.flags) + PutText(row.prevHmac)
            + PutOption(row.remoteAuditId) + PutOption(row.errorCode) + PutOption(row.errorMessage)
  {
    hide PutText, PutOption, PutTexts, PutOptions, Texts, Optionals;
    var head := domain + I64(layout);
    EightTexts(head + I64(row.id) + I64(row.tsUnixMs), row);
    ThreeOptionals(head + I64(row.id) + I64(row.tsUnixMs) + PutTexts(Texts(row)), row);
    ColumnsFed(head, row);
    Associative(domain, I64(layout), ColumnBytes(row));
  }

  /**
   Why the canonical domain is needed: every v3 row has the very bytes of a v2
   row, the one whose `remote_audit_id` swallows the two trailing columns. That
   v2 row carries a '|' and is refused.
   */
  lemma DowngradeAliases(row: RowFields, swallowed: Text)
    requires swallowed
            == OrEmpty(row.remoteAuditId) + [PIPE] + OrEmpty(row.errorCode) + [PIPE] + OrEmpty(row.errorMessage)
    ensures var relabelled := row.(remoteAuditId := Some(swallowed));
            && LegacyEncoding(2, relabelled) == LegacyEncoding(3, row)
            && MacInput(2, relabelled).Failure?
  {
    var relabelled := row.(remoteAuditId := Some(swallowed));
    var eight, rest := Texts(row), [OrEmpty(row.remoteAuditId), OrEmpty(row.errorCode), OrEmpty(row.errorMessage)];
    JoinSnoc(eight, swallowed);
    JoinSnoc(eight, rest[0]);
    JoinSnoc(eight + [rest[0]], rest[1]);
    JoinSnoc(eight + [rest[0]] + [rest[1]], rest[2]);
    assert LegacyParts(2, relabelled) == eight + [swallowed];
    assert LegacyParts(3, row) == eight + [rest[0]] + [rest[1]] + [rest[2]];
    assert Join(eight) + [PIPE] + swallowed == Join(LegacyParts(3, row));
    assert CheckedColumns(2, relabelled)[8].1 == swallowed && swallowed[|rest[0]|] == PIPE;
  }

  lemma InjectiveEncodingInjective(domain: seq<byte>, l1: Int64, r1: RowFields, l2: Int64, r2: RowFields)
    requires InjectiveEncoding(domain, l1, r1) == InjectiveEncoding(domain, l2, r2)
    ensures l1 == l2 && r1 == r2
  {
    PrefixCancel(domain, domain, I64(l1) + ColumnBytes(r1), I64(l2) + ColumnBytes(r2));
    I64Cancel(l1, l2, ColumnBytes(r1), ColumnBytes(r2));
    assert ColumnBytes(r1) + [] == ColumnBytes(r1) && ColumnBytes(r2) + [] == ColumnBytes(r2);
    ColumnBytesCancel(r1, r2, [], []);
  }

  /** Byte 8 is '|' in every legacy encoding and 'a' under both domains. */
  lemma LegacyIsNotInjective(l1: Int64, r1: RowFields, domain: seq<byte>, l2: Int64, r2: RowFields)
    requires domain == V4_DOMAIN || domain == NONCANONICAL_LEGACY_DOMAIN
    ensures LegacyEncoding(l1, r1) != InjectiveEncoding(domain, l2, r2)
  {
    IdPrefixShape(r1);
    assert LegacyEncoding(l1, r1)[8] == IdPrefix(r1)[8];
    assert InjectiveEncoding(domain, l2, r2)[8] == domain[8];
    assert domain[8] == ('a' as int) as byte;
  }

  /** Byte 14 tells the two domains apart: 'r' against 'n'. */
  lemma DomainsAreDisjoint(l1: Int64, r1: RowFields, l2: Int64, r2: RowFields)
    ensures InjectiveEncoding(V4_DOMAIN, l1, r1) != InjectiveEncoding(NONCANONICAL_LEGACY_DOMAIN, l2, r2)
  {
    assert InjectiveEncoding(V4_DOMAIN, l1, r1)[14] == V4_DOMAIN[14] == ('r' as int) as byte;
    assert InjectiveEncoding(NONCANONICAL_LEGACY_DOMAIN, l2, r2)[14] == NONCANONICAL_LEGACY_DOMAIN[14]
        == ('n' as int) as byte;
  }

  /**
   A tag issued for one layout and one row is a tag for nothing else: over all
   layouts and all accepted rows, the MAC inputs coincide exactly when the
   layouts and the bound columns do.
   */
  lemma MacInputInjective(l1: Int64, r1: RowFields, l2: Int64, r2: RowFields)
    requires MacInput(l1, r1).Success? && MacInput(l2, r2).Success?
    ensures MacInput(l1, r1) == MacInput(l2, r2) <==> l1 == l2 && SameBound(l1, r1, r2)
  {
    if MacInput(l1, r1) == MacInput(l2, r2) {
      if IsLegacyLayout(l1) && IsLegacyLayout(l2) {
        LegacyEncodingInjective(l1, r1, l2, r2);
      } else if IsLegacyLayout(l1) {
        LegacyIsNotInjective(l1, r1, V4_DOMAIN, l2, r2);
      } else if IsLegacyLayout(l2) {
        LegacyIsNotInjective(l2, r2, V4_DOMAIN, l1, r1);
      } else {
        InjectiveEncodingInjective(V4_DOMAIN, 4, r1, 4, r2);
      }
    } else if l1 == l2 && SameBound(l1, r1, r2) && IsLegacyLayout(l1) {
      PartsAreBound(l1, r1, r2);
    }
  }

  /** A refused legacy row's builder output is outside every verifiable input. */
  lemma NonCanonicalTagVerifiesNowhere(l1: Int64, r1: RowFields, l2: Int64, r2: RowFields)
    requires IsLegacyLayout(l1) && NonCanonicalColumn(l1, r1).Some?
    requires MacInput(l2, r2).Success?
    ensures LegacyBuilderInput(l1, r1) != MacInput(l2, r2).value
  {
    if IsLegacyLayout(l2) {
      LegacyIsNotInjective(l2, r2, NONCANONICAL_LEGACY_DOMAIN, l1, r1);
    } else {
      DomainsAreDisjoint(4, r2, l1, r1);
    }
  }

  // ---------------------------------------------------------------------
  // The encoders, feeding a MAC step by step
  // ---------------------------------------------------------------------

  class Hasher {
    var fed: seq<byte>

    constructor ()
      ensures fed == []
    {
      fed := [];
    }

    method Update(chunk: seq<byte>)
      modifies this
      ensures fed == old(fed) + chunk
    {
      fed := fed + chunk;
    }

    method UpdateText(s: Text)
      modifies this
      ensures fed == old(fed) + PutText(s)
    {
      Update(U64(|s|));
      Update(s);
      Associative(old(fed), U64(|s|), s);
    }

    method UpdateOption(o: Option<Text>)
      modifies this
      ensures fed == old(fed) + PutOption(o)
    {
      match o {
        case None =>
          Update([0]);
        case Some(s) =>
          Update([1]);
          UpdateText(s);
          Associative(old(fed), [1], PutText(s));
      }
    }

    /** One more '|'-joined part. */
    method UpdatePart(s: Text, ghost head: seq<byte>, ghost parts: seq<Text>) returns (ghost longer: seq<Text>)
      requires parts != [] && fed == head + Join(parts)
      modifies this
      ensures longer == parts + [s] && fed == head + Join(longer)
    {
      Update([PIPE]);
      Update(s);
      JoinSnoc(parts, s);
      assert head + Join(parts) + [PIPE] + s == head + (Join(parts) + [PIPE] + s);
      longer := parts + [s];
    }

    /** The thirteen columns of a row. */
    method UpdateColumns(row: RowFields)
      modifies this
      ensures fed == old(fed) + ColumnBytes(row)
    {
      Update(I64(row.id));
      Update(I64(row.tsUnixMs));
      ghost var head := fed;
      UpdateText(row.profileId);
      UpdateText(row.primitive);
      UpdateText(row.action);
      UpdateText(row.argsHash);
      UpdateText(row.status);
      UpdateText(row.severity);
      UpdateText(row.flags);
      UpdateText(row.prevHmac);
      EightTexts(head, row);
      ghost var texts := fed;
      UpdateOption(row.remoteAuditId);
      UpdateOption(row.errorCode);
      UpdateOption(row.errorMessage);
      ThreeOptionals(texts, row);
      ColumnsFed(old(fed), row);
    }
  }

  lemma EightTexts(head: seq<byte>, row: RowFields)
    ensures head + PutText(row.profileId) + PutText(row.primitive) + PutText(row.action) + PutText(row.argsHash)
            + PutText(row.status) + PutText(row.severity) + PutText(row.flags) + PutText(row.prevHmac)
            == head + PutTexts(Texts(row))
  {
    hide PutText;
    var t := Texts(row);
    TextsFrom(head, t, 0);
    TextsFrom(head, t, 1);
    TextsFrom(head, t, 2);
    TextsFrom(head, t, 3);
    TextsFrom(head, t, 4);
    TextsFrom(head, t, 5);
    TextsFrom(head, t, 6);
    TextsFrom(head, t, 7);
    assert t[..0] == [] && t[..8] == t;
    assert head + PutTexts([]) == head;
  }

  lemma TextsFrom(head: seq<byte>, t: seq<Text>, k: nat)
    requires k < |t|
    ensures head + PutTexts(t[..k]) + PutText(t[k]) == head + PutTexts(t[..k + 1])
  {
    PutTextsSnoc(t[..k], t[k]);
    assert t[..k + 1] == t[..k] + [t[k]];
    Associative(head, PutTexts(t[..k]), PutText(t[k]));
  }

  lemma ThreeOptionals(head: seq<byte>, row: RowFields)
    ensures head + PutOption(row.remoteAuditId) + PutOption(row.errorCode) + PutOption(row.errorMessage)
            == head + PutOptions(Optionals(row))
  {
    var o := Optionals(row);
    OptionalsFrom(head, o, 0);
    OptionalsFrom(head, o, 1);
    OptionalsFrom(head, o, 2);
    assert o[..0] == [] && o[..3] == o;
    assert head + PutOptions([]) == head;
  }

  lemma OptionalsFrom(head: seq<byte>, o: seq<Option<Text>>, k: nat)
    requires k < |o|
    ensures head + PutOptions(o[..k]) + PutOption(o[k]) == head + PutOptions(o[..k + 1])
  {
    PutOptionsSnoc(o[..k], o[k]);
    assert o[..k + 1] == o[..k] + [o[k]];
    Associative(head, PutOptions(o[..k]), PutOption(o[k]));
  }

  lemma ColumnsFed(head: seq<byte>, row: RowFields)
    ensures head + I64(row.id) + I64(row.tsUnixMs) + PutTexts(Texts(row)) + PutOptions(Optionals(row))
            == head + ColumnBytes(row)
  {
    var i, t, texts, optionals := I64(row.id), I64(row.tsUnixMs), PutTexts(Texts(row)), PutOptions(Optionals(row));
    assert head + i + t + texts + optionals == head + (i + (t + (texts + optionals)));
  }

  /** The part of the frozen encoding all three legacy layouts share. */
  method FeedLegacyPrefix(h: Hasher, row: RowFields)
    requires h.fed == []
    modifies h
    ensures h.fed == IdPrefix(row) + Join(Texts(row))
  {
    h.Update(I64(row.id));
    h.Update([PIPE]);
    h.Update(I64(row.tsUnixMs));
    h.Update([PIPE]);
    ghost var head := IdPrefix(row);
    assert h.fed == head;
    h.Update(row.profileId);
    ghost var parts: seq<Text> := [row.profileId];
    parts := h.UpdatePart(row.primitive, head, parts);
    parts := h.UpdatePart(row.action, head, parts);
    parts := h.UpdatePart(row.argsHash, head, parts);
    parts := h.UpdatePart(row.status, head, parts);
    parts := h.UpdatePart(row.severity, head, parts);
    parts := h.UpdatePart(row.flags, head, parts);
    parts := h.UpdatePart(row.prevHmac, head, parts);
    assert parts == Texts(row);
  }

  /** `legacy_mac`: the frozen encoding fed piece by piece. */
  method LegacyMac(mac: Hash, layout: Int64, row: RowFields) returns (tag: Tag)
    requires IsLegacyLayout(layout)
    ensures tag == mac(LegacyEncoding(layout, row))
  {
    var h := new Hasher();
    FeedLegacyPrefix(h, row);
    ghost var head, parts := IdPrefix(row), Texts(row);
    if layout >= 2 {
      parts := h.UpdatePart(OrEmpty(row.remoteAuditId), head, parts);
    }
    if layout >= 3 {
      parts := h.UpdatePart(OrEmpty(row.errorCode), head, parts);
      parts := h.UpdatePart(OrEmpty(row.errorMessage), head, parts);
    }
    assert parts == LegacyParts(layout, row);
    tag := mac(h.fed);
  }

  /** `injective_mac`: domain, layout number, then the columns. */
  method InjectiveMac(mac: Hash, domain: seq<byte>, layout: Int64, row: RowFields) returns (tag: Tag)
    ensures tag == mac(InjectiveEncoding(domain, layout, row))
  {
    var h := new Hasher();
    h.Update(domain);
    h.Update(I64(layout));
    h.UpdateColumns(row);
    assert [] + domain == domain;
    Associative(domain, I64(layout), ColumnBytes(row));
    tag := mac(h.fed);
  }

  /** `legacy_noncanonical_field`: collect the columns, then the first with a '|'. */
  method LegacyNonCanonicalField(layout: Int64, row: RowFields) returns (r: Option<Column>)
    ensures r == NonCanonicalColumn(layout, row)
  {
    var columns: seq<(Column, Text)> :=
      [ (ProfileId, row.profileId), (Primitive, row.primitive), (Action, row.action), (ArgsHash, row.argsHash),
        (Status, row.status), (Severity, row.severity), (Flags, row.flags), (PrevHmac, row.prevHmac) ];
    if layout >= 2 {
      columns := columns + [(RemoteAuditId, OrEmpty(row.remoteAuditId))];
    }
    if layout >= 3 {
      columns := columns + [(ErrorCode, OrEmpty(row.errorCode))];
    }
    assert columns == CheckedColumns(layout, row);
    r := FirstWithPipe(columns);
  }

  /** The tag of a row under a layout, as a value. */
  function TagFor(mac: Hash, layout: Int64, row: RowFields): Result<Tag, LayoutError> {
    match MacInput(layout, row)
    case Success(input) => Success(mac(input))
    case Failure(e) => Failure(e)
  }

  /** `compute_for_layout`: the single dispatch point. */
  method ComputeForLayout(mac: Hash, layout: Int64, row: RowFields) returns (r: Result<Tag, LayoutError>)
    ensures r == TagFor(mac, layout, row)
  {
    if 1 <= layout <= 3 {
      var column := LegacyNonCanonicalField(layout, row);
      if column.Some? {
        return Failure(NonCanonicalLegacy(layout, column.value));
      }
      var tag := LegacyMac(mac, layout, row);
      return Success(tag);
    } else if layout == 4 {
      var tag := InjectiveMac(mac, V4_DOMAIN, 4, row);
      return Success(tag);
    } else {
      return Failure(Unknown(layout));
    }
  }

  /** `legacy_or_noncanonical`, shared by the three public legacy builders. */
  method LegacyOrNonCanonical(mac: Hash, layout: Int64, row: RowFields) returns (tag: Tag)
    requires IsLegacyLayout(layout)
    ensures tag == mac(LegacyBuilderInput(layout, row))
  {
    var column := LegacyNonCanonicalField(layout, row);
    if column.Some? {
      tag := InjectiveMac(mac, NONCANONICAL_LEGACY_DOMAIN, layout, row);
    } else {
      tag := LegacyMac(mac, layout, row);
    }
  }
}
