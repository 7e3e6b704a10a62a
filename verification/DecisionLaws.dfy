/**
 The whole runtime decision, from the envelope down: when a call is allowed,
 which refusal it gets, and what the resolvers of its operands and its target
 read (src/allowlist/enforcer.rs).
 */
module DecisionLaws {
  import opened Wrappers
  import opened StringSearch
  import opened Glob
  import opened RepoCanonical
  import opened AllowlistDsl
  import opened LocalOperand
  import opened Enforcer

  // ---------------------------------------------------------------------
  // Which entry decides
  // ---------------------------------------------------------------------

  /** Entry `i` is the first of its name. */
  predicate FirstNamed(primitives: seq<PrimitiveAllow>, i: nat, name: string) {
    i < |primitives| && primitives[i].name == name && forall j :: 0 <= j < i ==> primitives[j].name != name
  }

  /** Entry `e` of operation map `o` is the first of its name. */
  predicate FirstEntry(operations: seq<Operation>, o: nat, e: nat, name: string) {
    && o < |operations| && e < |operations[o]| && operations[o][e].0 == name
    && (forall j :: 0 <= j < e ==> operations[o][j].0 != name)
    && (forall i, j :: 0 <= i < o && 0 <= j < |operations[i]| ==> operations[i][j].0 != name)
  }

  lemma {:induction false} FindsFirstPrimitive(primitives: seq<PrimitiveAllow>, name: string) returns (i: nat)
    ensures FindPrimitive(primitives, name).Some? ==>
              FirstNamed(primitives, i, name) && FindPrimitive(primitives, name).value == primitives[i]
  {
    if primitives == [] || primitives[0].name == name {
      i := 0;
    } else {
      var k := FindsFirstPrimitive(primitives[1..], name);
      i := k + 1;
      assert forall j :: 0 < j < |primitives| ==> primitives[j] == primitives[1..][j - 1];
    }
  }

  lemma {:induction false} FindsFirstEntry(entries: Operation, name: string) returns (e: nat)
    ensures FindEntry(entries, name).Some? ==>
              e < |entries| && entries[e].0 == name && FindEntry(entries, name).value == entries[e].1
              && forall j :: 0 <= j < e ==> entries[j].0 != name
  {
    if entries == [] || entries[0].0 == name {
      e := 0;
    } else {
      var k := FindsFirstEntry(entries[1..], name);
      e := k + 1;
      assert forall j :: 0 < j < |entries| ==> entries[j] == entries[1..][j - 1];
    }
  }

  lemma {:induction false} FindsFirstOperation(operations: seq<Operation>, name: string) returns (o: nat, e: nat)
    ensures FindOperation(operations, name).Some? ==>
              FirstEntry(operations, o, e, name) && FindOperation(operations, name).value == operations[o][e].1
  {
    o, e := 0, 0;
    if operations != [] {
      if FindEntry(operations[0], name).Some? {
        e := FindsFirstEntry(operations[0], name);
      } else {
        var k, f := FindsFirstOperation(operations[1..], name);
        o, e := k + 1, f;
        assert forall i :: 0 < i < |operations| ==> operations[i] == operations[1..][i - 1];
        assert forall j :: 0 <= j < |operations[0]| ==> operations[0][j] in operations[0];
      }
    }
  }

  /** No two entries are both first. */
  lemma FirstPrimitiveIsFound(primitives: seq<PrimitiveAllow>, i: nat, name: string)
    requires FirstNamed(primitives, i, name)
    ensures FindPrimitive(primitives, name) == Some(primitives[i])
  {
    assert primitives[i] in primitives;
    var k := FindsFirstPrimitive(primitives, name);
    assert k == i;
  }

  lemma FirstEntryIsFound(operations: seq<Operation>, o: nat, e: nat, name: string)
    requires FirstEntry(operations, o, e, name)
    ensures FindOperation(operations, name) == Some(operations[o][e].1)
  {
    assert operations[o] in operations && operations[o][e] in operations[o];
    var p, f := FindsFirstOperation(operations, name);
    assert p == o && f == e;
  }

  // ---------------------------------------------------------------------
  // When a call is allowed
  // ---------------------------------------------------------------------

  /** The primitive's own arguments in the envelope. */
  function ArgsOf(envelope: Json): Json {
    match envelope
    case Object(members) => if "args" in members then members["args"] else Null
    case _ => Null
  }

  /** An operation lets a call with these arguments through. */
  ghost predicate Lets(w: Resolvers, primitive: string, operation: string, c: OperationConstraints, inner: Json) {
    !DenylistHit(c, inner) && AllowlistsSatisfied(w, primitive, operation, c, inner)
  }

  /** Some operation entry, the first of its name, lets the call through. */
  ghost predicate EntryLets(w: Resolvers, prim: PrimitiveAllow, primitive: string, operation: string, inner: Json) {
    exists o: nat, e: nat :: FirstEntry(prim.operations, o, e, operation)
                             && Lets(w, primitive, operation, prim.operations[o][e].1, inner)
  }

  ghost predicate PrimitiveLets(w: Resolvers, prim: PrimitiveAllow, primitive: string, operation: string, inner: Json) {
    if primitive == "kvendra.unsafe.raw_token" then prim.unsafeRawTokenAllowed
    else EntryLets(w, prim, primitive, operation, inner)
  }

  /**
   Exactly when the whole decision allows: the profile has not expired, and the
   first entry of the primitive's name allows the raw token, or has the
   operation, whose first entry neither a denylist nor an allow-list stops.
   */
  lemma CheckAllowsExactly(w: Resolvers, spec: ProfileSpec, primitive: string, operation: string, envelope: Json)
    ensures Check(w, spec, primitive, operation, envelope).Allow? <==>
            && !w.expired(spec.expiration)
            && exists i: nat :: FirstNamed(spec.primitives, i, primitive)
                                && PrimitiveLets(w, spec.primitives[i], primitive, operation, ArgsOf(envelope))
  {
    hide CheckArgs, Lets, FirstEntry;
    var primitives := spec.primitives;
    assert InnerArgs(envelope) == ArgsOf(envelope);
    if FindPrimitive(primitives, primitive).Some? {
      var i := FindsFirstPrimitive(primitives, primitive);
      EntryLetsExactly(w, primitives[i], primitive, operation, ArgsOf(envelope));
      forall k: nat | FirstNamed(primitives, k, primitive)
        ensures primitives[k] == primitives[i]
      {
        FirstPrimitiveIsFound(primitives, k, primitive);
      }
    } else {
      forall k: nat
        ensures !FirstNamed(primitives, k, primitive)
      {
        if FirstNamed(primitives, k, primitive) {
          FirstPrimitiveIsFound(primitives, k, primitive);
        }
      }
    }
  }

  lemma EntryLetsExactly(w: Resolvers, prim: PrimitiveAllow, primitive: string, operation: string, inner: Json)
    ensures EntryLets(w, prim, primitive, operation, inner) <==>
            var c := FindOperation(prim.operations, operation);
            c.Some? && CheckArgs(w, primitive, operation, c.value, inner).Allow?
  {
    hide CheckArgs, DenylistHit, AllowlistsSatisfied;
    var c := FindOperation(prim.operations, operation);
    if c.Some? {
      VerdictIsConjunction(w, primitive, operation, c.value, inner);
      var o, e := FindsFirstOperation(prim.operations, operation);
    }
    forall o: nat, e: nat | FirstEntry(prim.operations, o, e, operation)
      ensures c == Some(prim.operations[o][e].1)
    {
      FirstEntryIsFound(prim.operations, o, e, operation);
    }
  }

  /** The refusals before any constraint is read, each with its cause; expiry comes first. */
  lemma CheckRefusals(w: Resolvers, spec: ProfileSpec, primitive: string, operation: string, envelope: Json)
    ensures var v := Check(w, spec, primitive, operation, envelope);
            && (w.expired(spec.expiration) ==> v == Deny(ProfileExpired))
            && (!w.expired(spec.expiration) && (forall p :: p in spec.primitives ==> p.name != primitive)
                ==> v == Deny(PrimitiveNotAllowed))
    ensures forall i: nat :: !w.expired(spec.expiration) && FirstNamed(spec.primitives, i, primitive) ==>
              var v, prim := Check(w, spec, primitive, operation, envelope), spec.primitives[i];
              && (primitive == "kvendra.unsafe.raw_token" ==>
                    v == if prim.unsafeRawTokenAllowed then Allow else Deny(UnsafeNotEnabled))
              && (primitive != "kvendra.unsafe.raw_token"
                  && (forall o, e :: o in prim.operations && e in o ==> e.0 != operation)
                  ==> v == Deny(OperationNotAllowed))
  {
    hide CheckArgs;
    forall i: nat | FirstNamed(spec.primitives, i, primitive)
      ensures FindPrimitive(spec.primitives, primitive) == Some(spec.primitives[i])
    {
      FirstPrimitiveIsFound(spec.primitives, i, primitive);
    }
  }

  // ---------------------------------------------------------------------
  // Which refusal
  // ---------------------------------------------------------------------

  /** The checks on the arguments in the order they run, denylists first. */
  ghost predicate Passes(
      w: Resolvers, primitive: string, operation: string, c: OperationConstraints, inner: Json, stage: nat) {
    match stage
    case 0 => !DenylistHit(c, inner)
    case 1 => UrlPermitted(w, c, inner)
    case 2 => MethodPermitted(c, inner)
    case 3 => BucketsPermitted(c, inner)
    case 4 => LocalsPermitted(w, primitive, operation, c, inner)
    case 5 => FieldPermitted(c.distributions, inner, "distribution_id")
    case 6 => FieldPermitted(c.functions, inner, "function_name")
    case 7 => BinaryPermitted(c, inner)
    case 8 => PackagePermitted(w, primitive, operation, c, inner)
    case 9 => FieldPermitted(c.projects, inner, "project")
    case 10 => FieldPermitted(c.refs, inner, "ref")
    case 11 => TagPermitted(w, c, inner)
    case 12 => FieldsPermitted(c, inner)
    case 13 => TargetPermitted(w, primitive, operation, c, inner)
    case 14 => CwdPermitted(w, c, inner)
    case 15 => ArgvPermitted(c, inner)
    case 16 => EnvPermitted(c, inner)
    case _ => true
  }

  /** The check each refusal comes from. */
  function StageOf(why: Denial): nat {
    match why
    case ForbiddenArg => 0
    case ForbiddenMethod => 0
    case ForbiddenField => 0
    case ForbiddenEnvExport => 0
    case UrlNotAllowed => 1
    case MethodNotAllowed => 2
    case BucketNotAllowed => 3
    case LocalOperandUndetermined => 4
    case NoLocalRoots => 4
    case LocalRootRefused => 4
    case OutsideLocalRoots => 4
    case DistributionNotAllowed => 5
    case FunctionNotAllowed => 6
    case BinaryMissing => 7
    case BinaryNotAllowed => 7
    case PackageUndetermined => 8
    case PackageNotAllowed => 8
    case ProjectNotAllowed => 9
    case RefNotAllowed => 10
    case TagMissing => 11
    case TagNotAllowed => 11
    case FieldNotAllowed => 12
    case TargetRefused => 13
    case TargetUndetermined => 13
    case OwnerUndetermined => 13
    case OrgNotAllowed => 13
    case RepoNotAllowed => 13
    case CwdNotAllowed => 14
    case ArgvNotAllowed => 15
    case EnvVarNotAllowed => 16
    case _ => 17
  }

  /** What a refusal says of the call, where its check has more than one. */
  ghost predicate Explains(
      w: Resolvers, primitive: string, operation: string, c: OperationConstraints, inner: Json, why: Denial) {
    var roots, broad := Roots(c), IsSet(c.acceptBroadScope);
    var paths := LocalPaths(primitive, inner, LocalFields(primitive, operation));
    match why
    case ForbiddenArg => ArgHit(c, inner)
    case ForbiddenMethod => MethodHit(c, inner) && !ArgHit(c, inner)
    case ForbiddenField => FieldHit(c, inner) && !ArgHit(c, inner) && !MethodHit(c, inner)
    case ForbiddenEnvExport => EnvHit(c, inner) && !ArgHit(c, inner) && !MethodHit(c, inner) && !FieldHit(c, inner)
    case LocalOperandUndetermined => paths.None?
    case NoLocalRoots => paths.Some? && roots == []
    case LocalRootRefused => roots != [] && !Usable(w.files, roots, broad)
    case OutsideLocalRoots =>
      Usable(w.files, roots, broad) && paths.Some?
      && exists p :: p in paths.value && forall root :: root in roots ==> !Inside(w.files, p, root)
    case BinaryMissing => GetString(inner, "binary").None?
    case BinaryNotAllowed => GetString(inner, "binary").Some?
    case PackageUndetermined => PackageName(w, primitive, operation, inner).None?
    case PackageNotAllowed => PackageName(w, primitive, operation, inner).Some?
    case TagMissing => GetString(inner, "name").None?
    case TagNotAllowed => GetString(inner, "name").Some?
    case TargetRefused => ResolveTarget(w, primitive, operation, inner).Refused?
    case TargetUndetermined => ResolveTarget(w, primitive, operation, inner).Unknown?
    case OwnerUndetermined =>
      var target := ResolveTarget(w, primitive, operation, inner);
      c.org.Some? && target.Resolved? && OwnerOf(target.repo).None?
    case OrgNotAllowed =>
      var target := ResolveTarget(w, primitive, operation, inner);
      c.org.Some? && target.Resolved? && OwnerOf(target.repo).Some? && !AnyGlob(c.org.value, OwnerOf(target.repo).value)
    case RepoNotAllowed =>
      var target := ResolveTarget(w, primitive, operation, inner);
      && target.Resolved? && !AnyRepoPattern(c.repos, target.repo) && !AnyRepoPattern(c.repo, target.repo)
      && (c.org.Some? ==> OwnerOf(target.repo).Some? && AnyGlob(c.org.value, OwnerOf(target.repo).value))
    case _ => true
  }

  lemma {:induction false} PathsRefusal(w: Resolvers, roots: seq<string>, broad: bool, paths: seq<string>)
    ensures var v := CheckPaths(w, roots, broad, paths);
            v.Deny? ==>
              match v.why
              case NoLocalRoots => roots == []
              case LocalRootRefused => roots != [] && !Usable(w.files, roots, broad)
              case OutsideLocalRoots =>
                Usable(w.files, roots, broad)
                && exists p :: p in paths && forall root :: root in roots ==> !Inside(w.files, p, root)
              case _ => false
  {
    if paths != [] {
      hide Usable, Inside;
      PathsRefusal(w, roots, broad, paths[1..]);
      assert forall p :: p in paths[1..] ==> p in paths;
      if roots != [] && WithinRoots(w.files, paths[0], roots, broad) == Some(false) {
        assert paths[0] in paths && forall root :: root in roots ==> !Inside(w.files, paths[0], root);
      }
    }
  }

  /** A check refuses with a reason of its own stage that explains the refusal. */
  ghost predicate Accounts(
      w: Resolvers, primitive: string, operation: string, c: OperationConstraints, inner: Json,
      stage: nat, v: Verdict) {
    v.Deny? ==> StageOf(v.why) == stage && Explains(w, primitive, operation, c, inner, v.why)
  }

  lemma DenylistsAccount(
      w: Resolvers, primitive: string, operation: string, c: OperationConstraints, inner: Json)
    ensures Accounts(w, primitive, operation, c, inner, 0, CheckDenylists(c, inner))
  {
    hide GetArray, GetString, GetObject, AnyIgnoringCase, LocalPaths;
    if c.forbiddenArgs.Some? && GetArray(inner, "argv").Some? {
      ForbiddenArgsMeaning(c.forbiddenArgs.value, GetArray(inner, "argv").value);
    }
    if c.forbiddenFields.Some? && inner.Object? {
      ForbiddenFieldsMeaning(c.forbiddenFields.value, inner.members);
    }
  }

  lemma LocalsAccount(
      w: Resolvers, primitive: string, operation: string, c: OperationConstraints, inner: Json)
    ensures Accounts(w, primitive, operation, c, inner, 4, CheckLocals(w, primitive, operation, c, inner))
  {
    hide LocalFields, WithinRoots, Usable, Inside;
    var paths := LocalPaths(primitive, inner, LocalFields(primitive, operation));
    hide LocalPaths;
    if paths.Some? {
      PathsRefusal(w, Roots(c), IsSet(c.acceptBroadScope), paths.value);
    }
  }

  /** The refusals of checks that have only one. */
  predicate SelfExplaining(why: Denial) {
    || why.UrlNotAllowed? || why.MethodNotAllowed? || why.BucketNotAllowed? || why.DistributionNotAllowed?
    || why.FunctionNotAllowed? || why.ProjectNotAllowed? || why.RefNotAllowed? || why.FieldNotAllowed?
    || why.CwdNotAllowed? || why.ArgvNotAllowed? || why.EnvVarNotAllowed?
  }

  lemma OneReason(
      w: Resolvers, primitive: string, operation: string, c: OperationConstraints, inner: Json, stage: nat, v: Verdict)
    requires v.Deny? ==> StageOf(v.why) == stage && SelfExplaining(v.why)
    ensures Accounts(w, primitive, operation, c, inner, stage, v)
  {
    hide LocalPaths;
  }

  lemma PlainReasons(w: Resolvers, c: OperationConstraints, inner: Json)
    ensures CheckUrl(w, c, inner) in {Allow, Deny(UrlNotAllowed)}
    ensures CheckMethod(c, inner) in {Allow, Deny(MethodNotAllowed)}
    ensures CheckBuckets(c, inner) in {Allow, Deny(BucketNotAllowed)}
    ensures CheckFieldsAllowed(c, inner) in {Allow, Deny(FieldNotAllowed)}
    ensures CheckCwd(w, c, inner) in {Allow, Deny(CwdNotAllowed)}
    ensures CheckArgv(c, inner) in {Allow, Deny(ArgvNotAllowed)}
    ensures CheckEnv(c, inner) in {Allow, Deny(EnvVarNotAllowed)}
    ensures forall allowed, key, why :: CheckField(allowed, inner, key, why) in {Allow, Deny(why)}
  {
    hide GetArray, GetString, GetObject, AnyGlob, AnyIgnoringCase, ClassifyS3Operand, ArgvMatchesTemplate, Strings;
  }

  lemma ReadersAccount(w: Resolvers, primitive: string, operation: string, c: OperationConstraints, inner: Json)
    ensures Accounts(w, primitive, operation, c, inner, 7, CheckBinary(c, inner))
    ensures Accounts(w, primitive, operation, c, inner, 8, CheckPackage(w, primitive, operation, c, inner))
    ensures Accounts(w, primitive, operation, c, inner, 11, CheckTag(w, c, inner))
  {
    hide GetString, AnyGlob, LocalPaths, PackageName, ResolveTarget;
  }

  lemma TargetAccounts(w: Resolvers, primitive: string, operation: string, c: OperationConstraints, inner: Json)
    ensures Accounts(w, primitive, operation, c, inner, 13, CheckTarget(w, primitive, operation, c, inner))
  {
    hide GetString, AnyGlob, LocalPaths, PackageName, ResolveTarget, OwnerOf, AnyRepoPattern;
  }

  /** The verdict of the check at one stage. */
  function VerdictAt(
      w: Resolvers, primitive: string, operation: string, c: OperationConstraints, inner: Json, stage: nat): Verdict {
    match stage
    case 0 => CheckDenylists(c, inner)
    case 1 => CheckUrl(w, c, inner)
    case 2 => CheckMethod(c, inner)
    case 3 => CheckBuckets(c, inner)
    case 4 => CheckLocals(w, primitive, operation, c, inner)
    case 5 => CheckField(c.distributions, inner, "distribution_id", DistributionNotAllowed)
    case 6 => CheckField(c.functions, inner, "function_name", FunctionNotAllowed)
    case 7 => CheckBinary(c, inner)
    case 8 => CheckPackage(w, primitive, operation, c, inner)
    case 9 => CheckField(c.projects, inner, "project", ProjectNotAllowed)
    case 10 => CheckField(c.refs, inner, "ref", RefNotAllowed)
    case 11 => CheckTag(w, c, inner)
    case 12 => CheckFieldsAllowed(c, inner)
    case 13 => CheckTarget(w, primitive, operation, c, inner)
    case 14 => CheckCwd(w, c, inner)
    case 15 => CheckArgv(c, inner)
    case 16 => CheckEnv(c, inner)
    case _ => Allow
  }

  lemma CheckArgsIsFirst(w: Resolvers, primitive: string, operation: string, c: OperationConstraints, inner: Json)
    returns (k: nat)
    ensures var v := CheckArgs(w, primitive, operation, c, inner);
            v.Deny? ==> k < 17 && VerdictAt(w, primitive, operation, c, inner, k) == v
                        && forall j :: 0 <= j < k ==> VerdictAt(w, primitive, operation, c, inner, j).Allow?
  {
    hide CheckDenylists, CheckUrl, CheckMethod, CheckBuckets, CheckLocals, CheckField, CheckBinary, CheckPackage,
         CheckTag, CheckFieldsAllowed, CheckTarget, CheckCwd, CheckArgv, CheckEnv;
    k := 0;
    while k < 17 && VerdictAt(w, primitive, operation, c, inner, k).Allow?
      invariant k <= 17 && forall j :: 0 <= j < k ==> VerdictAt(w, primitive, operation, c, inner, j).Allow?
    {
      k := k + 1;
    }
    ArgsFollowStages(w, primitive, operation, c, inner, k);
  }

  /** All checks before stage `k` passed: the verdict is that of stage `k`. */
  lemma ArgsFollowStages(
      w: Resolvers, primitive: string, operation: string, c: OperationConstraints, inner: Json, k: nat)
    requires k <= 17 && forall j :: 0 <= j < k ==> VerdictAt(w, primitive, operation, c, inner, j).Allow?
    requires k < 17 ==> VerdictAt(w, primitive, operation, c, inner, k).Deny?
    ensures CheckArgs(w, primitive, operation, c, inner) == VerdictAt(w, primitive, operation, c, inner, k)
  {
    hide CheckDenylists, CheckUrl, CheckMethod, CheckBuckets, CheckLocals, CheckField, CheckBinary, CheckPackage,
         CheckTag, CheckFieldsAllowed, CheckTarget, CheckCwd, CheckArgv, CheckEnv;
    assert VerdictAt(w, primitive, operation, c, inner, 0) == CheckDenylists(c, inner);
    assert VerdictAt(w, primitive, operation, c, inner, 1) == CheckUrl(w, c, inner);
    assert VerdictAt(w, primitive, operation, c, inner, 2) == CheckMethod(c, inner);
    assert VerdictAt(w, primitive, operation, c, inner, 3) == CheckBuckets(c, inner);
    assert VerdictAt(w, primitive, operation, c, inner, 4) == CheckLocals(w, primitive, operation, c, inner);
    assert VerdictAt(w, primitive, operation, c, inner, 5)
        == CheckField(c.distributions, inner, "distribution_id", DistributionNotAllowed);
    assert VerdictAt(w, primitive, operation, c, inner, 6)
        == CheckField(c.functions, inner, "function_name", FunctionNotAllowed);
    assert VerdictAt(w, primitive, operation, c, inner, 7) == CheckBinary(c, inner);
    assert VerdictAt(w, primitive, operation, c, inner, 8) == CheckPackage(w, primitive, operation, c, inner);
    assert VerdictAt(w, primitive, operation, c, inner, 9)
        == CheckField(c.projects, inner, "project", ProjectNotAllowed);
    assert VerdictAt(w, primitive, operation, c, inner, 10) == CheckField(c.refs, inner, "ref", RefNotAllowed);
    assert VerdictAt(w, primitive, operation, c, inner, 11) == CheckTag(w, c, inner);
    assert VerdictAt(w, primitive, operation, c, inner, 12) == CheckFieldsAllowed(c, inner);
    assert VerdictAt(w, primitive, operation, c, inner, 13) == CheckTarget(w, primitive, operation, c, inner);
    assert VerdictAt(w, primitive, operation, c, inner, 14) == CheckCwd(w, c, inner);
    assert VerdictAt(w, primitive, operation, c, inner, 15) == CheckArgv(c, inner);
    assert VerdictAt(w, primitive, operation, c, inner, 16) == CheckEnv(c, inner);
  }

  lemma VerdictPasses(
      w: Resolvers, primitive: string, operation: string, c: OperationConstraints, inner: Json, k: nat)
    requires k < 17
    ensures var v := VerdictAt(w, primitive, operation, c, inner, k);
            && (v.Allow? <==> Passes(w, primitive, operation, c, inner, k))
            && Accounts(w, primitive, operation, c, inner, k, v)
  {
    hide CheckDenylists, DenylistHit, CheckUrl, UrlPermitted, CheckMethod, MethodPermitted,
         CheckBuckets, BucketsPermitted, CheckLocals, LocalsPermitted, CheckField, FieldPermitted,
         CheckBinary, BinaryPermitted, CheckPackage, PackagePermitted, CheckTag, TagPermitted,
         CheckFieldsAllowed, FieldsPermitted, CheckTarget, TargetPermitted, CheckCwd, CwdPermitted,
         CheckArgv, ArgvPermitted, CheckEnv, EnvPermitted, Accounts, SelfExplaining;
    var v := VerdictAt(w, primitive, operation, c, inner, k);
    if k in {0, 4} {
      DenylistsAccount(w, primitive, operation, c, inner);
      LocalsAccount(w, primitive, operation, c, inner);
      DenylistsMeaning(c, inner);
      LocalsMeaning(w, primitive, operation, c, inner);
    } else if k in {7, 8, 11, 13} {
      ReadersAccount(w, primitive, operation, c, inner);
      TargetAccounts(w, primitive, operation, c, inner);
      SimpleChecksMeaning(w, primitive, operation, c, inner);
      TargetMeaning(w, primitive, operation, c, inner);
    } else if k in {5, 6, 9, 10} {
      FieldVerdict(w, primitive, operation, c, inner, k);
    } else {
      PlainVerdict(w, primitive, operation, c, inner, k);
    }
  }

  lemma PlainVerdict(
      w: Resolvers, primitive: string, operation: string, c: OperationConstraints, inner: Json, k: nat)
    requires k in {1, 2, 3, 12, 14, 15, 16}
    ensures var v := VerdictAt(w, primitive, operation, c, inner, k);
            && (v.Allow? <==> Passes(w, primitive, operation, c, inner, k))
            && Accounts(w, primitive, operation, c, inner, k, v)
  {
    hide CheckDenylists, DenylistHit, CheckUrl, UrlPermitted, CheckMethod, MethodPermitted,
         CheckBuckets, BucketsPermitted, CheckLocals, LocalsPermitted, CheckField, FieldPermitted,
         CheckBinary, BinaryPermitted, CheckPackage, PackagePermitted, CheckTag, TagPermitted,
         CheckFieldsAllowed, FieldsPermitted, CheckTarget, TargetPermitted, CheckCwd, CwdPermitted,
         CheckArgv, ArgvPermitted, CheckEnv, EnvPermitted, Accounts;
    PlainReasons(w, c, inner);
    OneReason(w, primitive, operation, c, inner, k, VerdictAt(w, primitive, operation, c, inner, k));
    BucketsMeaning(c, inner);
    SimpleChecksMeaning(w, primitive, operation, c, inner);
  }

  lemma FieldVerdict(
      w: Resolvers, primitive: string, operation: string, c: OperationConstraints, inner: Json, k: nat)
    requires k in {5, 6, 9, 10}
    ensures var v := VerdictAt(w, primitive, operation, c, inner, k);
            && (v.Allow? <==> Passes(w, primitive, operation, c, inner, k))
            && Accounts(w, primitive, operation, c, inner, k, v)
  {
    hide CheckDenylists, DenylistHit, CheckUrl, UrlPermitted, CheckMethod, MethodPermitted,
         CheckBuckets, BucketsPermitted, CheckLocals, LocalsPermitted, CheckField, FieldPermitted,
         CheckBinary, BinaryPermitted, CheckPackage, PackagePermitted, CheckTag, TagPermitted,
         CheckFieldsAllowed, FieldsPermitted, CheckTarget, TargetPermitted, CheckCwd, CwdPermitted,
         CheckArgv, ArgvPermitted, CheckEnv, EnvPermitted, Accounts;
    FieldAccounts(w, primitive, operation, c, inner, 5, c.distributions, "distribution_id", DistributionNotAllowed);
    FieldAccounts(w, primitive, operation, c, inner, 6, c.functions, "function_name", FunctionNotAllowed);
    FieldAccounts(w, primitive, operation, c, inner, 9, c.projects, "project", ProjectNotAllowed);
    FieldAccounts(w, primitive, operation, c, inner, 10, c.refs, "ref", RefNotAllowed);
  }

  lemma FieldAccounts(
      w: Resolvers, primitive: string, operation: string, c: OperationConstraints, inner: Json,
      stage: nat, allowed: Option<seq<string>>, key: string, why: Denial)
    requires StageOf(why) == stage && SelfExplaining(why)
    ensures CheckField(allowed, inner, key, why).Allow? <==> FieldPermitted(allowed, inner, key)
    ensures Accounts(w, primitive, operation, c, inner, stage, CheckField(allowed, inner, key, why))
  {
    hide Accounts, CheckField, FieldPermitted;
    PlainReasons(w, c, inner);
    OneReason(w, primitive, operation, c, inner, stage, CheckField(allowed, inner, key, why));
    FieldMeaning(allowed, inner, key, why);
  }

  /**
   A refusal names the first check that fails, in the documented order
   (denylists, then the allow-lists), and its wording is true of the call.
   */
  lemma RefusalIsFirstFault(w: Resolvers, primitive: string, operation: string, c: OperationConstraints, inner: Json)
    ensures var v := CheckArgs(w, primitive, operation, c, inner);
            v.Deny? ==>
              && StageOf(v.why) <= 16
              && !Passes(w, primitive, operation, c, inner, StageOf(v.why))
              && (forall k :: 0 <= k < StageOf(v.why) ==> Passes(w, primitive, operation, c, inner, k))
              && Explains(w, primitive, operation, c, inner, v.why)
  {
    hide CheckArgs, Passes, Explains, StageOf, VerdictAt;
    var stage := CheckArgsIsFirst(w, primitive, operation, c, inner);
    forall k | 0 <= k < 17
      ensures VerdictAt(w, primitive, operation, c, inner, k).Allow? <==> Passes(w, primitive, operation, c, inner, k)
      ensures Accounts(w, primitive, operation, c, inner, k, VerdictAt(w, primitive, operation, c, inner, k))
    {
      VerdictPasses(w, primitive, operation, c, inner, k);
    }
  }
}
