/** The runtime allowlist decision (src/allowlist/enforcer.rs, `check` and `check_args`). */
module Enforcer {
  import opened Wrappers
  import opened StringSearch
  import opened Glob
  import opened RepoCanonical
  import opened AllowlistDsl
  import opened LocalOperand

  datatype GithubTarget = Found(owner: string, name: string) | Invalid | Missing

  /** Everything the decision asks of the outside: regex engine, git, files, clock. */
  datatype Resolvers = Resolvers(
    urlRegex: (string, string) -> bool,
    fullRegex: (string, string) -> bool,
    gitRemoteUrl: (string, string) -> Option<string>,
    npmPackageName: string -> Option<string>,
    githubTarget: (string, Json) -> GithubTarget,
    files: FileSystem,
    expired: Option<string> -> bool)

  datatype Denial =
    | ProfileExpired | PrimitiveNotAllowed | UnsafeNotEnabled | OperationNotAllowed
    | ForbiddenArg | ForbiddenMethod | ForbiddenField | ForbiddenEnvExport
    | UrlNotAllowed | MethodNotAllowed | BucketNotAllowed
    | LocalOperandUndetermined | NoLocalRoots | LocalRootRefused | OutsideLocalRoots
    | DistributionNotAllowed | FunctionNotAllowed | BinaryMissing | BinaryNotAllowed
    | PackageUndetermined | PackageNotAllowed | ProjectNotAllowed | RefNotAllowed
    | TagMissing | TagNotAllowed | FieldNotAllowed
    | TargetRefused | TargetUndetermined | OwnerUndetermined | OrgNotAllowed | RepoNotAllowed
    | CwdNotAllowed | ArgvNotAllowed | EnvVarNotAllowed

  datatype Verdict = Allow | Deny(why: Denial) {
    predicate IsFailure() {
      Deny?
    }

    function PropagateFailure(): Verdict
      requires Deny?
    {
      this
    }
  }

  function Unless(bad: bool, why: Denial): Verdict {
    if bad then Deny(why) else Allow
  }

  // ---------------------------------------------------------------------
  // Helpers
  // ---------------------------------------------------------------------

  predicate AnyGlob(patterns: seq<string>, candidate: string) {
    exists p :: p in patterns && GlobMatches(p, candidate)
  }

  predicate AnyIgnoringCase(names: seq<string>, name: string) {
    exists n :: n in names && EqualIgnoringCase(n, name)
  }

  /** One token of an argv template. */
  predicate TokenMatches(token: string, arg: string) {
    if token == "*" then true
    else if |token| >= 2 && token[|token| - 2..] == "/*" then
      var prefix := token[..|token| - 2];
      prefix <= arg && |arg| > |prefix|
    else token == arg
  }

  predicate ArgvMatchesTemplate(argv: seq<string>, template: seq<string>) {
    |argv| == |template| && forall i :: 0 <= i < |argv| ==> TokenMatches(template[i], argv[i])
  }

  predicate LooksLikeGitUrl(s: string) {
    FindScheme(s).Some? || "git@" <= s || ('@' in s && ':' in s)
  }

  /** `get(first).or_else(get(second))`, read as a string. */
  function EitherString(inner: Json, first: string, second: string): Option<string> {
    if Get(inner, first).Some? then GetString(inner, first) else GetString(inner, second)
  }

  function Canonicalized(s: Option<string>): Option<string> {
    match s
    case None => None
    case Some(text) => Some(ExtractRepoCanonical(text))
  }

  function GitTargetRepo(w: Resolvers, inner: Json, operation: string): Option<string> {
    if operation == "clone" then Canonicalized(EitherString(inner, "url", "repo"))
    else
      var remote := match GetString(inner, "remote") case Some(r) => r case None => "origin";
      if LooksLikeGitUrl(remote) then Some(ExtractRepoCanonical(remote))
      else
        match GetString(inner, "cwd")
        case None => None
        case Some(cwd) => Canonicalized(w.gitRemoteUrl(cwd, remote))
  }

  datatype Target = Resolved(repo: string) | Refused | Unknown

  /** The repository a call acts on, resolved the way the primitive itself resolves it. */
  function ResolveTarget(w: Resolvers, primitive: string, operation: string, inner: Json): Target {
    if primitive == "kvendra.github" then
      match w.githubTarget(operation, inner)
      case Found(owner, name) => Resolved("github.com/" + owner + "/" + name)
      case Invalid => Refused
      case Missing => Unknown
    else
      var found := if primitive == "kvendra.git" then GitTargetRepo(w, inner, operation)
                   else Canonicalized(EitherString(inner, "repo", "url"));
      match found
      case Some(repo) => Resolved(NormalizeRepoHost(repo))
      case None => Unknown
  }

  /** The owner half of `host/owner/name`. */
  function OwnerOf(repo: string): Option<string> {
    var parts := Segments(repo);
    if |parts| >= 2 then Some(parts[1]) else None
  }

  predicate AnyRepoPattern(patterns: Option<seq<string>>, repo: string) {
    patterns.Some? && exists p :: p in patterns.value && GlobMatches(NormalizeRepoHost(p), repo)
  }

  // ---------------------------------------------------------------------
  // The checks, in the order they run
  // ---------------------------------------------------------------------

  /** The loop over argv: the first text that is forbidden. */
  function CheckForbiddenArgs(forbidden: seq<string>, argv: seq<Json>): Verdict {
    if argv == [] then Allow
    else if argv[0].Str? && argv[0].text in forbidden then Deny(ForbiddenArg)
    else CheckForbiddenArgs(forbidden, argv[1..])
  }

  /** The loop over the declared fields: the first one the call has. */
  function CheckForbiddenFields(forbidden: seq<string>, members: map<string, Json>): Verdict {
    if forbidden == [] then Allow
    else if forbidden[0] in members then Deny(ForbiddenField)
    else CheckForbiddenFields(forbidden[1..], members)
  }

  function CheckDenylists(c: OperationConstraints, inner: Json): Verdict {
    var argv, method_, env := GetArray(inner, "argv"), GetString(inner, "method"), GetObject(inner, "env");
    :- if c.forbiddenArgs.Some? && argv.Some? then CheckForbiddenArgs(c.forbiddenArgs.value, argv.value) else Allow;
    :- Unless(c.forbiddenMethods.Some? && method_.Some? && AnyIgnoringCase(c.forbiddenMethods.value, method_.value),
              ForbiddenMethod);
    :- if c.forbiddenFields.Some? && inner.Object? then CheckForbiddenFields(c.forbiddenFields.value, inner.members)
       else Allow;
    Unless(c.forbiddenEnvExport.Some? && env.Some? && exists k :: k in env.value && k in c.forbiddenEnvExport.value,
           ForbiddenEnvExport)
  }

  function CheckUrl(w: Resolvers, c: OperationConstraints, inner: Json): Verdict {
    match GetString(inner, "url")
    case None => Allow
    case Some(url) =>
      if c.urlPatternRegex.None? && c.endpoints.None? then Allow
      else
        var regexOk := c.urlPatternRegex.Some? && exists p :: p in c.urlPatternRegex.value && w.urlRegex(p, url);
        var endpointOk := c.endpoints.Some? && url in c.endpoints.value;
        Unless(!regexOk && !endpointOk, UrlNotAllowed)
  }

  function CheckOperandBucket(buckets: seq<string>, inner: Json, key: string): Verdict {
    match GetString(inner, key)
    case None => Allow
    case Some(candidate) =>
      match ClassifyS3Operand(candidate)
      case Remote(bucket) => Unless(!AnyGlob(buckets, bucket), BucketNotAllowed)
      case _ => Allow
  }

  function CheckBuckets(c: OperationConstraints, inner: Json): Verdict {
    if c.buckets.None? then Allow
    else
      var bare := GetString(inner, "bucket");
      :- Unless(bare.Some? && !AnyGlob(c.buckets.value, bare.value), BucketNotAllowed);
      :- CheckOperandBucket(c.buckets.value, inner, "src");
      CheckOperandBucket(c.buckets.value, inner, "dst")
  }

  /** The loop over the local operands. */
  function CheckPaths(w: Resolvers, roots: seq<string>, broad: bool, paths: seq<string>): Verdict {
    if paths == [] then Allow
    else if roots == [] then Deny(NoLocalRoots)
    else
      match WithinRoots(w.files, paths[0], roots, broad)
      case None => Deny(LocalRootRefused)
      case Some(inside) => if !inside then Deny(OutsideLocalRoots) else CheckPaths(w, roots, broad, paths[1..])
  }

  function Roots(c: OperationConstraints): seq<string> {
    match c.localRoots
    case Some(roots) => roots
    case None => []
  }

  function CheckLocals(
      w: Resolvers, primitive: string, operation: string, c: OperationConstraints, inner: Json): Verdict {
    match LocalPaths(primitive, inner, LocalFields(primitive, operation))
    case None => Deny(LocalOperandUndetermined)
    case Some(paths) => CheckPaths(w, Roots(c), IsSet(c.acceptBroadScope), paths)
  }

  /** A glob allow-list over one text field, skipped when the field is absent. */
  function CheckField(allowed: Option<seq<string>>, inner: Json, key: string, why: Denial): Verdict {
    var v := GetString(inner, key);
    Unless(allowed.Some? && v.Some? && !AnyGlob(allowed.value, v.value), why)
  }

  function CheckBinary(c: OperationConstraints, inner: Json): Verdict {
    if c.binaries.None? then Allow
    else
      match GetString(inner, "binary")
      case Some(bin) => Unless(bin !in c.binaries.value, BinaryNotAllowed)
      case None => Deny(BinaryMissing)
  }

  function PackageName(w: Resolvers, primitive: string, operation: string, inner: Json): Option<string> {
    if primitive == "kvendra.npm" && operation == "publish" then
      match GetString(inner, "cwd")
      case None => None
      case Some(cwd) => w.npmPackageName(cwd)
    else GetString(inner, "package")
  }

  function CheckPackage(
      w: Resolvers, primitive: string, operation: string, c: OperationConstraints, inner: Json): Verdict {
    if c.packages.None? then Allow
    else
      match PackageName(w, primitive, operation, inner)
      case Some(name) => Unless(!AnyGlob(c.packages.value, name), PackageNotAllowed)
      case None => Unless(primitive == "kvendra.npm" && operation == "publish", PackageUndetermined)
  }

  function CheckTag(w: Resolvers, c: OperationConstraints, inner: Json): Verdict {
    if c.tagPattern.None? then Allow
    else
      match GetString(inner, "name")
      case None => Deny(TagMissing)
      case Some(tag) => Unless(!exists p :: p in c.tagPattern.value && w.fullRegex(p, tag), TagNotAllowed)
  }

  function CheckFieldsAllowed(c: OperationConstraints, inner: Json): Verdict {
    Unless(c.fieldsAllowed.Some? && inner.Object? && exists k :: k in inner.members && k !in c.fieldsAllowed.value,
           FieldNotAllowed)
  }

  function CheckTarget(
      w: Resolvers, primitive: string, operation: string, c: OperationConstraints, inner: Json): Verdict {
    if c.org.None? && c.repos.None? && c.repo.None? then Allow
    else
      match ResolveTarget(w, primitive, operation, inner)
      case Refused => Deny(TargetRefused)
      case Unknown => Deny(TargetUndetermined)
      case Resolved(repo) =>
        :- (if c.org.None? then Allow
            else
              match OwnerOf(repo)
              case None => Deny(OwnerUndetermined)
              case Some(owner) => Unless(!AnyGlob(c.org.value, owner), OrgNotAllowed));
        Unless((c.repos.Some? || c.repo.Some?) && !AnyRepoPattern(c.repos, repo) && !AnyRepoPattern(c.repo, repo),
               RepoNotAllowed)
  }

  function CheckCwd(w: Resolvers, c: OperationConstraints, inner: Json): Verdict {
    var cwd := GetString(inner, "cwd");
    Unless(c.cwdPattern.Some? && cwd.Some? && !w.fullRegex(c.cwdPattern.value, cwd.value), CwdNotAllowed)
  }

  function CheckArgv(c: OperationConstraints, inner: Json): Verdict {
    var argv := GetArray(inner, "argv");
    Unless(c.argsConstraints.Some? && argv.Some?
           && !exists t :: t in c.argsConstraints.value && ArgvMatchesTemplate(Strings(argv.value), t),
           ArgvNotAllowed)
  }

  function CheckEnv(c: OperationConstraints, inner: Json): Verdict {
    var env := GetObject(inner, "env");
    Unless(c.envVarsToInject.Some? && env.Some? && exists k :: k in env.value && k !in c.envVarsToInject.value,
           EnvVarNotAllowed)
  }

  function InnerArgs(envelope: Json): Json {
    match Get(envelope, "args")
    case Some(inner) => inner
    case None => Null
  }

  function CheckMethod(c: OperationConstraints, inner: Json): Verdict {
    var m := GetString(inner, "method");
    Unless(c.methods.Some? && m.Some? && !AnyIgnoringCase(c.methods.value, m.value), MethodNotAllowed)
  }

  /** `check_args`: the checks in order, the first refusal wins. */
  function CheckArgs(
      w: Resolvers, primitive: string, operation: string, c: OperationConstraints, inner: Json): Verdict {
    var denylists := CheckDenylists(c, inner);
    :- denylists;
    :- CheckUrl(w, c, inner);
    :- CheckMethod(c, inner);
    :- CheckBuckets(c, inner);
    :- CheckLocals(w, primitive, operation, c, inner);
    :- CheckField(c.distributions, inner, "distribution_id", DistributionNotAllowed);
    :- CheckField(c.functions, inner, "function_name", FunctionNotAllowed);
    :- CheckBinary(c, inner);
    :- CheckPackage(w, primitive, operation, c, inner);
    :- CheckField(c.projects, inner, "project", ProjectNotAllowed);
    :- CheckField(c.refs, inner, "ref", RefNotAllowed);
    :- CheckTag(w, c, inner);
    :- CheckFieldsAllowed(c, inner);
    :- CheckTarget(w, primitive, operation, c, inner);
    :- CheckCwd(w, c, inner);
    :- CheckArgv(c, inner);
    CheckEnv(c, inner)
  }

  function OperationConstraintsOf(
      spec: ProfileSpec, primitive: string, operation: string): Option<OperationConstraints> {
    match FindPrimitive(spec.primitives, primitive)
    case None => None
    case Some(prim) => FindOperation(prim.operations, operation)
  }

  /** `check` */
  function Check(w: Resolvers, spec: ProfileSpec, primitive: string, operation: string, envelope: Json): Verdict {
    if w.expired(spec.expiration) then Deny(ProfileExpired)
    else
      match FindPrimitive(spec.primitives, primitive)
      case None => Deny(PrimitiveNotAllowed)
      case Some(prim) =>
        if primitive == RAW_TOKEN then Unless(!prim.unsafeRawTokenAllowed, UnsafeNotEnabled)
        else
          match FindOperation(prim.operations, operation)
          case None => Deny(OperationNotAllowed)
          case Some(c) => CheckArgs(w, primitive, operation, c, InnerArgs(envelope))
  }

  // ---------------------------------------------------------------------
  // What the checks mean together
  // ---------------------------------------------------------------------

  predicate ArgHit(c: OperationConstraints, inner: Json) {
    && c.forbiddenArgs.Some? && GetArray(inner, "argv").Some?
    && exists s :: s in c.forbiddenArgs.value && Str(s) in GetArray(inner, "argv").value
  }

  predicate MethodHit(c: OperationConstraints, inner: Json) {
    && c.forbiddenMethods.Some? && GetString(inner, "method").Some?
    && AnyIgnoringCase(c.forbiddenMethods.value, GetString(inner, "method").value)
  }

  predicate FieldHit(c: OperationConstraints, inner: Json) {
    c.forbiddenFields.Some? && inner.Object? && exists f :: f in c.forbiddenFields.value && f in inner.members
  }

  predicate EnvHit(c: OperationConstraints, inner: Json) {
    && c.forbiddenEnvExport.Some? && GetObject(inner, "env").Some?
    && exists k :: k in c.forbiddenEnvExport.value && k in GetObject(inner, "env").value
  }

  /** Is any denylist hit? */
  predicate DenylistHit(c: OperationConstraints, inner: Json) {
    ArgHit(c, inner) || MethodHit(c, inner) || FieldHit(c, inner) || EnvHit(c, inner)
  }

  predicate UrlPermitted(w: Resolvers, c: OperationConstraints, inner: Json) {
    GetString(inner, "url").Some? && (c.urlPatternRegex.Some? || c.endpoints.Some?) ==>
      || (c.urlPatternRegex.Some?
          && exists p :: p in c.urlPatternRegex.value && w.urlRegex(p, GetString(inner, "url").value))
      || (c.endpoints.Some? && GetString(inner, "url").value in c.endpoints.value)
  }

  /** Every bucket the call names, bare or in an `s3://` operand. */
  predicate NamesBucket(inner: Json, bucket: string) {
    || GetString(inner, "bucket") == Some(bucket)
    || exists key :: key in ["src", "dst"] && GetString(inner, key).Some?
                     && ClassifyS3Operand(GetString(inner, key).value) == Remote(bucket)
  }

  predicate LocalsPermitted(w: Resolvers, primitive: string, operation: string, c: OperationConstraints, inner: Json) {
    var paths := LocalPaths(primitive, inner, LocalFields(primitive, operation));
    && paths.Some?
    && forall p :: p in paths.value ==>
        Roots(c) != [] && WithinRoots(w.files, p, Roots(c), IsSet(c.acceptBroadScope)) == Some(true)
  }

  predicate FieldPermitted(allowed: Option<seq<string>>, inner: Json, key: string) {
    allowed.Some? && GetString(inner, key).Some? ==> AnyGlob(allowed.value, GetString(inner, key).value)
  }

  predicate TargetPermitted(w: Resolvers, primitive: string, operation: string, c: OperationConstraints, inner: Json) {
    c.org.Some? || c.repos.Some? || c.repo.Some? ==>
      var target := ResolveTarget(w, primitive, operation, inner);
      && target.Resolved?
      && (c.org.Some? ==> OwnerOf(target.repo).Some? && AnyGlob(c.org.value, OwnerOf(target.repo).value))
      && (c.repos.Some? || c.repo.Some? ==> AnyRepoPattern(c.repos, target.repo) || AnyRepoPattern(c.repo, target.repo))
  }

  predicate MethodPermitted(c: OperationConstraints, inner: Json) {
    c.methods.Some? && GetString(inner, "method").Some? ==>
        AnyIgnoringCase(c.methods.value, GetString(inner, "method").value)
  }

  ghost predicate BucketsPermitted(c: OperationConstraints, inner: Json) {
    c.buckets.Some? ==> forall b :: NamesBucket(inner, b) ==> AnyGlob(c.buckets.value, b)
  }

  predicate BinaryPermitted(c: OperationConstraints, inner: Json) {
    c.binaries.Some? ==> GetString(inner, "binary").Some? && GetString(inner, "binary").value in c.binaries.value
  }

  predicate PackagePermitted(w: Resolvers, primitive: string, operation: string, c: OperationConstraints, inner: Json) {
    c.packages.Some? ==>
      match PackageName(w, primitive, operation, inner)
      case Some(name) => AnyGlob(c.packages.value, name)
      case None => !(primitive == "kvendra.npm" && operation == "publish")
  }

  predicate TagPermitted(w: Resolvers, c: OperationConstraints, inner: Json) {
    c.tagPattern.Some? ==>
      && GetString(inner, "name").Some?
      && exists p :: p in c.tagPattern.value && w.fullRegex(p, GetString(inner, "name").value)
  }

  predicate FieldsPermitted(c: OperationConstraints, inner: Json) {
    c.fieldsAllowed.Some? && inner.Object? ==> forall k :: k in inner.members ==> k in c.fieldsAllowed.value
  }

  predicate CwdPermitted(w: Resolvers, c: OperationConstraints, inner: Json) {
    c.cwdPattern.Some? && GetString(inner, "cwd").Some? ==>
        w.fullRegex(c.cwdPattern.value, GetString(inner, "cwd").value)
  }

  predicate ArgvPermitted(c: OperationConstraints, inner: Json) {
    c.argsConstraints.Some? && GetArray(inner, "argv").Some? ==>
      exists t :: t in c.argsConstraints.value && ArgvMatchesTemplate(Strings(GetArray(inner, "argv").value), t)
  }

  predicate EnvPermitted(c: OperationConstraints, inner: Json) {
    c.envVarsToInject.Some? && GetObject(inner, "env").Some? ==>
      forall k :: k in GetObject(inner, "env").value ==> k in c.envVarsToInject.value
  }

  /** Every allow-list of the operation is satisfied. */
  ghost predicate AllowlistsSatisfied(
      w: Resolvers, primitive: string, operation: string, c: OperationConstraints, inner: Json) {
    && UrlPermitted(w, c, inner)
    && MethodPermitted(c, inner)
    && BucketsPermitted(c, inner)
    && LocalsPermitted(w, primitive, operation, c, inner)
    && FieldPermitted(c.distributions, inner, "distribution_id")
    && FieldPermitted(c.functions, inner, "function_name")
    && BinaryPermitted(c, inner)
    && PackagePermitted(w, primitive, operation, c, inner)
    && FieldPermitted(c.projects, inner, "project")
    && FieldPermitted(c.refs, inner, "ref")
    && TagPermitted(w, c, inner)
    && FieldsPermitted(c, inner)
    && TargetPermitted(w, primitive, operation, c, inner)
    && CwdPermitted(w, c, inner)
    && ArgvPermitted(c, inner)
    && EnvPermitted(c, inner)
  }

  lemma {:induction false} ForbiddenArgsMeaning(forbidden: seq<string>, argv: seq<Json>)
    ensures CheckForbiddenArgs(forbidden, argv) ==
            if exists s :: s in forbidden && Str(s) in argv then Deny(ForbiddenArg) else Allow
  {
    if argv != [] {
      ForbiddenArgsMeaning(forbidden, argv[1..]);
      assert argv == [argv[0]] + argv[1..];
      if argv[0].Str? && argv[0].text in forbidden {
        assert Str(argv[0].text) in argv;
      }
    }
  }

  lemma {:induction false} ForbiddenFieldsMeaning(forbidden: seq<string>, members: map<string, Json>)
    ensures CheckForbiddenFields(forbidden, members) ==
            if exists f :: f in forbidden && f in members then Deny(ForbiddenField) else Allow
  {
    if forbidden != [] {
      ForbiddenFieldsMeaning(forbidden[1..], members);
      assert forbidden == [forbidden[0]] + forbidden[1..];
    }
  }

  predicate IsDenylistReason(why: Denial) {
    why.ForbiddenArg? || why.ForbiddenMethod? || why.ForbiddenField? || why.ForbiddenEnvExport?
  }

  lemma DenylistsMeaning(c: OperationConstraints, inner: Json)
    ensures CheckDenylists(c, inner).Deny? <==> DenylistHit(c, inner)
    ensures CheckDenylists(c, inner).Deny? ==> IsDenylistReason(CheckDenylists(c, inner).why)
  {
    if c.forbiddenArgs.Some? && GetArray(inner, "argv").Some? {
      ForbiddenArgsMeaning(c.forbiddenArgs.value, GetArray(inner, "argv").value);
    }
    if c.forbiddenFields.Some? && inner.Object? {
      ForbiddenFieldsMeaning(c.forbiddenFields.value, inner.members);
    }
  }

  lemma {:induction false} PathsMeaning(w: Resolvers, roots: seq<string>, broad: bool, paths: seq<string>)
    ensures CheckPaths(w, roots, broad, paths).Allow? <==>
            forall p :: p in paths ==> roots != [] && WithinRoots(w.files, p, roots, broad) == Some(true)
  {
    if paths != [] {
      PathsMeaning(w, roots, broad, paths[1..]);
      assert paths == [paths[0]] + paths[1..];
      assert paths[0] in paths;
    }
  }

  lemma BucketsMeaning(c: OperationConstraints, inner: Json)
    ensures CheckBuckets(c, inner).Allow? <==> BucketsPermitted(c, inner)
  {
    hide GlobMatches, ClassifyS3Operand;
    if c.buckets.Some? {
      var bare, src, dst := GetString(inner, "bucket"), GetString(inner, "src"), GetString(inner, "dst");
      if bare.Some? {
        assert NamesBucket(inner, bare.value);
      }
      if src.Some? && ClassifyS3Operand(src.value).Remote? {
        assert "src" in ["src", "dst"];
        assert NamesBucket(inner, ClassifyS3Operand(src.value).bucket);
      }
      if dst.Some? && ClassifyS3Operand(dst.value).Remote? {
        assert "dst" in ["src", "dst"];
        assert NamesBucket(inner, ClassifyS3Operand(dst.value).bucket);
      }
    }
  }

  lemma LocalsMeaning(w: Resolvers, primitive: string, operation: string, c: OperationConstraints, inner: Json)
    ensures CheckLocals(w, primitive, operation, c, inner).Allow? <==>
            LocalsPermitted(w, primitive, operation, c, inner)
  {
    var paths := LocalPaths(primitive, inner, LocalFields(primitive, operation));
    if paths.Some? {
      PathsMeaning(w, Roots(c), IsSet(c.acceptBroadScope), paths.value);
    }
  }

  lemma SimpleChecksMeaning(w: Resolvers, primitive: string, operation: string, c: OperationConstraints, inner: Json)
    ensures CheckUrl(w, c, inner).Allow? <==> UrlPermitted(w, c, inner)
    ensures CheckMethod(c, inner).Allow? <==> MethodPermitted(c, inner)
    ensures CheckBinary(c, inner).Allow? <==> BinaryPermitted(c, inner)
    ensures CheckPackage(w, primitive, operation, c, inner).Allow? <==>
            PackagePermitted(w, primitive, operation, c, inner)
    ensures CheckTag(w, c, inner).Allow? <==> TagPermitted(w, c, inner)
    ensures CheckFieldsAllowed(c, inner).Allow? <==> FieldsPermitted(c, inner)
    ensures CheckCwd(w, c, inner).Allow? <==> CwdPermitted(w, c, inner)
    ensures CheckArgv(c, inner).Allow? <==> ArgvPermitted(c, inner)
    ensures CheckEnv(c, inner).Allow? <==> EnvPermitted(c, inner)
  {
    hide GlobMatches, PackageName, ResolveTarget, ArgvMatchesTemplate, Strings, GetString, GetArray, GetObject;
  }

  lemma TargetMeaning(w: Resolvers, primitive: string, operation: string, c: OperationConstraints, inner: Json)
    ensures CheckTarget(w, primitive, operation, c, inner).Allow? <==>
            TargetPermitted(w, primitive, operation, c, inner)
  {
    hide GlobMatches, ResolveTarget, OwnerOf, NormalizeRepoHost;
  }

  lemma FieldMeaning(allowed: Option<seq<string>>, inner: Json, key: string, why: Denial)
    ensures CheckField(allowed, inner, key, why).Allow? <==> FieldPermitted(allowed, inner, key)
  {
  }

  /**
   The verdict is a conjunction: the call is allowed exactly when no denylist
   is hit and every allow-list is satisfied, in whatever order one looks; and a
   denylist hit is the reason given whatever the allow-lists say.
   */
  lemma VerdictIsConjunction(w: Resolvers, primitive: string, operation: string, c: OperationConstraints, inner: Json)
    ensures CheckArgs(w, primitive, operation, c, inner).Allow? <==>
            !DenylistHit(c, inner) && AllowlistsSatisfied(w, primitive, operation, c, inner)
    ensures DenylistHit(c, inner) ==>
              var v := CheckArgs(w, primitive, operation, c, inner);
              v.Deny? && IsDenylistReason(v.why)
  {
    hide CheckDenylists, DenylistHit, CheckUrl, UrlPermitted, CheckMethod, MethodPermitted,
         CheckBuckets, BucketsPermitted, CheckLocals, LocalsPermitted, CheckField, FieldPermitted,
         CheckBinary, BinaryPermitted, CheckPackage, PackagePermitted, CheckTag, TagPermitted,
         CheckFieldsAllowed, FieldsPermitted, CheckTarget, TargetPermitted, CheckCwd, CwdPermitted,
         CheckArgv, ArgvPermitted, CheckEnv, EnvPermitted;
    DenylistsMeaning(c, inner);
    BucketsMeaning(c, inner);
    LocalsMeaning(w, primitive, operation, c, inner);
    SimpleChecksMeaning(w, primitive, operation, c, inner);
    TargetMeaning(w, primitive, operation, c, inner);
    FieldMeaning(c.distributions, inner, "distribution_id", DistributionNotAllowed);
    FieldMeaning(c.functions, inner, "function_name", FunctionNotAllowed);
    FieldMeaning(c.projects, inner, "project", ProjectNotAllowed);
    FieldMeaning(c.refs, inner, "ref", RefNotAllowed);
  }
}
