/** How the verdict moves when the constraints of an operation move. */
module EnforcerLaws {
  import opened Wrappers
  import opened StringSearch
  import opened Glob
  import opened RepoCanonical
  import opened AllowlistDsl
  import opened LocalOperand
  import opened Enforcer

  /** `b` admits at least what the allow-list `a` admits. */
  predicate ListLaxer<T(==)>(a: Option<seq<T>>, b: Option<seq<T>>) {
    b.None? || (a.Some? && forall x :: x in a.value ==> x in b.value)
  }

  /** The same for two lists read as one union (D1, D6). */
  predicate UnionLaxer(
      a1: Option<seq<string>>, a2: Option<seq<string>>, b1: Option<seq<string>>, b2: Option<seq<string>>) {
    || (b1.None? && b2.None?)
    || ((a1.Some? || a2.Some?) && Contained(a1, b1) && Contained(a2, b2))
  }

  predicate Contained(a: Option<seq<string>>, b: Option<seq<string>>) {
    a.Some? ==> forall x :: x in a.value ==> b.Some? && x in b.value
  }

  /** `b` forbids at most what the denylist `a` forbids. */
  predicate DenylistLaxer(a: Option<seq<string>>, b: Option<seq<string>>) {
    b.None? || (a.Some? && forall x :: x in b.value ==> x in a.value)
  }

  /** `b` declares at least the roots of `a`, and broad scope if `a` does. */
  predicate RootsLaxer(a: OperationConstraints, b: OperationConstraints) {
    && (forall root :: root in Roots(a) ==> root in Roots(b))
    && (IsSet(a.acceptBroadScope) ==> IsSet(b.acceptBroadScope))
  }

  /** Every allow-list wider or dropped, more roots, every forbidden list shorter or dropped. */
  predicate Laxer(a: OperationConstraints, b: OperationConstraints) {
    && DenylistLaxer(a.forbiddenArgs, b.forbiddenArgs)
    && DenylistLaxer(a.forbiddenMethods, b.forbiddenMethods)
    && DenylistLaxer(a.forbiddenFields, b.forbiddenFields)
    && DenylistLaxer(a.forbiddenEnvExport, b.forbiddenEnvExport)
    && UnionLaxer(a.urlPatternRegex, a.endpoints, b.urlPatternRegex, b.endpoints)
    && ListLaxer(a.methods, b.methods)
    && ListLaxer(a.buckets, b.buckets)
    && ListLaxer(a.distributions, b.distributions)
    && ListLaxer(a.functions, b.functions)
    && ListLaxer(a.binaries, b.binaries)
    && ListLaxer(a.packages, b.packages)
    && ListLaxer(a.projects, b.projects)
    && ListLaxer(a.refs, b.refs)
    && ListLaxer(a.tagPattern, b.tagPattern)
    && ListLaxer(a.fieldsAllowed, b.fieldsAllowed)
    && ListLaxer(a.org, b.org)
    && UnionLaxer(a.repos, a.repo, b.repos, b.repo)
    && (b.cwdPattern.None? || b.cwdPattern == a.cwdPattern)
    && ListLaxer(a.argsConstraints, b.argsConstraints)
    && ListLaxer(a.envVarsToInject, b.envVarsToInject)
    && RootsLaxer(a, b)
  }

  lemma LaxerDenylists(a: OperationConstraints, b: OperationConstraints, inner: Json)
    requires Laxer(a, b) && !DenylistHit(a, inner)
    ensures !DenylistHit(b, inner)
  {
    hide GetArray, GetString, GetObject, EqualIgnoringCase, ListLaxer, UnionLaxer;
  }

  lemma LaxerGlobs(a: Option<seq<string>>, b: Option<seq<string>>, inner: Json, key: string)
    requires ListLaxer(a, b)
    ensures FieldPermitted(a, inner, key) ==> FieldPermitted(b, inner, key)
    ensures forall s :: b.Some? && (a.Some? ==> AnyGlob(a.value, s)) ==> AnyGlob(b.value, s)
  {
    hide GlobMatches, GetString;
  }

  lemma LaxerTarget(
      w: Resolvers, primitive: string, operation: string, a: OperationConstraints, b: OperationConstraints, inner: Json)
    requires Laxer(a, b) && TargetPermitted(w, primitive, operation, a, inner)
    ensures TargetPermitted(w, primitive, operation, b, inner)
  {
    hide GlobMatches, ResolveTarget, OwnerOf, NormalizeRepoHost, DenylistLaxer;
    LaxerGlobs(a.org, b.org, inner, "");
  }

  lemma LaxerUrl(w: Resolvers, a: OperationConstraints, b: OperationConstraints, inner: Json)
    requires Laxer(a, b) && UrlPermitted(w, a, inner)
    ensures UrlPermitted(w, b, inner)
  {
    hide GetString, DenylistLaxer, ListLaxer;
  }

  lemma LaxerSimple(
      w: Resolvers, primitive: string, operation: string, a: OperationConstraints, b: OperationConstraints, inner: Json)
    requires Laxer(a, b)
    ensures MethodPermitted(a, inner) ==> MethodPermitted(b, inner)
    ensures BinaryPermitted(a, inner) ==> BinaryPermitted(b, inner)
    ensures TagPermitted(w, a, inner) ==> TagPermitted(w, b, inner)
    ensures FieldsPermitted(a, inner) ==> FieldsPermitted(b, inner)
    ensures CwdPermitted(w, a, inner) ==> CwdPermitted(w, b, inner)
    ensures ArgvPermitted(a, inner) ==> ArgvPermitted(b, inner)
    ensures EnvPermitted(a, inner) ==> EnvPermitted(b, inner)
  {
    hide GetString, GetArray, GetObject, EqualIgnoringCase, ArgvMatchesTemplate, Strings, UnionLaxer, DenylistLaxer;
  }

  lemma LaxerResources(
      w: Resolvers, primitive: string, operation: string, a: OperationConstraints, b: OperationConstraints, inner: Json)
    requires Laxer(a, b)
    ensures BucketsPermitted(a, inner) ==> BucketsPermitted(b, inner)
    ensures PackagePermitted(w, primitive, operation, a, inner) ==> PackagePermitted(w, primitive, operation, b, inner)
  {
    hide AnyGlob, NamesBucket, PackageName, UnionLaxer, DenylistLaxer;
    LaxerGlobs(a.buckets, b.buckets, inner, "");
    LaxerGlobs(a.packages, b.packages, inner, "");
  }

  /** The local operands of a call, when they can be determined. */
  function Operands(primitive: string, operation: string, inner: Json): Option<seq<string>> {
    LocalPaths(primitive, inner, LocalFields(primitive, operation))
  }

  /** No root of the operation dangles, and none is the filesystem root without broad scope. */
  predicate RootsUsable(w: Resolvers, c: OperationConstraints) {
    Usable(w.files, Roots(c), IsSet(c.acceptBroadScope))
  }

  lemma LaxerLocals(
    w: Resolvers, primitive: string, operation: string, a: OperationConstraints, b: OperationConstraints, inner: Json)
    requires RootsLaxer(a, b) && LocalsPermitted(w, primitive, operation, a, inner)
    ensures LocalsPermitted(w, primitive, operation, b, inner)
            <==> Operands(primitive, operation, inner) == Some([]) || RootsUsable(w, b)
  {
    hide LocalPaths, LocalFields, WithinRoots, Usable;
    var paths := Operands(primitive, operation, inner).value;
    forall p | p in paths
      ensures WithinRoots(w.files, p, Roots(b), IsSet(b.acceptBroadScope))
              == if RootsUsable(w, b) then Some(true) else None
      ensures Roots(b) != []
    {
      assert Roots(a)[0] in Roots(b);
      MoreRoots(w.files, p, Roots(a), IsSet(a.acceptBroadScope), Roots(b), IsSet(b.acceptBroadScope));
    }
    if paths != [] {
      assert paths[0] in paths;
    }
  }

  /**
   Widening any allow-list, adding roots or shortening a forbidden list keeps
   an allowed call allowed exactly when it has no local operand or the roots
   then declared are all usable; in every other respect the verdict is monotone.
   */
  lemma LaxerAllowsExactly(
    w: Resolvers, primitive: string, operation: string, a: OperationConstraints, b: OperationConstraints, inner: Json)
    requires Laxer(a, b)
    requires CheckArgs(w, primitive, operation, a, inner).Allow?
    ensures CheckArgs(w, primitive, operation, b, inner).Allow?
            <==> Operands(primitive, operation, inner) == Some([]) || RootsUsable(w, b)
  {
    hide CheckArgs, DenylistHit, UrlPermitted, MethodPermitted, BucketsPermitted, FieldPermitted, BinaryPermitted,
         PackagePermitted, TagPermitted, FieldsPermitted, TargetPermitted, CwdPermitted, ArgvPermitted, EnvPermitted,
         LocalsPermitted, Operands, RootsUsable, RootsLaxer, UnionLaxer, DenylistLaxer, ListLaxer;
    VerdictIsConjunction(w, primitive, operation, a, inner);
    VerdictIsConjunction(w, primitive, operation, b, inner);
    LaxerLocals(w, primitive, operation, a, b, inner);
    LaxerDenylists(a, b, inner);
    LaxerUrl(w, a, b, inner);
    LaxerSimple(w, primitive, operation, a, b, inner);
    LaxerResources(w, primitive, operation, a, b, inner);
    LaxerGlobs(a.distributions, b.distributions, inner, "distribution_id");
    LaxerGlobs(a.functions, b.functions, inner, "function_name");
    LaxerGlobs(a.projects, b.projects, inner, "project");
    LaxerGlobs(a.refs, b.refs, inner, "ref");
    LaxerTarget(w, primitive, operation, a, b, inner);
  }

  /** With the same usable roots nothing stands in the way: widening never denies. */
  lemma LaxerNeverDenies(
    w: Resolvers, primitive: string, operation: string, a: OperationConstraints, b: OperationConstraints, inner: Json)
    requires Laxer(a, b) && Roots(a) == Roots(b) && IsSet(a.acceptBroadScope) == IsSet(b.acceptBroadScope)
    requires CheckArgs(w, primitive, operation, a, inner).Allow?
    ensures CheckArgs(w, primitive, operation, b, inner).Allow?
  {
    hide CheckArgs;
    LaxerAllowsExactly(w, primitive, operation, a, b, inner);
    LaxerAllowsExactly(w, primitive, operation, a, a, inner);
  }

  // ---------------------------------------------------------------------
  // One bad root refuses the call
  // ---------------------------------------------------------------------

  /** A machine with a directory `/srv`, the upload in it, and a link `/old` to nowhere. */
  const MACHINE: FileSystem :=
    FileSystem(
      path => path != "" && path[0] == '/',
      path => if path == "/srv/x" then Some(["srv", "x"]) else if path == "/srv" then Some(["srv"])
              else if path == "/" then Some([]) else None,
      path => path in {"/srv/x", "/srv", "/", "/old"},
      path => None,
      path => ".")

  const ROOTED: Resolvers :=
    Resolvers((p, u) => false, (p, s) => false, (c, r) => None, c => None, (o, j) => Missing, MACHINE, e => false)

  function UploadTo(roots: seq<string>): OperationConstraints {
    UNCONSTRAINED.(localRoots := Some(roots))
  }

  const UPLOAD: Json := Object(map["dist" := Str("/srv/x")])

  lemma UploadPaths(inner: Json, path: string)
    requires GetString(inner, "dist") == Some(path)
    ensures Operands("kvendra.pypi", "upload", inner) == Some([path])
  {
    var fields := ["dist"];
    assert LocalFields("kvendra.pypi", "upload") == fields && fields[0] == "dist";
    assert LocalPaths("kvendra.pypi", inner, fields[1..]) == Some([]);
    assert [path] + [] == [path];
  }

  /** With no constraint but `local_roots`, an upload is judged by its roots alone. */
  lemma UploadVerdict(w: Resolvers, roots: seq<string>, path: string)
    ensures CheckArgs(w, "kvendra.pypi", "upload", UploadTo(roots), Object(map["dist" := Str(path)]))
            == CheckPaths(w, roots, false, [path])
  {
    UploadPaths(Object(map["dist" := Str(path)]), path);
    hide LocalPaths, CheckPaths, LocalFields;
  }

  /** Adding the filesystem root, or a link to nowhere, to `/srv` makes an allowed upload from `/srv` a denied one. */
  lemma WideningRootsCanDeny(bad: string)
    requires bad in {"/", "/old"}
    ensures CheckArgs(ROOTED, "kvendra.pypi", "upload", UploadTo(["/srv"]), UPLOAD).Allow?
    ensures CheckArgs(ROOTED, "kvendra.pypi", "upload", UploadTo(["/srv", bad]), UPLOAD).Deny?
  {
    hide *;
    UploadFromSrv();
    OneMoreRoot(bad);
    UploadOperands();
    LaxerAllowsExactly(ROOTED, "kvendra.pypi", "upload", UploadTo(["/srv"]), UploadTo(["/srv", bad]), UPLOAD);
  }

  lemma UploadOperands()
    ensures Operands("kvendra.pypi", "upload", UPLOAD).Some? && Operands("kvendra.pypi", "upload", UPLOAD).value != []
  {
    UploadPaths(UPLOAD, "/srv/x");
  }

  lemma UploadFromSrv()
    ensures CheckArgs(ROOTED, "kvendra.pypi", "upload", UploadTo(["/srv"]), UPLOAD).Allow?
  {
    hide CheckArgs;
    var narrow, paths := ["/srv"], ["/srv/x"];
    UploadVerdict(ROOTED, narrow, "/srv/x");
    assert narrow[0] == "/srv" && "/srv/x"[0] == '/' && "/srv"[0] == '/';
    assert MACHINE.canonicalize("/srv") == Some(["srv"]) && MACHINE.canonicalize("/srv/x") == Some(["srv", "x"]);
    assert Inside(MACHINE, "/srv/x", "/srv");
    assert CheckPaths(ROOTED, narrow, false, paths[1..]).Allow?;
  }

  lemma OneMoreRoot(bad: string)
    requires bad in {"/", "/old"}
    ensures Laxer(UploadTo(["/srv"]), UploadTo(["/srv", bad])) && !RootsUsable(ROOTED, UploadTo(["/srv", bad]))
  {
    var wide := ["/srv", bad];
    assert wide[0] == "/srv" && wide[1] == bad && bad[0] == '/';
    assert "/old" != "/" && |"/old"| == 4 && "/old"[1] == 'o' && "/srv"[1] == 's';
    assert BadRoot(MACHINE, bad, false);
  }

  // ---------------------------------------------------------------------
  // What an allowed call can reach
  // ---------------------------------------------------------------------

  /** All patterns of the repository scope, host-normalized. */
  ghost predicate InScope(c: OperationConstraints, pattern: string) {
    exists p :: ((c.repos.Some? && p in c.repos.value) || (c.repo.Some? && p in c.repo.value))
        && pattern == NormalizeRepoHost(p)
  }

  /**
   What a scoped call that is allowed can reach, for every primitive: a
   resolved target that some scope pattern matches part by part (host with
   host, owner with owner, name with name, none left over), and whose owner
   the `org` list admits.
   */
  lemma AllowedTargetIsScoped(
      w: Resolvers, primitive: string, operation: string, c: OperationConstraints, inner: Json)
    requires c.org.Some? || c.repos.Some? || c.repo.Some?
    requires CheckArgs(w, primitive, operation, c, inner).Allow?
    ensures var target := ResolveTarget(w, primitive, operation, inner);
            && target.Resolved?
            && (c.repos.Some? || c.repo.Some? ==>
                  exists pattern :: InScope(c, pattern)
                                    && SegmentwiseMatches(Segments(pattern), Segments(target.repo)))
            && (c.org.Some? ==>
                  |Segments(target.repo)| >= 2
                  && exists p :: p in c.org.value && GlobMatches(p, Segments(target.repo)[1]))
  {
    hide CheckArgs, DenylistHit, UrlPermitted, MethodPermitted, BucketsPermitted, FieldPermitted, BinaryPermitted,
         PackagePermitted, TagPermitted, FieldsPermitted, CwdPermitted, ArgvPermitted, EnvPermitted, LocalsPermitted,
         GlobMatches, ResolveTarget, NormalizeRepoHost, Segments, SegmentwiseMatches;
    VerdictIsConjunction(w, primitive, operation, c, inner);
    var repo := ResolveTarget(w, primitive, operation, inner).repo;
    if c.repos.Some? || c.repo.Some? {
      var p :| ((c.repos.Some? && p in c.repos.value) || (c.repo.Some? && p in c.repo.value))
               && GlobMatches(NormalizeRepoHost(p), repo);
      assert InScope(c, NormalizeRepoHost(p));
      MatchIsSegmentwise(NormalizeRepoHost(p), repo);
    }
  }

  /**
   An allowed push, pull, tag or commit whose remote is a URL acts on the host
   of one of the scope's patterns, whatever userinfo, port or decoy `repo` and
   `url` fields the call carries.
   */
  lemma AllowedRemoteIsOnScopedHost(w: Resolvers, operation: string, c: OperationConstraints, inner: Json,
                                    sp: Spelling, host: string, path: string, dotGit: bool)
    requires operation != "clone" && (c.repos.Some? || c.repo.Some?)
    requires ValidSpelling(sp) && DottedHost(host) && RepoPath(path)
    requires GetString(inner, "remote") == Some(Render(sp, host, path, dotGit))
            && LooksLikeGitUrl(Render(sp, host, path, dotGit))
    requires forall pattern :: InScope(c, pattern) ==> '*' !in Segments(pattern)[0]
    requires CheckArgs(w, "kvendra.git", operation, c, inner).Allow?
    ensures exists pattern :: InScope(c, pattern) && Segments(pattern)[0] == host
  {
    hide CheckArgs, DenylistHit, UrlPermitted, MethodPermitted, BucketsPermitted, FieldPermitted, BinaryPermitted,
         PackagePermitted, TagPermitted, FieldsPermitted, CwdPermitted, ArgvPermitted, EnvPermitted, LocalsPermitted,
         GlobMatches, Render, ExtractRepoCanonical, NormalizeRepoHost, OwnerOf;
    VerdictIsConjunction(w, "kvendra.git", operation, c, inner);
    var url := Render(sp, host, path, dotGit);
    var repo := NormalizeRepoHost(ExtractRepoCanonical(url));
    RemoteIsTarget(w, operation, inner, url);
    var p :| ((c.repos.Some? && p in c.repos.value) || (c.repo.Some? && p in c.repo.value))
        && GlobMatches(NormalizeRepoHost(p), repo);
    assert InScope(c, NormalizeRepoHost(p));
    PatternPinsHost(NormalizeRepoHost(p), sp, host, path, dotGit);
  }

  /** Outside `clone` the target of a git call is its remote. */
  lemma RemoteIsTarget(w: Resolvers, operation: string, inner: Json, url: string)
    requires operation != "clone" && GetString(inner, "remote") == Some(url) && LooksLikeGitUrl(url)
    ensures ResolveTarget(w, "kvendra.git", operation, inner) == Resolved(NormalizeRepoHost(ExtractRepoCanonical(url)))
  {
    hide ExtractRepoCanonical, NormalizeRepoHost, LooksLikeGitUrl;
    assert |"kvendra.git"| != |"kvendra.github"|;
  }

  lemma RemoteOperandReads(bucket: string, rest: string)
    requires bucket != "" && '/' !in bucket && (rest == "" || rest[0] == '/')
    ensures ClassifyS3Operand("s3://" + bucket + rest) == Remote(bucket)
  {
    hide FindScheme, Lower;
    var s := "s3://" + bucket + rest;
    assert s[5..] == bucket + rest && "s3://" <= s;
    if rest != "" {
      assert (bucket + rest)[..|bucket|] == bucket && (bucket + rest)[|bucket|] == '/';
      FoundAt(bucket + rest, '/', |bucket|);
    } else {
      assert bucket + rest == bucket;
    }
  }

  lemma RemoteOperandSplits(s: string)
    requires ClassifyS3Operand(s).Remote?
    ensures var bucket := ClassifyS3Operand(s).bucket;
            && bucket != "" && '/' !in bucket && 5 + |bucket| <= |s|
            && s == "s3://" + bucket + s[5 + |bucket|..]
            && (5 + |bucket| < |s| ==> s[5 + |bucket|] == '/')
  {
    hide FindScheme, Lower;
    var tail := s[5..];
    var bucket := ClassifyS3Operand(s).bucket;
    assert tail[..|bucket|] == bucket && s[5 + |bucket|..] == tail[|bucket|..];
  }

  /** An operand names a bucket exactly when it is `s3://bucket`, alone or before a slash. */
  lemma RemoteOperandShape(s: string, bucket: string)
    ensures ClassifyS3Operand(s) == Remote(bucket) <==>
            && bucket != "" && '/' !in bucket
            && exists rest :: s == "s3://" + bucket + rest && (rest == "" || rest[0] == '/')
  {
    hide ClassifyS3Operand;
    if ClassifyS3Operand(s) == Remote(bucket) {
      RemoteOperandSplits(s);
      var rest := s[5 + |bucket|..];
      assert s == "s3://" + bucket + rest && (rest == "" || rest[0] == '/');
    }
    if bucket != "" && '/' !in bucket && exists rest :: s == "s3://" + bucket + rest && (rest == "" || rest[0] == '/') {
      var rest :| s == "s3://" + bucket + rest && (rest == "" || rest[0] == '/');
      RemoteOperandReads(bucket, rest);
    }
  }

  /** A side of an S3 transfer is an allowed bucket or a path inside the roots; anything else is refused. */
  ghost predicate SideBounded(w: Resolvers, c: OperationConstraints, side: string) {
    match ClassifyS3Operand(side)
    case Remote(bucket) => c.buckets.Some? ==> AnyGlob(c.buckets.value, bucket)
    case Local(path) => RootsUsable(w, c) && exists root :: root in Roots(c) && Inside(w.files, path, root)
    case Malformed => false
  }

  lemma AllowedTransferIsBounded(
      w: Resolvers, operation: string, c: OperationConstraints, inner: Json, key: string, side: string)
    requires operation in ["s3_sync", "s3_cp"] && key in ["src", "dst"]
    requires GetString(inner, key) == Some(side)
    requires CheckArgs(w, "kvendra.aws", operation, c, inner).Allow?
    ensures SideBounded(w, c, side)
  {
    hide CheckArgs, DenylistHit, UrlPermitted, MethodPermitted, FieldPermitted, BinaryPermitted, TargetPermitted,
         PackagePermitted, TagPermitted, FieldsPermitted, CwdPermitted, ArgvPermitted, EnvPermitted,
         GlobMatches, ClassifyS3Operand;
    VerdictIsConjunction(w, "kvendra.aws", operation, c, inner);
    TransferPaths(inner, key, side);
    assert LocalFields("kvendra.aws", operation) == ["src", "dst"];
    if ClassifyS3Operand(side).Remote? {
      assert NamesBucket(inner, ClassifyS3Operand(side).bucket);
    }
  }

  /** The local paths of a transfer include each local side, and there are none to be had of a malformed one. */
  lemma TransferPaths(inner: Json, key: string, side: string)
    requires key in ["src", "dst"] && GetString(inner, key) == Some(side)
    ensures var paths := LocalPaths("kvendra.aws", inner, ["src", "dst"]);
            paths.Some? ==>
              match ClassifyS3Operand(side)
              case Remote(_) => true
              case Local(path) => path in paths.value
              case Malformed => false
  {
    hide ClassifyS3Operand, GetString;
    var both, one := ["src", "dst"], ["dst"];
    assert both[1..] == one && one[1..] == [] && both[0] == "src" && one[0] == "dst";
    assert LocalPaths("kvendra.aws", inner, []) == Some([]);
    assert |"kvendra.aws"| == |"kvendra.git"| && "kvendra.aws"[8] != "kvendra.git"[8];
  }
}
