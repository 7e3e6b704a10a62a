/**
 What the resolvers of the runtime decision read: argv templates, targets,
 local operands and package names (src/allowlist/enforcer.rs,
 src/primitives/local_operand.rs).
 */
module OperandLaws {
  import opened Wrappers
  import opened StringSearch
  import opened Glob
  import opened RepoCanonical
  import opened AllowlistDsl
  import opened LocalOperand
  import opened Enforcer

  // ---------------------------------------------------------------------
  // Argv templates
  // ---------------------------------------------------------------------

  /** A lone star is any slot, a prefix with slash and star the prefix and anything more, every other token itself. */
  lemma TokenMeaning(token: string, arg: string)
    ensures TokenMatches(token, arg) <==>
            || token == "*"
            || (exists prefix, rest :: token == prefix + "/*" && rest != "" && arg == prefix + rest)
            || ((forall prefix :: token != prefix + "/*") && token == arg)
  {
    if |token| >= 2 && token[|token| - 2..] == "/*" {
      var prefix := token[..|token| - 2];
      assert token == prefix + "/*";
      if prefix <= arg && |arg| > |prefix| {
        assert arg == prefix + arg[|prefix|..];
      }
      forall p | token == p + "/*"
        ensures p == prefix
      {
        assert |p| == |prefix| && (p + "/*")[..|p|] == p;
      }
    } else {
      forall prefix
        ensures token != prefix + "/*"
      {
        assert (prefix + "/*")[|prefix|..] == "/*";
      }
    }
  }

  lemma {:induction false} GlobAfterPrefix(prefix: string, tail: string, s: string)
    requires '*' !in prefix
    ensures GlobMatches(prefix + tail, s) <==> prefix <= s && GlobMatches(tail, s[|prefix|..])
  {
    if prefix == "" {
      assert prefix + tail == tail && s[0..] == s;
    } else {
      assert (prefix + tail)[0] == prefix[0] && (prefix + tail)[1..] == prefix[1..] + tail;
      if s != "" && s[0] == prefix[0] {
        GlobAfterPrefix(prefix[1..], tail, s[1..]);
        assert |prefix| <= |s| ==> s[1..][|prefix| - 1..] == s[|prefix|..];
        assert prefix == [prefix[0]] + prefix[1..] && s == [s[0]] + s[1..];
      }
    }
  }

  lemma LoneStar(t: string)
    ensures GlobMatches("*", t) <==> SlashFree(t)
  {
    var star := "*";
    assert star[1..] == "";
    if SlashFree(t) {
      assert t[..|t|] == t && t[|t|..] == "";
    }
    if GlobMatches(star, t) {
      var k :| 0 <= k <= |t| && SlashFree(t[..k]) && GlobMatches(star[1..], t[k..]);
      assert t[..k] == t;
    }
  }

  lemma SlashStar(s: string)
    ensures GlobMatches("/*", s) <==> s != "" && s[0] == '/' && SlashFree(s[1..])
  {
    hide SlashFree;
    var pattern := "/*";
    assert pattern[0] == '/' && pattern[1..] == "*";
    if s != "" {
      LoneStar(s[1..]);
    }
  }

  /**
   A template token that ends in slash and star is wider than the same glob: it
   takes everything the glob takes, and beyond that exactly the arguments that
   go on after the prefix otherwise than by a slash and one more segment.
   */
  lemma TokenIsWiderThanGlob(prefix: string, rest: string)
    requires '*' !in prefix && prefix != ""
    ensures GlobMatches(prefix + "/*", prefix + rest) ==> TokenMatches(prefix + "/*", prefix + rest)
    ensures TokenMatches(prefix + "/*", prefix + rest) && !GlobMatches(prefix + "/*", prefix + rest)
            <==> rest != "" && !(rest[0] == '/' && SlashFree(rest[1..]))
  {
    var token, arg := prefix + "/*", prefix + rest;
    assert token[|token| - 2..] == "/*" && token[..|token| - 2] == prefix;
    assert arg[|prefix|..] == rest;
    GlobAfterPrefix(prefix, "/*", arg);
    SlashStar(rest);
    assert |token| > 1;
  }

  /** The texts of two arrays are those of the first, then those of the second. */
  lemma {:induction false} StringsAppend(items: seq<Json>, more: seq<Json>)
    ensures Strings(items + more) == Strings(items) + Strings(more)
  {
    if items == [] {
      assert items + more == more;
    } else {
      assert (items + more)[0] == items[0] && (items + more)[1..] == items[1..] + more;
      StringsAppend(items[1..], more);
    }
  }

  /** The texts of an array of texts are those texts, in their places. */
  lemma {:induction false} StringsOfTexts(items: seq<Json>)
    requires forall i :: 0 <= i < |items| ==> items[i].Str?
    ensures |Strings(items)| == |items| && forall i :: 0 <= i < |items| ==> items[i] == Str(Strings(items)[i])
  {
    if items != [] {
      StringsOfTexts(items[1..]);
    }
  }

  /** Anything else in an array is passed over. */
  lemma StringsSkip(item: Json)
    requires !item.Str?
    ensures Strings([item]) == []
  {
    assert [item][1..] == [];
  }

  /** An allowed argv fits some template: as many texts, each matching its token. */
  lemma AllowedArgvFits(
      w: Resolvers, primitive: string, operation: string, c: OperationConstraints, inner: Json, argv: seq<Json>)
    requires c.argsConstraints.Some? && GetArray(inner, "argv") == Some(argv)
    requires CheckArgs(w, primitive, operation, c, inner).Allow?
    ensures exists template :: template in c.argsConstraints.value && |Strings(argv)| == |template|
                               && forall i :: 0 <= i < |template| ==> TokenMatches(template[i], Strings(argv)[i])
  {
    hide CheckArgs, DenylistHit, UrlPermitted, MethodPermitted, BucketsPermitted, FieldPermitted, BinaryPermitted,
         PackagePermitted, TagPermitted, FieldsPermitted, TargetPermitted, CwdPermitted, EnvPermitted, LocalsPermitted,
         TokenMatches, Strings, GetArray;
    VerdictIsConjunction(w, primitive, operation, c, inner);
    var template :| template in c.argsConstraints.value && ArgvMatchesTemplate(Strings(argv), template);
  }

  // ---------------------------------------------------------------------
  // Targets
  // ---------------------------------------------------------------------

  /** The owner an allowed GitHub call is checked for is the owner it acts on. */
  lemma AllowedGithubOwner(
      w: Resolvers, operation: string, c: OperationConstraints, inner: Json, owner: string, name: string)
    requires w.githubTarget(operation, inner) == Found(owner, name) && SlashFree(owner)
    requires c.org.Some? && CheckArgs(w, "kvendra.github", operation, c, inner).Allow?
    ensures exists p :: p in c.org.value && GlobMatches(p, owner)
  {
    hide CheckArgs, DenylistHit, UrlPermitted, MethodPermitted, BucketsPermitted, FieldPermitted, BinaryPermitted,
         PackagePermitted, TagPermitted, FieldsPermitted, CwdPermitted, ArgvPermitted, EnvPermitted, LocalsPermitted,
         GlobMatches, Segments;
    VerdictIsConjunction(w, "kvendra.github", operation, c, inner);
    GithubSegments(owner, name);
  }

  lemma GithubSegments(owner: string, name: string)
    requires SlashFree(owner)
    ensures Segments("github.com/" + owner + "/" + name) == ["github.com", owner] + Segments(name)
  {
    assert "github.com/" + owner + "/" + name == "github.com" + "/" + (owner + "/" + name);
    SegmentsOfHostPath("github.com", owner + "/" + name);
    SegmentsOfHostPath(owner, name);
  }

  /** A name that a URL-valued field gives to a repository. */
  function Named(s: string): Target {
    Resolved(NormalizeRepoHost(ExtractRepoCanonical(s)))
  }

  /** A clone acts on its `url` field, on `repo` only when there is no `url` at all; other fields do not matter. */
  lemma CloneTarget(w: Resolvers, inner: Json)
    ensures var target := ResolveTarget(w, "kvendra.git", "clone", inner);
            match Get(inner, "url")
            case Some(Str(url)) => target == Named(url)
            case Some(_) => target == Unknown
            case None =>
              match Get(inner, "repo")
              case Some(Str(repo)) => target == Named(repo)
              case _ => target == Unknown
  {
    hide ExtractRepoCanonical, NormalizeRepoHost;
    assert |"kvendra.git"| != |"kvendra.github"|;
  }

  /**
   Any other git call acts on its remote (`origin` when none is given): on the
   URL itself if it is one, else on what git answers for that name in `cwd`.
   The fields `repo` and `url` do not matter.
   */
  lemma RemoteTarget(w: Resolvers, operation: string, inner: Json, remote: string)
    requires operation != "clone"
    requires match Get(inner, "remote") case Some(Str(r)) => remote == r case _ => remote == "origin"
    ensures var target := ResolveTarget(w, "kvendra.git", operation, inner);
            if LooksLikeGitUrl(remote) then target == Named(remote)
            else
              match Get(inner, "cwd")
              case Some(Str(cwd)) =>
                (match w.gitRemoteUrl(cwd, remote)
                 case Some(url) => target == Named(url)
                 case None => target == Unknown)
              case _ => target == Unknown
  {
    hide ExtractRepoCanonical, NormalizeRepoHost, LooksLikeGitUrl;
    assert |"kvendra.git"| != |"kvendra.github"|;
  }

  /** Other primitives act on `repo`, or on `url` when there is no `repo` at all. */
  lemma FieldTarget(w: Resolvers, primitive: string, operation: string, inner: Json)
    requires primitive != "kvendra.git" && primitive != "kvendra.github"
    ensures var target := ResolveTarget(w, primitive, operation, inner);
            match Get(inner, "repo")
            case Some(Str(repo)) => target == Named(repo)
            case Some(_) => target == Unknown
            case None =>
              match Get(inner, "url")
              case Some(Str(url)) => target == Named(url)
              case _ => target == Unknown
  {
    hide ExtractRepoCanonical, NormalizeRepoHost;
  }

  /** Every URL spelling and every scp-like one with a user is taken for a URL, a plain name is not. */
  lemma SpelledRemoteIsUrl(sp: Spelling, host: string, path: string, dotGit: bool)
    requires ValidSpelling(sp) && (sp.Url? || (sp.Scp? && sp.user.Some?))
    ensures LooksLikeGitUrl(Render(sp, host, path, dotGit))
  {
    var s := Render(sp, host, path, dotGit);
    match sp {
      case Url(scheme, _, _) => assert SchemeMark(s, |scheme|);
      case Scp(user) =>
        assert s[|user.value|] == '@' && s[|UserPrefix(user) + host|] == ':';
      case Bare =>
    }
  }

  /** What is taken for a URL: a scheme, the user `git`, or a user and a colon; every other text is a name. */
  lemma UrlLikeIsExact(s: string)
    ensures LooksLikeGitUrl(s) <==>
            || (exists i: nat :: SchemeMark(s, i))
            || (exists rest :: s == "git@" + rest)
            || ((exists i :: 0 <= i < |s| && s[i] == '@') && (exists j :: 0 <= j < |s| && s[j] == ':'))
  {
    if FindScheme(s).Some? {
      assert SchemeMark(s, FindScheme(s).value);
    }
    if "git@" <= s {
      assert s == "git@" + s[4..];
    }
  }

  /** The owner of a target is its second segment, however many follow; a target without a slash has none. */
  lemma OwnerIsSecond(host: string, rest: string)
    requires SlashFree(host)
    ensures OwnerOf(host) == None
    ensures OwnerOf(host + "/" + rest) == Some(Segments(rest)[0])
    ensures SlashFree(rest) ==> OwnerOf(host + "/" + rest) == Some(rest)
    ensures forall name :: SlashFree(rest) ==> OwnerOf(host + "/" + rest + "/" + name) == Some(rest)
  {
    hide Segments;
    SlashFreeIsOne(host);
    SegmentsOfHostPath(host, rest);
    if SlashFree(rest) {
      SlashFreeIsOne(rest);
      forall name
        ensures OwnerOf(host + "/" + rest + "/" + name) == Some(rest)
      {
        assert host + "/" + rest + "/" + name == host + "/" + (rest + "/" + name);
        SegmentsOfHostPath(host, rest + "/" + name);
        SegmentsOfHostPath(rest, name);
      }
    }
  }

  // ---------------------------------------------------------------------
  // Local operands
  // ---------------------------------------------------------------------

  /** A path inside the declared roots, all of them usable. */
  ghost predicate InRoots(w: Resolvers, c: OperationConstraints, path: string) {
    && Usable(w.files, Roots(c), IsSet(c.acceptBroadScope))
    && exists root :: root in Roots(c) && Inside(w.files, path, root)
  }

  /** One side of an S3 transfer, if it is given as a text. */
  ghost predicate SideAdmitted(w: Resolvers, c: OperationConstraints, side: Option<string>) {
    side.Some? ==>
      match ClassifyS3Operand(side.value)
      case Remote(_) => true
      case Local(path) => InRoots(w, c, path)
      case Malformed => false
  }

  lemma OnePath(w: Resolvers, c: OperationConstraints, path: string)
    ensures Roots(c) != [] && WithinRoots(w.files, path, Roots(c), IsSet(c.acceptBroadScope)) == Some(true)
            <==> InRoots(w, c, path)
  {
  }

  /** The paths of a single field. */
  lemma OneField(primitive: string, inner: Json, field: string)
    ensures LocalPaths(primitive, inner, [field]) ==
            match GetString(inner, field)
            case None => if primitive == "kvendra.git" then None else Some([])
            case Some(v) =>
              match (if primitive == "kvendra.aws" then ClassifyS3Operand(v) else Local(v))
              case Malformed => None
              case Remote(_) => Some([])
              case Local(path) => Some([path])
  {
    hide ClassifyS3Operand, GetString;
    assert [field][1..] == [];
    assert LocalPaths(primitive, inner, []) == Some([]);
    assert forall path: string :: [path] + [] == [path];
  }

  /** The two sides of a transfer, whichever are given. */
  lemma TransferSides(w: Resolvers, operation: string, c: OperationConstraints, inner: Json)
    requires operation in ["s3_sync", "s3_cp"]
    ensures LocalsPermitted(w, "kvendra.aws", operation, c, inner)
            <==> SideAdmitted(w, c, GetString(inner, "src")) && SideAdmitted(w, c, GetString(inner, "dst"))
  {
    hide ClassifyS3Operand, GetString, InRoots, WithinRoots;
    var both := ["src", "dst"];
    assert LocalFields("kvendra.aws", operation) == both;
    assert both[1..] == ["dst"] && both[0] == "src";
    assert |"kvendra.aws"| == |"kvendra.git"| && "kvendra.aws"[8] != "kvendra.git"[8];
    OneField("kvendra.aws", inner, "dst");
    forall path
      ensures Roots(c) != [] && WithinRoots(w.files, path, Roots(c), IsSet(c.acceptBroadScope)) == Some(true)
              <==> InRoots(w, c, path)
    {
      OnePath(w, c, path);
    }
    var rest := LocalPaths("kvendra.aws", inner, ["dst"]);
    var src, all := GetString(inner, "src"), LocalPaths("kvendra.aws", inner, both);
    if src.None? || ClassifyS3Operand(src.value).Remote? {
      assert all == rest;
    } else if ClassifyS3Operand(src.value).Malformed? {
      assert all == None;
    } else {
      var path := ClassifyS3Operand(src.value).path;
      assert all == if rest.Some? then Some([path] + rest.value) else None;
      assert rest.Some? ==> path in ([path] + rest.value);
    }
  }

  /** A clone needs a `dst`, and it must lie in the roots. */
  lemma CloneDestination(w: Resolvers, c: OperationConstraints, inner: Json)
    ensures LocalsPermitted(w, "kvendra.git", "clone", c, inner)
            <==> GetString(inner, "dst").Some? && InRoots(w, c, GetString(inner, "dst").value)
  {
    hide GetString, InRoots, WithinRoots, LocalPaths;
    assert |"kvendra.aws"| == |"kvendra.git"| && "kvendra.aws"[8] != "kvendra.git"[8];
    assert LocalFields("kvendra.git", "clone") == ["dst"];
    OneField("kvendra.git", inner, "dst");
    if GetString(inner, "dst").Some? {
      OnePath(w, c, GetString(inner, "dst").value);
      assert GetString(inner, "dst").value in [GetString(inner, "dst").value];
    }
  }

  /** An upload's `dist`, if it is given as a text, must lie in the roots. */
  lemma UploadSource(w: Resolvers, c: OperationConstraints, inner: Json)
    ensures LocalsPermitted(w, "kvendra.pypi", "upload", c, inner)
            <==> (GetString(inner, "dist").Some? ==> InRoots(w, c, GetString(inner, "dist").value))
  {
    hide GetString, InRoots, WithinRoots, LocalPaths;
    assert |"kvendra.pypi"| == 12 && |"kvendra.git"| == 11 && |"kvendra.aws"| == 11;
    assert LocalFields("kvendra.pypi", "upload") == ["dist"];
    OneField("kvendra.pypi", inner, "dist");
    if GetString(inner, "dist").Some? {
      OnePath(w, c, GetString(inner, "dist").value);
      assert GetString(inner, "dist").value in [GetString(inner, "dist").value];
    }
  }

  /** The operations that touch the local file system; no other is asked for roots. */
  const LOCAL_OPERATIONS: seq<(string, string)> :=
    [("kvendra.aws", "s3_sync"), ("kvendra.aws", "s3_cp"), ("kvendra.git", "clone"), ("kvendra.pypi", "upload")]

  lemma OthersNeedNoRoots(w: Resolvers, primitive: string, operation: string, c: OperationConstraints, inner: Json)
    requires (primitive, operation) !in LOCAL_OPERATIONS
    ensures LocalsPermitted(w, primitive, operation, c, inner)
  {
    assert LOCAL_OPERATIONS[0] != (primitive, operation) && LOCAL_OPERATIONS[1] != (primitive, operation);
    assert LOCAL_OPERATIONS[2] != (primitive, operation) && LOCAL_OPERATIONS[3] != (primitive, operation);
    assert LocalFields(primitive, operation) == [];
  }

  /** `s3:` in either case, whatever follows. */
  predicate S3Like(s: string) {
    |s| >= 3 && (s[0] == 's' || s[0] == 'S') && s[1] == '3' && s[2] == ':'
  }

  /** An operand is a local path exactly when it is not empty, has no scheme and does not begin like a bucket. */
  lemma LocalOperandShape(s: string, path: string)
    ensures ClassifyS3Operand(s) == Local(path) <==>
            path == s && s != "" && (forall i: nat :: !SchemeMark(s, i)) && !S3Like(s)
  {
    var low := Lower(s);
    assert "s3:" <= low <==> S3Like(s) by {
      if |s| >= 3 {
        assert low[0] == LowerChar(s[0]) && low[1] == LowerChar(s[1]) && low[2] == LowerChar(s[2]);
        assert "s3:" <= low <==> low[..3] == "s3:";
        assert low[..3] == "s3:" <==> low[0] == 's' && low[1] == '3' && low[2] == ':';
      }
    }
    if "s3://" <= s {
      assert s[0] == 's' && s[1] == '3' && s[2] == ':' && s[3] == '/' && s[4] == '/';
      assert S3Like(s);
    }
  }

  /**
   Where an operand lies: where it resolves, or under its parent when it does
   not exist yet; a link to nowhere, an empty operand and one without a parent
   lie in no root.
   */
  lemma WhereOperandsLie(files: FileSystem, p: string, root: string, base: Path)
    requires files.isAbsolute(root) && files.canonicalize(root) == Some(base)
    ensures p == "" ==> !Inside(files, p, root)
    ensures p != "" && files.canonicalize(p).Some? ==> (Inside(files, p, root) <==> base <= files.canonicalize(p).value)
    ensures files.canonicalize(p).None? && files.entryExists(p) ==> !Inside(files, p, root)
    ensures p != "" && files.canonicalize(p).None? && !files.entryExists(p) ==>
              var leaf, parent := files.fileName(p), files.canonicalize(files.parentOrHere(p));
              Inside(files, p, root) <==>
              leaf.Some? && parent.Some? && (base <= parent.value || base == parent.value + [leaf.value])
  {
  }

  // ---------------------------------------------------------------------
  // Packages
  // ---------------------------------------------------------------------

  /** An allowed publish publishes a listed package: the one its manifest names, whatever the call says. */
  lemma AllowedPublishIsListed(w: Resolvers, c: OperationConstraints, inner: Json)
    requires c.packages.Some? && CheckArgs(w, "kvendra.npm", "publish", c, inner).Allow?
    ensures exists cwd, name, p ::
              && GetString(inner, "cwd") == Some(cwd) && w.npmPackageName(cwd) == Some(name)
              && p in c.packages.value && GlobMatches(p, name)
  {
    hide CheckArgs, DenylistHit, UrlPermitted, MethodPermitted, BucketsPermitted, FieldPermitted, BinaryPermitted,
         TagPermitted, FieldsPermitted, TargetPermitted, CwdPermitted, ArgvPermitted, EnvPermitted, LocalsPermitted,
         GlobMatches, GetString;
    VerdictIsConjunction(w, "kvendra.npm", "publish", c, inner);
    var cwd := GetString(inner, "cwd").value;
    var name := w.npmPackageName(cwd).value;
    var p :| p in c.packages.value && GlobMatches(p, name);
  }

  /** Any other allowed call that names a package names a listed one. */
  lemma AllowedPackageIsListed(
      w: Resolvers, primitive: string, operation: string, c: OperationConstraints, inner: Json, name: string)
    requires primitive != "kvendra.npm" || operation != "publish"
    requires c.packages.Some? && GetString(inner, "package") == Some(name)
    requires CheckArgs(w, primitive, operation, c, inner).Allow?
    ensures exists p :: p in c.packages.value && GlobMatches(p, name)
  {
    hide CheckArgs, DenylistHit, UrlPermitted, MethodPermitted, BucketsPermitted, FieldPermitted, BinaryPermitted,
         TagPermitted, FieldsPermitted, TargetPermitted, CwdPermitted, ArgvPermitted, EnvPermitted, LocalsPermitted,
         GlobMatches, GetString;
    VerdictIsConjunction(w, primitive, operation, c, inner);
  }
}
