/**
 The local side of a brokered transfer: which strings of a call are local
 paths, and when a path lies inside the declared roots
 (src/primitives/local_operand.rs).
 */
module LocalOperand {
  import opened Wrappers
  import opened StringSearch
  import opened AllowlistDsl

  datatype S3Operand = Remote(bucket: string) | Local(path: string) | Malformed

  function ClassifyS3Operand(s: string): S3Operand {
    if s == "" then Malformed
    else if "s3://" <= s then
      var rest := s[5..];
      var bucket := match Find(rest, '/') case Some(i) => rest[..i] case None => rest;
      if bucket == "" then Malformed else Remote(bucket)
    else if FindScheme(s).Some? || "s3:" <= Lower(s) then Malformed
    else Local(s)
  }

  /** The wire fields that carry a local operand. */
  function LocalFields(primitive: string, operation: string): seq<string> {
    if primitive == "kvendra.aws" && (operation == "s3_sync" || operation == "s3_cp") then ["src", "dst"]
    else if primitive == "kvendra.git" && operation == "clone" then ["dst"]
    else if primitive == "kvendra.pypi" && operation == "upload" then ["dist"]
    else []
  }

  /** The local paths of a call in field order; None when one cannot be determined. */
  function LocalPaths(primitive: string, inner: Json, fields: seq<string>): Option<seq<string>> {
    if fields == [] then Some([])
    else
      match GetString(inner, fields[0])
      case None => if primitive == "kvendra.git" then None else LocalPaths(primitive, inner, fields[1..])
      case Some(v) =>
        var operand := if primitive == "kvendra.aws" then ClassifyS3Operand(v) else Local(v);
        match operand
        case Malformed => None
        case Remote(_) => LocalPaths(primitive, inner, fields[1..])
        case Local(path) =>
          match LocalPaths(primitive, inner, fields[1..])
          case None => None
          case Some(paths) => Some([path] + paths)
  }

  // ---------------------------------------------------------------------
  // Containment in the declared roots
  // ---------------------------------------------------------------------

  /** A canonical absolute path by its components; the filesystem root has none. */
  type Path = seq<string>

  /**
   What the file system answers: the canonical form of what resolves, whether
   a name exists without being followed, and the two halves of a path.
   */
  datatype FileSystem = FileSystem(
    isAbsolute: string -> bool,
    canonicalize: string -> Option<Path>,
    entryExists: string -> bool,
    fileName: string -> Option<string>,
    parentOrHere: string -> string)

  /** `resolve_local_path`: a leaf that does not exist yet is placed under its parent. */
  function ResolveLocalPath(files: FileSystem, p: string): Option<Path> {
    if p == "" then None
    else if files.canonicalize(p).Some? then files.canonicalize(p)
    else if files.entryExists(p) then None
    else
      match (files.fileName(p), files.canonicalize(files.parentOrHere(p)))
      case (Some(leaf), Some(parent)) => Some(parent + [leaf])
      case _ => None
  }

  /** A root that makes the whole check fail: the filesystem root without broad scope, or a dangling link. */
  predicate BadRoot(files: FileSystem, root: string, broad: bool) {
    && files.isAbsolute(root)
    && match files.canonicalize(root)
       case Some(path) => path == [] && !broad
       case None => files.entryExists(root)
  }

  /** The operand resolves to the root or below it. */
  predicate Inside(files: FileSystem, operand: string, root: string) {
    && files.isAbsolute(root)
    && files.canonicalize(root).Some?
    && ResolveLocalPath(files, operand).Some?
    && files.canonicalize(root).value <= ResolveLocalPath(files, operand).value
  }

  predicate Usable(files: FileSystem, roots: seq<string>, broad: bool) {
    forall root :: root in roots ==> !BadRoot(files, root, broad)
  }

  /** What `is_within_roots` answers, whatever the order of the roots; None is its error. */
  function WithinRoots(files: FileSystem, operand: string, roots: seq<string>, broad: bool): Option<bool> {
    if Usable(files, roots, broad) then Some(exists root :: root in roots && Inside(files, operand, root)) else None
  }

  /** `is_within_roots`: canonicalize root by root, give up on a bad one, then look for a prefix. */
  method IsWithinRoots(files: FileSystem, operand: string, roots: seq<string>, broad: bool) returns (r: Option<bool>)
    ensures r == WithinRoots(files, operand, roots, broad)
  {
    var canonicalRoots: seq<Path> := [];
    for i := 0 to |roots|
      invariant Usable(files, roots[..i], broad)
      invariant forall j :: 0 <= j < i && files.isAbsolute(roots[j]) && files.canonicalize(roots[j]).Some?
                            ==> files.canonicalize(roots[j]).value in canonicalRoots
      invariant forall path :: path in canonicalRoots ==>
                  exists j :: 0 <= j < i && files.isAbsolute(roots[j]) && files.canonicalize(roots[j]) == Some(path)
    {
      var root := roots[i];
      assert roots[..i + 1] == roots[..i] + [root];
      if files.isAbsolute(root) {
        var path := files.canonicalize(root);
        if path.Some? {
          if path.value == [] && !broad {
            assert BadRoot(files, root, broad) && root in roots;
            return None;
          }
          canonicalRoots := canonicalRoots + [path.value];
        } else if files.entryExists(root) {
          assert BadRoot(files, root, broad) && root in roots;
          return None;
        }
      }
    }
    assert roots[..|roots|] == roots;
    var resolved := ResolveLocalPath(files, operand);
    if resolved.None? {
      return Some(false);
    }
    r := Some(exists path :: path in canonicalRoots && path <= resolved.value);
    if r.value {
      var path :| path in canonicalRoots && path <= resolved.value;
      var j :| 0 <= j < |roots| && files.isAbsolute(roots[j]) && files.canonicalize(roots[j]) == Some(path);
      assert roots[j] in roots && Inside(files, operand, roots[j]);
    }
  }

  /** Opening more roots keeps a path inside exactly as long as every root is usable. */
  lemma MoreRoots(files: FileSystem, operand: string, a: seq<string>, aBroad: bool, b: seq<string>, bBroad: bool)
    requires (forall root :: root in a ==> root in b) && (aBroad ==> bBroad)
    requires WithinRoots(files, operand, a, aBroad) == Some(true)
    ensures WithinRoots(files, operand, b, bBroad) == if Usable(files, b, bBroad) then Some(true) else None
  {
  }
}
