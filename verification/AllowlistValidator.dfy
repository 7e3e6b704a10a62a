/** Static validation of a profile before it is signed or used (src/allowlist/validator.rs). */
module AllowlistValidator {
  import opened Wrappers
  import opened StringSearch
  import opened Glob
  import opened RepoCanonical
  import opened AllowlistDsl
  import opened LocalOperand
  import opened Enforcer
  import opened DestructiveCatalog

  const BROAD_SCOPE_CANARIES: seq<string> := [
    "https://canary-8f3a2b9c.invalid/probe",
    "http://c4n4ry.attacker.test/x?y=z",
    "https://192.0.2.77/latest/meta-data/",
    "ftp://nope.invalid/",
    "https://c4n4ry-9f2b7a.com/probe",
    "https://c4n4ry-9f2b7a.net/probe",
    "https://c4n4ry-9f2b7a.org/probe",
    "https://c4n4ry-9f2b7a.io/probe",
    "https://c4n4ry-9f2b7a.dev/probe",
    "https://c4n4ry-9f2b7a.co/probe",
    "http://c4n4ry-9f2b7a.com/probe",
    "http://c4n4ry-9f2b7a.net/probe",
    "http://c4n4ry-9f2b7a.org/probe",
    "http://c4n4ry-9f2b7a.io/probe",
    "http://attacker@c4n4ry-9f2b7a.com/probe"
  ]

  datatype Reason =
    | UnenforceableProjects | EmptyMethods | WildcardEndpoint | UrlPatternRequired | EmptyUrlPattern
    | InvalidUrlPattern | HostUnrestricted | UserinfoInHost | MethodsRequired

  datatype Refusal =
    | EmptyProfileId
    | NoPrimitives
    | EmptyPrimitiveName
    | NoOperations(primitive: string)
    | BadConstraints(primitive: string, operation: string, why: Reason)
    | DestructiveWithoutOptIn(violations: seq<(string, string)>)

  /** The two questions put to the regex engine. */
  datatype RegexEngine = RegexEngine(compiles: string -> bool, urlMatches: (string, string) -> bool)

  // ---------------------------------------------------------------------
  // Constraint rules
  // ---------------------------------------------------------------------

  function UpToSlash(s: string): string {
    match Find(s, '/')
    case Some(j) => s[..j]
    case None => s
  }

  /** A `@` before the first slash after the scheme of a URL pattern. */
  predicate UserinfoFloats(pattern: string) {
    match FindScheme(pattern)
    case None => false
    case Some(i) => '@' in UpToSlash(pattern[i + 3..])
  }

  /** The loop over `url_pattern_regex`. */
  function CheckUrlPatterns(engine: RegexEngine, broad: bool, patterns: seq<string>): Option<Reason> {
    if patterns == [] then None
    else if !engine.compiles(patterns[0]) then Some(InvalidUrlPattern)
    else if !broad && exists canary :: canary in BROAD_SCOPE_CANARIES && engine.urlMatches(patterns[0], canary) then
      Some(HostUnrestricted)
    else if !broad && UserinfoFloats(patterns[0]) then Some(UserinfoInHost)
    else CheckUrlPatterns(engine, broad, patterns[1..])
  }

  function CheckConstraints(
      engine: RegexEngine, primitive: string, operation: string, c: OperationConstraints): Option<Reason> {
    var broad := IsSet(c.acceptBroadScope);
    if primitive == "kvendra.pypi" && operation == "upload" && c.projects.Some? then Some(UnenforceableProjects)
    else if c.methods == Some([]) && !broad then Some(EmptyMethods)
    else if c.endpoints.Some? && "*" in c.endpoints.value && !broad then Some(WildcardEndpoint)
    else if primitive != HTTP then None
    else
      var patterns :=
        match c.urlPatternRegex
        case None => if broad then None else Some(UrlPatternRequired)
        case Some(list) =>
          if list == [] && !broad then Some(EmptyUrlPattern) else CheckUrlPatterns(engine, broad, list);
      if patterns.Some? then patterns
      else if c.methods.None? && !broad then Some(MethodsRequired)
      else None
  }

  function CheckEntries(engine: RegexEngine, primitive: string, entries: Operation): Option<Refusal> {
    if entries == [] then None
    else
      match CheckConstraints(engine, primitive, entries[0].0, entries[0].1)
      case Some(why) => Some(BadConstraints(primitive, entries[0].0, why))
      case None => CheckEntries(engine, primitive, entries[1..])
  }

  function CheckOperations(engine: RegexEngine, primitive: string, operations: seq<Operation>): Option<Refusal> {
    if operations == [] then None
    else
      match CheckEntries(engine, primitive, operations[0])
      case Some(refusal) => Some(refusal)
      case None => CheckOperations(engine, primitive, operations[1..])
  }

  function CheckPrimitives(engine: RegexEngine, primitives: seq<PrimitiveAllow>): Option<Refusal> {
    if primitives == [] then None
    else
      var prim := primitives[0];
      if prim.name == "" then Some(EmptyPrimitiveName)
      else if prim.name == RAW_TOKEN then CheckPrimitives(engine, primitives[1..])
      else if prim.operations == [] then Some(NoOperations(prim.name))
      else
        match CheckOperations(engine, prim.name, prim.operations)
        case Some(refusal) => Some(refusal)
        case None => CheckPrimitives(engine, primitives[1..])
  }

  // ---------------------------------------------------------------------
  // Destructive opt-in
  // ---------------------------------------------------------------------

  predicate LacksOptIn(primitive: string, operation: string, c: OperationConstraints) {
    (CouldBeDestructive(primitive, operation, c) || IsSet(c.destructive)) && !IsSet(c.acceptDestructive)
  }

  function EntryViolations(primitive: string, entries: Operation): seq<(string, string)> {
    if entries == [] then []
    else
      var n := |entries| - 1;
      EntryViolations(primitive, entries[..n])
      + if LacksOptIn(primitive, entries[n].0, entries[n].1) then [(primitive, entries[n].0)] else []
  }

  function OperationViolations(primitive: string, operations: seq<Operation>): seq<(string, string)> {
    if operations == [] then []
    else
      OperationViolations(primitive, operations[..|operations| - 1])
      + EntryViolations(primitive, operations[|operations| - 1])
  }

  function Violations(primitives: seq<PrimitiveAllow>): seq<(string, string)> {
    if primitives == [] then []
    else
      var prim := primitives[|primitives| - 1];
      Violations(primitives[..|primitives| - 1])
      + if prim.name == RAW_TOKEN then [] else OperationViolations(prim.name, prim.operations)
  }

  /** The innermost loop of `validate_destructive_opt_in`. */
  method CollectEntries(primitive: string, entries: Operation, found: seq<(string, string)>)
    returns (violations: seq<(string, string)>)
    ensures violations == found + EntryViolations(primitive, entries)
  {
    hide LacksOptIn;
    violations := found;
    for k := 0 to |entries|
      invariant violations == found + EntryViolations(primitive, entries[..k])
    {
      var (name, c) := entries[k];
      assert entries[..k + 1][..k] == entries[..k];
      if LacksOptIn(primitive, name, c) {
        violations := violations + [(primitive, name)];
      }
    }
    assert entries[..|entries|] == entries;
  }

  /** The loop over one primitive's operations. */
  method CollectOperations(prim: PrimitiveAllow, found: seq<(string, string)>)
    returns (violations: seq<(string, string)>)
    ensures violations == found + OperationViolations(prim.name, prim.operations)
  {
    hide EntryViolations;
    violations := found;
    for j := 0 to |prim.operations|
      invariant violations == found + OperationViolations(prim.name, prim.operations[..j])
    {
      assert prim.operations[..j + 1][..j] == prim.operations[..j];
      violations := CollectEntries(prim.name, prim.operations[j], violations);
    }
    assert prim.operations[..|prim.operations|] == prim.operations;
  }

  /** `validate_destructive_opt_in`: collects every violation, not only the first. */
  method ValidateDestructiveOptIn(spec: ProfileSpec) returns (r: Option<Refusal>)
    ensures r == if Violations(spec.primitives) == [] then None
                 else Some(DestructiveWithoutOptIn(Violations(spec.primitives)))
  {
    hide OperationViolations;
    var violations: seq<(string, string)> := [];
    for i := 0 to |spec.primitives|
      invariant violations == Violations(spec.primitives[..i])
    {
      assert spec.primitives[..i + 1][..i] == spec.primitives[..i];
      if spec.primitives[i].name != RAW_TOKEN {
        violations := CollectOperations(spec.primitives[i], violations);
      }
    }
    assert spec.primitives[..|spec.primitives|] == spec.primitives;
    r := if violations == [] then None else Some(DestructiveWithoutOptIn(violations));
  }

  lemma {:induction false} NoEntryViolations(primitive: string, entries: Operation)
    ensures EntryViolations(primitive, entries) == [] <==> forall e :: e in entries ==> !LacksOptIn(primitive, e.0, e.1)
  {
    hide LacksOptIn;
    if entries != [] {
      var n := |entries| - 1;
      NoEntryViolations(primitive, entries[..n]);
      assert entries == entries[..n] + [entries[n]];
    }
  }

  lemma {:induction false} NoOperationViolations(primitive: string, operations: seq<Operation>)
    ensures OperationViolations(primitive, operations) == [] <==>
            forall o, e :: o in operations && e in o ==> !LacksOptIn(primitive, e.0, e.1)
  {
    hide LacksOptIn, EntryViolations;
    if operations != [] {
      var n := |operations| - 1;
      NoOperationViolations(primitive, operations[..n]);
      NoEntryViolations(primitive, operations[n]);
      assert operations == operations[..n] + [operations[n]];
    }
  }

  lemma {:induction false} NoViolations(primitives: seq<PrimitiveAllow>)
    ensures Violations(primitives) == [] <==>
            forall prim, o, e :: prim in primitives && prim.name != RAW_TOKEN && o in prim.operations && e in o
                                 ==> !LacksOptIn(prim.name, e.0, e.1)
  {
    hide LacksOptIn, OperationViolations;
    if primitives != [] {
      var n := |primitives| - 1;
      NoViolations(primitives[..n]);
      NoOperationViolations(primitives[n].name, primitives[n].operations);
      assert primitives == primitives[..n] + [primitives[n]];
    }
  }

  /** `validate`: None when the profile is accepted. */
  function Validate(engine: RegexEngine, spec: ProfileSpec): Option<Refusal> {
    if spec.profileId == "" then Some(EmptyProfileId)
    else if spec.primitives == [] then Some(NoPrimitives)
    else
      match CheckPrimitives(engine, spec.primitives)
      case Some(refusal) => Some(refusal)
      case None =>
        if Violations(spec.primitives) == [] then None else Some(DestructiveWithoutOptIn(Violations(spec.primitives)))
  }

  // ---------------------------------------------------------------------
  // What an accepted profile satisfies
  // ---------------------------------------------------------------------

  lemma {:induction false} CheckEntriesMeaning(engine: RegexEngine, primitive: string, entries: Operation)
    ensures CheckEntries(engine, primitive, entries).None? <==>
            forall e :: e in entries ==> CheckConstraints(engine, primitive, e.0, e.1).None?
  {
    hide CheckConstraints;
    if entries != [] {
      CheckEntriesMeaning(engine, primitive, entries[1..]);
      assert entries == [entries[0]] + entries[1..];
    }
  }

  lemma {:induction false} CheckOperationsMeaning(engine: RegexEngine, primitive: string, operations: seq<Operation>)
    ensures CheckOperations(engine, primitive, operations).None? <==>
            forall o, e :: o in operations && e in o ==> CheckConstraints(engine, primitive, e.0, e.1).None?
  {
    hide CheckConstraints;
    if operations != [] {
      CheckEntriesMeaning(engine, primitive, operations[0]);
      CheckOperationsMeaning(engine, primitive, operations[1..]);
      assert operations == [operations[0]] + operations[1..];
    }
  }

  ghost predicate WellFormed(engine: RegexEngine, prim: PrimitiveAllow) {
    && prim.name != ""
    && (prim.name != RAW_TOKEN ==>
          && prim.operations != []
          && forall o, e :: o in prim.operations && e in o ==> CheckConstraints(engine, prim.name, e.0, e.1).None?)
  }

  lemma {:induction false} CheckPrimitivesMeaning(engine: RegexEngine, primitives: seq<PrimitiveAllow>)
    ensures CheckPrimitives(engine, primitives).None? <==>
            forall prim :: prim in primitives ==> WellFormed(engine, prim)
  {
    hide CheckConstraints, CheckOperations;
    if primitives != [] {
      CheckOperationsMeaning(engine, primitives[0].name, primitives[0].operations);
      CheckPrimitivesMeaning(engine, primitives[1..]);
      assert CheckPrimitives(engine, primitives).None? <==>
             WellFormed(engine, primitives[0]) && CheckPrimitives(engine, primitives[1..]).None?;
      assert primitives == [primitives[0]] + primitives[1..];
    }
  }

  /** An operation that could be destructive, or is declared so, carries the owner's acceptance. */
  predicate OptedIn(primitive: string, operation: string, c: OperationConstraints) {
    CouldBeDestructive(primitive, operation, c) || c.destructive == Some(true) ==> c.acceptDestructive == Some(true)
  }

  /** Which profiles `validate` accepts, whatever the order of its checks. */
  lemma ValidateAccepts(engine: RegexEngine, spec: ProfileSpec)
    ensures Validate(engine, spec).None? <==>
            && spec.profileId != "" && spec.primitives != []
            && forall prim :: prim in spec.primitives ==>
                 && WellFormed(engine, prim)
                 && (prim.name != RAW_TOKEN ==>
                       forall o, e :: o in prim.operations && e in o ==> OptedIn(prim.name, e.0, e.1))
  {
    hide WellFormed, CouldBeDestructive, CheckPrimitives, Violations;
    CheckPrimitivesMeaning(engine, spec.primitives);
    NoViolations(spec.primitives);
  }

  lemma {:induction false} CheckUrlPatternsMeaning(engine: RegexEngine, broad: bool, patterns: seq<string>)
    ensures CheckUrlPatterns(engine, broad, patterns).None? <==>
            forall p :: p in patterns ==> engine.compiles(p) && (broad || PinsHost(engine, p))
  {
    hide UserinfoFloats;
    if patterns != [] {
      CheckUrlPatternsMeaning(engine, broad, patterns[1..]);
      assert patterns == [patterns[0]] + patterns[1..];
    }
  }

  /** A URL pattern that no canary matches and whose host no userinfo can shift. */
  predicate PinsHost(engine: RegexEngine, pattern: string) {
    !UserinfoFloats(pattern) && forall canary :: canary in BROAD_SCOPE_CANARIES ==> !engine.urlMatches(pattern, canary)
  }

  /** Which HTTP operations the constraint rules accept. */
  lemma HttpRulesMeaning(engine: RegexEngine, operation: string, c: OperationConstraints)
    ensures CheckConstraints(engine, HTTP, operation, c).None? <==>
            && (c.urlPatternRegex.Some? ==> forall p :: p in c.urlPatternRegex.value ==> engine.compiles(p))
            && (!IsSet(c.acceptBroadScope) ==>
                  && c.methods.Some? && c.methods.value != []
                  && !(c.endpoints.Some? && "*" in c.endpoints.value)
                  && c.urlPatternRegex.Some? && c.urlPatternRegex.value != []
                  && forall p :: p in c.urlPatternRegex.value ==> PinsHost(engine, p))
  {
    hide CheckUrlPatterns, PinsHost;
    assert |HTTP| == |"kvendra.pypi"| && HTTP[8] == 'h' && "kvendra.pypi"[8] == 'p';
    if c.urlPatternRegex.Some? {
      CheckUrlPatternsMeaning(engine, IsSet(c.acceptBroadScope), c.urlPatternRegex.value);
    }
  }

  /** Which operations of the other primitives the constraint rules accept. */
  lemma OtherRulesMeaning(engine: RegexEngine, primitive: string, operation: string, c: OperationConstraints)
    requires primitive != "kvendra.http"
    ensures CheckConstraints(engine, primitive, operation, c).None? <==>
            && !(primitive == "kvendra.pypi" && operation == "upload" && c.projects.Some?)
            && (!IsSet(c.acceptBroadScope) ==>
                  c.methods != Some([]) && !(c.endpoints.Some? && "*" in c.endpoints.value))
  {
  }

  /** What each refusal of the constraint rules says of the operation; only the first two are about well-formedness. */
  lemma RuleRefusal(engine: RegexEngine, primitive: string, operation: string, c: OperationConstraints)
    requires CheckConstraints(engine, primitive, operation, c).Some?
    ensures var why := CheckConstraints(engine, primitive, operation, c).value;
            && (why != UnenforceableProjects && why != InvalidUrlPattern ==> !IsSet(c.acceptBroadScope))
            && match why
               case UnenforceableProjects => primitive == "kvendra.pypi" && operation == "upload" && c.projects.Some?
               case EmptyMethods => c.methods == Some([])
               case WildcardEndpoint => c.endpoints.Some? && "*" in c.endpoints.value
               case UrlPatternRequired => primitive == "kvendra.http" && c.urlPatternRegex.None?
               case EmptyUrlPattern => primitive == "kvendra.http" && c.urlPatternRegex == Some([])
               case InvalidUrlPattern =>
                 primitive == "kvendra.http" && c.urlPatternRegex.Some?
                 && exists p :: p in c.urlPatternRegex.value && !engine.compiles(p)
               case HostUnrestricted =>
                 primitive == "kvendra.http" && c.urlPatternRegex.Some?
                 && exists p, canary :: p in c.urlPatternRegex.value && canary in BROAD_SCOPE_CANARIES
                                        && engine.urlMatches(p, canary)
               case UserinfoInHost =>
                 primitive == "kvendra.http" && c.urlPatternRegex.Some?
                 && exists p :: p in c.urlPatternRegex.value && FloatsUserinfo(p)
               case MethodsRequired => primitive == "kvendra.http" && c.methods.None?
  {
    hide UserinfoFloats;
    if c.urlPatternRegex.Some? {
      PatternRefusal(engine, IsSet(c.acceptBroadScope), c.urlPatternRegex.value);
    }
  }

  lemma {:induction false} PatternRefusal(engine: RegexEngine, broad: bool, patterns: seq<string>)
    ensures var r := CheckUrlPatterns(engine, broad, patterns);
            r.Some? ==>
              match r.value
              case InvalidUrlPattern => exists p :: p in patterns && !engine.compiles(p)
              case HostUnrestricted =>
                !broad && exists p, canary :: p in patterns && canary in BROAD_SCOPE_CANARIES
                                              && engine.urlMatches(p, canary)
              case UserinfoInHost => !broad && exists p :: p in patterns && FloatsUserinfo(p)
              case _ => false
  {
    hide UserinfoFloats, FloatsUserinfo;
    if patterns != [] {
      PatternRefusal(engine, broad, patterns[1..]);
      UserinfoIsExact(patterns[0]);
      assert patterns == [patterns[0]] + patterns[1..];
      assert patterns[0] in patterns;
    }
  }

  /** An `@` in the authority of a URL pattern: after its first scheme mark and before the next slash. */
  ghost predicate FloatsUserinfo(pattern: string) {
    exists scheme, before, after, rest :: HasUserinfo(pattern, scheme, before, after, rest)
  }

  predicate HasUserinfo(pattern: string, scheme: string, before: string, after: string, rest: string) {
    && pattern == scheme + "://" + (before + "@" + after + rest)
    && (forall i: nat :: i < |scheme| ==> !SchemeMark(pattern, i))
    && '/' !in before + after && (rest != "" ==> rest[0] == '/')
  }

  lemma UserinfoIsExact(pattern: string)
    ensures UserinfoFloats(pattern) <==> FloatsUserinfo(pattern)
  {
    hide UserinfoFloats, HasUserinfo;
    if UserinfoFloats(pattern) {
      UserinfoFound(pattern);
    }
    if FloatsUserinfo(pattern) {
      var scheme, before, after, rest :| HasUserinfo(pattern, scheme, before, after, rest);
      UserinfoSeen(pattern, scheme, before, after, rest);
    }
  }

  lemma UserinfoFound(pattern: string)
    requires UserinfoFloats(pattern)
    ensures FloatsUserinfo(pattern)
  {
    hide HasUserinfo, UpToSlash;
    var i := FindScheme(pattern).value;
    var tail := pattern[i + 3..];
    var n := UpToSlashShape(tail);
    var k :| 0 <= k < n && tail[..n][k] == '@';
    UserinfoAt(pattern, i, tail, n, k);
  }

  lemma UpToSlashShape(s: string) returns (n: nat)
    ensures n <= |s| && UpToSlash(s) == s[..n] && '/' !in s[..n] && (n < |s| ==> s[n] == '/')
  {
    n := match Find(s, '/') case Some(j) => j case None => |s|;
    assert s[..|s|] == s;
  }

  lemma UserinfoAt(pattern: string, i: nat, tail: string, n: nat, k: nat)
    requires SchemeMark(pattern, i) && (forall j: nat :: j < i ==> !SchemeMark(pattern, j)) && tail == pattern[i + 3..]
    requires k < n <= |tail| && tail[k] == '@' && '/' !in tail[..n] && (n < |tail| ==> tail[n] == '/')
    ensures HasUserinfo(pattern, pattern[..i], tail[..k], tail[k + 1..n], tail[n..])
  {
    SplitAround(tail, n, k);
    AuthorityHalves(tail, n, k);
    assert pattern == pattern[..i] + "://" + tail;
  }

  lemma SplitAround(tail: string, n: nat, k: nat)
    requires k < n <= |tail| && tail[k] == '@'
    ensures tail == tail[..k] + "@" + tail[k + 1..n] + tail[n..]
  {
  }

  lemma AuthorityHalves(tail: string, n: nat, k: nat)
    requires k < n <= |tail| && '/' !in tail[..n]
    ensures '/' !in tail[..k] + tail[k + 1..n]
  {
    assert forall c :: c in tail[..k] || c in tail[k + 1..n] ==> c in tail[..n];
  }

  lemma UserinfoSeen(pattern: string, scheme: string, before: string, after: string, rest: string)
    requires HasUserinfo(pattern, scheme, before, after, rest)
    ensures UserinfoFloats(pattern)
  {
    var tail, authority := before + "@" + after + rest, before + "@" + after;
    assert SchemeMark(pattern, |scheme|) && FindScheme(pattern) == Some(|scheme|);
    assert pattern[|scheme| + 3..] == tail;
    assert '/' !in authority && authority[|before|] == '@';
    assert tail == authority + rest;
    if rest != "" {
      assert tail[|authority|] == '/' && tail[..|authority|] == authority;
      FoundAt(tail, '/', |authority|);
    } else {
      assert tail == authority;
    }
  }

  // ---------------------------------------------------------------------
  // Which refusal of a profile
  // ---------------------------------------------------------------------

  /** The complaint is about this primitive. */
  ghost predicate Faults(engine: RegexEngine, prim: PrimitiveAllow, refusal: Refusal) {
    match refusal
    case EmptyPrimitiveName => prim.name == ""
    case NoOperations(name) => name == prim.name && name != RAW_TOKEN && prim.operations == []
    case BadConstraints(name, operation, why) =>
      name == prim.name && name != RAW_TOKEN
      && exists o, c :: o in prim.operations && (operation, c) in o
                        && CheckConstraints(engine, name, operation, c) == Some(why)
    case _ => false
  }

  lemma {:induction false} EntriesRefusal(engine: RegexEngine, primitive: string, entries: Operation)
    ensures var r := CheckEntries(engine, primitive, entries);
            r.Some? ==> r.value.BadConstraints? && r.value.primitive == primitive
                        && exists c :: (r.value.operation, c) in entries
                                       && CheckConstraints(engine, primitive, r.value.operation, c) == Some(r.value.why)
  {
    hide CheckConstraints;
    if entries != [] {
      EntriesRefusal(engine, primitive, entries[1..]);
      assert entries == [entries[0]] + entries[1..];
      assert (entries[0].0, entries[0].1) in entries;
    }
  }

  lemma {:induction false} OperationsRefusal(engine: RegexEngine, primitive: string, operations: seq<Operation>)
    ensures var r := CheckOperations(engine, primitive, operations);
            r.Some? ==> r.value.BadConstraints? && r.value.primitive == primitive
                        && exists o, c :: o in operations && (r.value.operation, c) in o
                                          && CheckConstraints(engine, primitive, r.value.operation, c)
                                             == Some(r.value.why)
  {
    hide CheckConstraints;
    if operations != [] {
      EntriesRefusal(engine, primitive, operations[0]);
      OperationsRefusal(engine, primitive, operations[1..]);
      assert operations[0] in operations && forall o :: o in operations[1..] ==> o in operations;
    }
  }

  /** The first primitive that is not well-formed is the one complained about. */
  lemma {:induction false} PrimitivesRefusal(engine: RegexEngine, primitives: seq<PrimitiveAllow>) returns (i: nat)
    ensures var r := CheckPrimitives(engine, primitives);
            r.Some? ==> i < |primitives| && Faults(engine, primitives[i], r.value)
                        && forall j :: 0 <= j < i ==> WellFormed(engine, primitives[j])
  {
    hide CheckConstraints;
    i := 0;
    if primitives != [] {
      OperationsRefusal(engine, primitives[0].name, primitives[0].operations);
      CheckOperationsMeaning(engine, primitives[0].name, primitives[0].operations);
      if WellFormed(engine, primitives[0]) {
        var k := PrimitivesRefusal(engine, primitives[1..]);
        i := k + 1;
        assert forall j :: 0 < j < |primitives| ==> primitives[j] == primitives[1..][j - 1];
      }
    }
  }

  /** The refusals of a whole profile, in their order. */
  lemma ValidateRefusal(engine: RegexEngine, spec: ProfileSpec)
    ensures Validate(engine, spec) == Some(EmptyProfileId) <==> spec.profileId == ""
    ensures Validate(engine, spec) == Some(NoPrimitives) <==> spec.profileId != "" && spec.primitives == []
    ensures forall v :: Validate(engine, spec) == Some(DestructiveWithoutOptIn(v)) ==>
              v == Violations(spec.primitives) != []
              && forall prim :: prim in spec.primitives ==> WellFormed(engine, prim)
    ensures Validate(engine, spec).Some? && spec.profileId != "" && spec.primitives != []
            && !Validate(engine, spec).value.DestructiveWithoutOptIn? ==>
              exists i :: 0 <= i < |spec.primitives| && Faults(engine, spec.primitives[i], Validate(engine, spec).value)
                          && forall j :: 0 <= j < i ==> WellFormed(engine, spec.primitives[j])
  {
    hide WellFormed, CheckConstraints, CheckPrimitives, Violations;
    CheckPrimitivesMeaning(engine, spec.primitives);
    var i := PrimitivesRefusal(engine, spec.primitives);
  }

  /** The operation a call runs under has passed both rules of the validator. */
  lemma AcceptedOperation(engine: RegexEngine, spec: ProfileSpec, primitive: string, operation: string)
    requires Validate(engine, spec).None? && primitive != RAW_TOKEN
    ensures var c := OperationConstraintsOf(spec, primitive, operation);
            c.Some? ==> CheckConstraints(engine, primitive, operation, c.value).None?
                        && OptedIn(primitive, operation, c.value)
  {
    hide Validate, CheckConstraints, OptedIn;
    ValidateAccepts(engine, spec);
    var c := OperationConstraintsOf(spec, primitive, operation);
    if c.Some? {
      var prim := FindPrimitive(spec.primitives, primitive).value;
      var o :| o in prim.operations && (operation, c.value) in o;
      var e := (operation, c.value);
      assert WellFormed(engine, prim) && e in o;
    }
  }

  /**
   Signing rule and run time agree on the canaries: under an accepted profile
   without broad scope, a call to one is denied unless the owner listed that
   very URL as an endpoint.
   */
  lemma CanariesAreDenied(
      w: Resolvers, engine: RegexEngine, spec: ProfileSpec, operation: string, envelope: Json, canary: string)
    requires Validate(engine, spec).None? && engine.urlMatches == w.urlRegex
    requires canary in BROAD_SCOPE_CANARIES && GetString(InnerArgs(envelope), "url") == Some(canary)
    requires Check(w, spec, HTTP, operation, envelope).Allow?
    ensures var c := OperationConstraintsOf(spec, HTTP, operation);
            && c.Some?
            && (IsSet(c.value.acceptBroadScope) || (c.value.endpoints.Some? && canary in c.value.endpoints.value))
  {
    hide CheckArgs, CheckConstraints, OptedIn, Validate;
    assert HTTP != RAW_TOKEN by {
      assert |HTTP| != |RAW_TOKEN|;
    }
    AcceptedOperation(engine, spec, HTTP, operation);
    var c := OperationConstraintsOf(spec, HTTP, operation).value;
    HttpRulesMeaning(engine, operation, c);
    AllowedUrl(w, operation, c, InnerArgs(envelope));
  }

  lemma AllowedUrl(w: Resolvers, operation: string, c: OperationConstraints, inner: Json)
    requires CheckArgs(w, HTTP, operation, c, inner).Allow?
    ensures UrlPermitted(w, c, inner)
  {
    hide CheckArgs, DenylistHit, UrlPermitted;
    VerdictIsConjunction(w, HTTP, operation, c, inner);
  }

  // ---------------------------------------------------------------------
  // The static rule over-approximates the run time
  // ---------------------------------------------------------------------

  /** What makes the static reading of an operation cover its calls. */
  predicate MethodsReadable(primitive: string, c: OperationConstraints) {
    primitive == HTTP ==> c.methods.Some?
  }

  /** A destructive call the enforcer lets through was foreseeable from the constraints. */
  lemma DestructiveWasForeseeable(
      w: Resolvers, primitive: string, operation: string, c: OperationConstraints, inner: Json)
    requires CheckArgs(w, primitive, operation, c, inner).Allow?
    requires IsDestructive(primitive, operation, inner)
    requires MethodsReadable(primitive, c)
    ensures CouldBeDestructive(primitive, operation, c)
  {
    hide CheckArgs, DenylistHit;
    if !IsUnclassified(primitive, operation) {
      var rule :|
          rule in CATALOG && rule.kind == Destructive && Covers(rule, primitive, operation) && Holds(rule.when, inner);
      if primitive == HTTP {
        HttpRules(rule);
        VerdictIsConjunction(w, primitive, operation, c, inner);
        DeclaredMutates(c, inner);
      }
    }
  }

  /** A mutating method that passes the `methods` list has a mutating entry in it. */
  lemma DeclaredMutates(c: OperationConstraints, inner: Json)
    requires c.methods.Some? && MethodPermitted(c, inner) && Holds(MethodMutates, inner)
    ensures Holds(MethodMutates, ConstraintsToArgs(c))
  {
    var m := GetString(inner, "method").value;
    var declared :| declared in c.methods.value && EqualIgnoringCase(declared, m);
    SameUpper(declared, m);
    assert IsMutating(declared);
    SynthesizedMutates(c);
  }

  /**
   If a profile validates and a call passes the enforcer, is not the raw-token
   hatch and is destructive, the matched operation carries the owner's opt-in:
   always outside HTTP, and for HTTP unless broad scope was accepted with
   neither methods declared nor the mutating ones forbidden.
   */
  lemma OptInCoversRuntime(
      w: Resolvers, engine: RegexEngine, spec: ProfileSpec, primitive: string, operation: string, envelope: Json)
    requires Validate(engine, spec).None?
    requires Check(w, spec, primitive, operation, envelope).Allow?
    requires primitive != RAW_TOKEN
    requires IsDestructive(primitive, operation, InnerArgs(envelope))
    ensures var c := OperationConstraintsOf(spec, primitive, operation);
            && c.Some?
            && (MethodsReadable(primitive, c.value) || !IsSet(c.value.acceptBroadScope) || MutatingForbidden(c.value)
                ==> c.value.acceptDestructive == Some(true))
  {
    hide CheckArgs, CheckConstraints, Validate, IsDestructive, CouldBeDestructive, MutatingForbidden;
    AcceptedOperation(engine, spec, primitive, operation);
    var c, inner := OperationConstraintsOf(spec, primitive, operation).value, InnerArgs(envelope);
    if primitive == HTTP {
      HttpRulesMeaning(engine, operation, c);
    }
    if MethodsReadable(primitive, c) {
      DestructiveWasForeseeable(w, primitive, operation, c, inner);
    } else if MutatingForbidden(c) {
      ForbiddenWasForeseeable(w, operation, c, inner);
    }
  }

  lemma ForbiddenWasForeseeable(w: Resolvers, operation: string, c: OperationConstraints, inner: Json)
    requires MutatingForbidden(c) && CheckArgs(w, HTTP, operation, c, inner).Allow?
            && IsDestructive(HTTP, operation, inner)
    ensures CouldBeDestructive(HTTP, operation, c)
  {
    hide CheckArgs, MutatingForbidden;
    if !IsUnclassified(HTTP, operation) {
      var rule :|
          rule in CATALOG && rule.kind == Destructive && Covers(rule, HTTP, operation) && Holds(rule.when, inner);
      HttpRules(rule);
      ForbiddenIsDenied(w, c, inner);
    }
  }

  // ---------------------------------------------------------------------
  // Where it does not: HTTP without declared methods
  // ---------------------------------------------------------------------

  function WithMethod(members: map<string, Json>, method_: string): Json {
    Object(members["method" := Str(method_)])
  }

  lemma MethodIsOnlyReadByMethods(w: Resolvers, c: OperationConstraints, members: map<string, Json>, m: string)
    requires c.methods.None? && "method" in members
    requires AllowlistsSatisfied(w, HTTP, "request", c, Object(members))
    ensures AllowlistsSatisfied(w, HTTP, "request", c, WithMethod(members, m))
  {
    hide UrlPermitted, BucketsPermitted, LocalsPermitted, PackagePermitted, TargetPermitted, ArgvMatchesTemplate;
    var a, b := Object(members), WithMethod(members, m);
    assert forall key :: key != "method" ==> Get(a, key) == Get(b, key);
    OperandsIgnoreMethod(w, c, members, m);
  }

  lemma OperandsIgnoreMethod(w: Resolvers, c: OperationConstraints, members: map<string, Json>, m: string)
    ensures var (a, b) := (Object(members), WithMethod(members, m));
            && UrlPermitted(w, c, a) == UrlPermitted(w, c, b)
            && BucketsPermitted(c, a) == BucketsPermitted(c, b)
            && LocalsPermitted(w, HTTP, "request", c, a) == LocalsPermitted(w, HTTP, "request", c, b)
            && PackagePermitted(w, HTTP, "request", c, a) == PackagePermitted(w, HTTP, "request", c, b)
            && TargetPermitted(w, HTTP, "request", c, a) == TargetPermitted(w, HTTP, "request", c, b)
  {
    hide AnyGlob, NamesBucket, AnyRepoPattern, OwnerOf, NormalizeRepoHost, ExtractRepoCanonical;
    var a, b := Object(members), WithMethod(members, m);
    assert forall key :: key != "method" ==> Get(a, key) == Get(b, key);
    BucketsIgnoreMethod(members, m);
  }

  lemma BucketsIgnoreMethod(members: map<string, Json>, m: string)
    ensures forall bucket :: NamesBucket(Object(members), bucket) <==> NamesBucket(WithMethod(members, m), bucket)
  {
    hide ClassifyS3Operand;
    var a, b := Object(members), WithMethod(members, m);
    assert forall key :: key != "method" ==> Get(a, key) == Get(b, key);
    assert "method" != "bucket" && "method" != "src" && "method" != "dst";
  }

  predicate Forbidden(c: OperationConstraints, m: string) {
    c.forbiddenMethods.Some? && AnyIgnoringCase(c.forbiddenMethods.value, m)
  }

  /**
   The failing family: an HTTP operation with no declared methods. Whatever
   call of it passes with some method also passes with any mutating method
   that is not expressly forbidden, and that call is destructive although the
   signer was never asked.
   */
  lemma UndeclaredMethodsEscape(w: Resolvers, c: OperationConstraints, members: map<string, Json>, m: string)
    requires c.methods.None? && "method" in members
    requires IsMutating(m) && !Forbidden(c, m)
    requires CheckArgs(w, HTTP, "request", c, Object(members)).Allow?
    ensures CheckArgs(w, HTTP, "request", c, WithMethod(members, m)).Allow?
    ensures IsDestructive(HTTP, "request", WithMethod(members, m))
    ensures !CouldBeDestructive(HTTP, "request", c)
  {
    hide CheckArgs, AllowlistsSatisfied, DenylistHit, IsDestructive, CouldBeDestructive, IsMutating, Forbidden;
    var a, b := Object(members), WithMethod(members, m);
    VerdictIsConjunction(w, HTTP, "request", c, a);
    VerdictIsConjunction(w, HTTP, "request", c, b);
    MethodIsOnlyReadByMethods(w, c, members, m);
    DenylistsIgnoreMethod(c, members, m);
    HttpDestructiveness(b, c);
  }

  lemma DenylistsIgnoreMethod(c: OperationConstraints, members: map<string, Json>, m: string)
    requires "method" in members && !DenylistHit(c, Object(members)) && !Forbidden(c, m)
    ensures !DenylistHit(c, WithMethod(members, m))
  {
    var a, b := Object(members), WithMethod(members, m);
    assert forall key :: key != "method" ==> Get(a, key) == Get(b, key);
    assert GetString(b, "method") == Some(m);
  }

  /** For HTTP, destructive is a mutating method, and foreseeable is a declared one. */
  lemma HttpDestructiveness(inner: Json, c: OperationConstraints)
    ensures IsDestructive(HTTP, "request", inner) <==> Holds(MethodMutates, inner)
    ensures CouldBeDestructive(HTTP, "request", c) <==>
            c.methods.Some? && exists m :: m in c.methods.value && IsMutating(m)
  {
    var rule := Rule(HTTP, "request", Destructive, MethodMutates);
    assert CATALOG[16] == rule && rule in CATALOG && Covers(rule, HTTP, "request");
    forall r | r in CATALOG && Covers(r, HTTP, "request")
      ensures r == rule
    {
      HttpRules(r);
    }
    SynthesizedMutates(c);
  }

  const MUTATING: seq<string> := ["POST", "PUT", "PATCH", "DELETE"]

  /** Does the operation forbid every mutating method by name? */
  predicate MutatingForbidden(c: OperationConstraints) {
    forall m :: m in MUTATING ==> Forbidden(c, m)
  }

  lemma MutatingNames(m: string)
    ensures IsMutating(m) <==> Upper(m) in MUTATING
    ensures Upper(Upper(m)) == Upper(m)
  {
    assert MUTATING[0] == "POST" && MUTATING[1] == "PUT" && MUTATING[2] == "PATCH" && MUTATING[3] == "DELETE";
  }

  lemma ForbiddenIgnoresCase(c: OperationConstraints, m: string)
    ensures Forbidden(c, Upper(m)) == Forbidden(c, m)
  {
    MutatingNames(m);
    SameUpper(Upper(m), m);
  }

  /**
   Exactly when the static reading of an HTTP operation covers every call the
   enforcer lets through, given that it lets through any call with a method at
   all: its methods are declared, or all mutating ones are forbidden.
   */
  lemma ForeseeableExactlyWhenReadable(w: Resolvers, c: OperationConstraints, members: map<string, Json>)
    requires "method" in members && CheckArgs(w, HTTP, "request", c, Object(members)).Allow?
    ensures (forall inner :: CheckArgs(w, HTTP, "request", c, inner).Allow? && IsDestructive(HTTP, "request", inner)
                             ==> CouldBeDestructive(HTTP, "request", c))
            <==> MethodsReadable(HTTP, c) || MutatingForbidden(c)
  {
    hide CheckArgs, IsDestructive, CouldBeDestructive;
    forall inner | CheckArgs(w, HTTP, "request", c, inner).Allow? && IsDestructive(HTTP, "request", inner)
                   && (MethodsReadable(HTTP, c) || MutatingForbidden(c))
      ensures CouldBeDestructive(HTTP, "request", c)
    {
      if MethodsReadable(HTTP, c) {
        DestructiveWasForeseeable(w, HTTP, "request", c, inner);
      } else {
        ForbiddenIsDenied(w, c, inner);
      }
    }
    if !MethodsReadable(HTTP, c) && !MutatingForbidden(c) {
      var m :| m in MUTATING && !Forbidden(c, m);
      assert IsMutating(m) by {
        MutatingAreUpper(m);
      }
      UndeclaredMethodsEscape(w, c, members, m);
    }
  }

  // ---------------------------------------------------------------------
  // Whole profiles
  // ---------------------------------------------------------------------

  /** Every destructive call the profile lets through runs under the owner's opt-in. */
  ghost predicate CoveredByOptIn(w: Resolvers, spec: ProfileSpec) {
    forall primitive, operation, envelope ::
      && primitive != RAW_TOKEN
      && Check(w, spec, primitive, operation, envelope).Allow?
      && IsDestructive(primitive, operation, InnerArgs(envelope))
      ==> HasOptIn(OperationConstraintsOf(spec, primitive, operation))
  }

  predicate HasOptIn(c: Option<OperationConstraints>) {
    c.Some? && c.value.acceptDestructive == Some(true)
  }

  /** An HTTP entry that accepts broad scope, declares no methods, forbids not all mutating ones and has no opt-in. */
  predicate LeftOpen(c: Option<OperationConstraints>) {
    && c.Some? && IsSet(c.value.acceptBroadScope) && c.value.methods.None?
    && !MutatingForbidden(c.value) && !HasOptIn(c)
  }

  predicate NamesMethod(inner: Json) {
    Get(inner, "method").Some?
  }

  /** Such an entry for `request`, under which some call with a method passes. */
  ghost predicate OpenHttp(w: Resolvers, spec: ProfileSpec) {
    && LeftOpen(OperationConstraintsOf(spec, HTTP, "request"))
    && exists envelope :: Check(w, spec, HTTP, "request", envelope).Allow? && NamesMethod(InnerArgs(envelope))
  }

  /** An HTTP operation other than `request` is in no table, so an accepted profile has the opt-in for it. */
  lemma OtherHttpIsUnclassified(operation: string)
    requires operation != "request"
    ensures IsUnclassified(HTTP, operation)
  {
    forall rule | rule in CATALOG
      ensures !Covers(rule, HTTP, operation)
    {
      if rule.primitive == HTTP {
        HttpRules(rule);
      }
    }
    forall i | 0 <= i < |READ_ONLY_OPS|
      ensures READ_ONLY_OPS[i].0 != HTTP
    {
      assert |HTTP| == 12 && HTTP[8] == 'h';
    }
  }

  /** A call that is not covered is one of an open HTTP entry. */
  lemma UncoveredIsOpen(
    w: Resolvers, engine: RegexEngine, spec: ProfileSpec, primitive: string, operation: string, envelope: Json)
    requires Validate(engine, spec).None? && primitive != RAW_TOKEN
    requires Check(w, spec, primitive, operation, envelope).Allow?
    requires IsDestructive(primitive, operation, InnerArgs(envelope))
    requires !HasOptIn(OperationConstraintsOf(spec, primitive, operation))
    ensures OpenHttp(w, spec)
  {
    hide Check, Validate, CheckConstraints, IsDestructive, MutatingForbidden, IsUnclassified;
    OptInCoversRuntime(w, engine, spec, primitive, operation, envelope);
    AcceptedOperation(engine, spec, primitive, operation);
    if operation != "request" {
      OtherHttpIsUnclassified(operation);
    }
    HttpDestructiveness(InnerArgs(envelope), OperationConstraintsOf(spec, primitive, operation).value);
    assert LeftOpen(OperationConstraintsOf(spec, HTTP, "request"));
    assert NamesMethod(InnerArgs(envelope));
  }

  /** The verdict on a call reads only its inner arguments. */
  lemma CheckReadsInner(w: Resolvers, spec: ProfileSpec, operation: string, envelope: Json, inner: Json)
    requires Check(w, spec, HTTP, operation, envelope).Allow?
    ensures var c := OperationConstraintsOf(spec, HTTP, operation);
            && c.Some?
            && CheckArgs(w, HTTP, operation, c.value, InnerArgs(envelope)).Allow?
            && (CheckArgs(w, HTTP, operation, c.value, inner).Allow? ==>
                  Check(w, spec, HTTP, operation, Object(map["args" := inner])).Allow?)
  {
    hide CheckArgs;
    assert HTTP != RAW_TOKEN by {
      assert |HTTP| != |RAW_TOKEN|;
    }
    assert InnerArgs(Object(map["args" := inner])) == inner;
  }

  /** An open HTTP entry lets a destructive call through uncovered. */
  lemma OpenIsUncovered(w: Resolvers, spec: ProfileSpec)
    requires OpenHttp(w, spec)
    ensures !CoveredByOptIn(w, spec)
  {
    hide Check, CheckArgs, IsDestructive, CouldBeDestructive, Forbidden, IsMutating;
    var c := OperationConstraintsOf(spec, HTTP, "request");
    var envelope :| Check(w, spec, HTTP, "request", envelope).Allow? && NamesMethod(InnerArgs(envelope));
    var members := InnerArgs(envelope).members;
    var m :| m in MUTATING && !Forbidden(c.value, m);
    var inner := WithMethod(members, m);
    CheckReadsInner(w, spec, "request", envelope, inner);
    MutatingAreUpper(m);
    UndeclaredMethodsEscape(w, c.value, members, m);
    assert InnerArgs(Object(map["args" := inner])) == inner;
    assert HTTP != RAW_TOKEN by {
      assert |HTTP| != |RAW_TOKEN|;
    }
  }

  /**
   Exactly when an accepted profile lets no destructive call through without
   the owner's opt-in: when its HTTP `request` entry is not left open, or lets
   no call with a method through.
   */
  lemma CoveredUnlessOpen(w: Resolvers, engine: RegexEngine, spec: ProfileSpec)
    requires Validate(engine, spec).None?
    ensures CoveredByOptIn(w, spec) <==> !OpenHttp(w, spec)
  {
    hide Check, Validate, IsDestructive, HasOptIn, OpenHttp;
    if !CoveredByOptIn(w, spec) {
      var primitive, operation, envelope :|
        primitive != RAW_TOKEN && Check(w, spec, primitive, operation, envelope).Allow?
        && IsDestructive(primitive, operation, InnerArgs(envelope))
        && !HasOptIn(OperationConstraintsOf(spec, primitive, operation));
      UncoveredIsOpen(w, engine, spec, primitive, operation, envelope);
    }
    if OpenHttp(w, spec) {
      OpenIsUncovered(w, spec);
    }
  }

  lemma MutatingAreUpper(m: string)
    requires m in MUTATING
    ensures IsMutating(m)
  {
    assert Upper("POST") == "POST" && Upper("PUT") == "PUT" && Upper("PATCH") == "PATCH" && Upper("DELETE") == "DELETE";
  }

  /** With every mutating method forbidden no destructive HTTP call passes. */
  lemma ForbiddenIsDenied(w: Resolvers, c: OperationConstraints, inner: Json)
    requires MutatingForbidden(c) && IsDestructive(HTTP, "request", inner)
    ensures CheckArgs(w, HTTP, "request", c, inner).Deny?
  {
    hide CheckArgs, AllowlistsSatisfied;
    HttpDestructiveness(inner, c);
    var m := GetString(inner, "method").value;
    MutatingNames(m);
    ForbiddenIgnoresCase(c, m);
    VerdictIsConjunction(w, HTTP, "request", c, inner);
  }

  const OPEN_HTTP: OperationConstraints := UNCONSTRAINED.(acceptBroadScope := Some(true))

  const OPEN_PROFILE: ProfileSpec :=
    ProfileSpec("p", [PrimitiveAllow(HTTP, [[("request", OPEN_HTTP)]], false)], None)

  /** A member of the family: broad scope accepted, methods undeclared, no opt-in, and a POST goes through. */
  lemma OpenProfileEscapes(w: Resolvers, engine: RegexEngine)
    requires !w.expired(None)
    ensures Validate(engine, OPEN_PROFILE).None?
    ensures var envelope := Object(map["args" := WithMethod(map[], "POST")]);
            Check(w, OPEN_PROFILE, HTTP, "request", envelope).Allow?
            && IsDestructive(HTTP, "request", InnerArgs(envelope))
    ensures OperationConstraintsOf(OPEN_PROFILE, HTTP, "request") == Some(OPEN_HTTP)
            && OPEN_HTTP.acceptDestructive.None?
  {
    hide CheckArgs, Validate, IsDestructive, CouldBeDestructive, Holds;
    var inner := WithMethod(map[], "POST");
    PostMutates(inner);
    HttpDestructiveness(inner, OPEN_HTTP);
    OpenHttpAllows(w, inner);
    OpenProfileValidates(engine);
    assert HTTP != RAW_TOKEN by {
      assert |HTTP| != |RAW_TOKEN|;
    }
  }

  lemma PostMutates(inner: Json)
    requires inner == WithMethod(map[], "POST")
    ensures Holds(MethodMutates, inner)
  {
    assert Upper("POST") == "POST" && GetString(inner, "method") == Some("POST");
  }

  lemma OpenHttpAllows(w: Resolvers, inner: Json)
    ensures CheckArgs(w, HTTP, "request", OPEN_HTTP, inner).Allow?
  {
    assert LocalFields(HTTP, "request") == [];
    assert |HTTP| == 12 && HTTP[8] == 'h';
  }

  lemma OpenProfileValidates(engine: RegexEngine)
    ensures Validate(engine, OPEN_PROFILE).None?
  {
    hide CouldBeDestructive, IsDestructive, Holds, IsMutating;
    HttpDestructiveness(Null, OPEN_HTTP);
    var prim := OPEN_PROFILE.primitives[0];
    var entry := prim.operations[0][0];
    assert |HTTP| != |RAW_TOKEN|;
    assert CheckEntries(engine, HTTP, prim.operations[0][1..]).None?;
    assert CheckEntries(engine, HTTP, prim.operations[0]).None?;
    assert CheckOperations(engine, HTTP, prim.operations[1..]).None?;
    assert CheckPrimitives(engine, OPEN_PROFILE.primitives[1..]).None?;
    NoViolations(OPEN_PROFILE.primitives);
  }
}
