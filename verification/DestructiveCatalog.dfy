/** Which operations are destructive, at run time and as far as a signer can tell (src/allowlist/catalog.rs). */
module DestructiveCatalog {
  import opened Wrappers
  import opened AllowlistDsl

  datatype Kind = Destructive | Annotated

  datatype ArgsPredicate = Always | TagForced | MethodMutates | StateClosed

  datatype Rule = Rule(primitive: string, operation: string, kind: Kind, when: ArgsPredicate)

  const CATALOG: seq<Rule> := [
    Rule("kvendra.git", "clone", Destructive, Always),
    Rule("kvendra.git", "push", Destructive, Always),
    Rule("kvendra.git", "commit", Annotated, Always),
    Rule("kvendra.git", "tag", Destructive, TagForced),
    Rule("kvendra.github", "update_repo", Destructive, Always),
    Rule("kvendra.github", "update_issue", Annotated, StateClosed),
    Rule("kvendra.github", "create_issue", Destructive, Always),
    Rule("kvendra.github", "release", Destructive, Always),
    Rule("kvendra.github", "add_topics", Destructive, Always),
    Rule("kvendra.npm", "publish", Destructive, Always),
    Rule("kvendra.npm", "deprecate", Destructive, Always),
    Rule("kvendra.pypi", "upload", Destructive, Always),
    Rule("kvendra.aws", "s3_sync", Destructive, Always),
    Rule("kvendra.aws", "s3_cp", Destructive, Always),
    Rule("kvendra.aws", "cloudfront_invalidate", Annotated, Always),
    Rule("kvendra.aws", "lambda_invoke", Destructive, Always),
    Rule("kvendra.http", "request", Destructive, MethodMutates),
    Rule("kvendra.shell", "exec", Destructive, Always),
    Rule("kvendra.unsafe.raw_token", "get", Destructive, Always)
  ]

  const READ_ONLY_OPS: seq<(string, string)> := [
    ("kvendra.git", "pull"),
    ("kvendra.github", "read_repo"),
    ("kvendra.github", "read_issue"),
    ("kvendra.github", "list_issues"),
    ("kvendra.npm", "read_metadata"),
    ("kvendra.pypi", "read_metadata")
  ]

  const HTTP: string := "kvendra.http"

  predicate IsMutating(method_: string) {
    Upper(method_) in {"POST", "PUT", "PATCH", "DELETE"}
  }

  predicate Holds(when: ArgsPredicate, args: Json) {
    match when
    case Always => true
    case TagForced => Get(args, "force") == Some(Bool(true))
    case MethodMutates => GetString(args, "method").Some? && IsMutating(GetString(args, "method").value)
    case StateClosed => GetString(args, "state") == Some("closed")
  }

  predicate Covers(rule: Rule, primitive: string, operation: string) {
    rule.primitive == primitive && rule.operation == operation
  }

  predicate IsUnclassified(primitive: string, operation: string) {
    && (forall rule :: rule in CATALOG ==> !Covers(rule, primitive, operation))
    && (primitive, operation) !in READ_ONLY_OPS
  }

  predicate MatchesKind(kind: Kind, primitive: string, operation: string, args: Json) {
    exists rule :: rule in CATALOG && rule.kind == kind && Covers(rule, primitive, operation) && Holds(rule.when, args)
  }

  /** A call that changes something, or that nobody classified. */
  predicate IsDestructive(primitive: string, operation: string, args: Json) {
    IsUnclassified(primitive, operation) || MatchesKind(Destructive, primitive, operation, args)
  }

  function FirstMutating(methods: seq<string>): (r: Option<string>)
    ensures r.Some? ==> r.value in methods && IsMutating(r.value)
    ensures r.None? ==> forall m :: m in methods ==> !IsMutating(m)
  {
    if methods == [] then None
    else if IsMutating(methods[0]) then Some(methods[0])
    else
      assert methods == [methods[0]] + methods[1..];
      FirstMutating(methods[1..])
  }

  /** The call a declared operation could make, as far as it can be read off its constraints. */
  function ConstraintsToArgs(c: OperationConstraints): Json {
    match c.methods
    case None => Object(map[])
    case Some(methods) =>
      match FirstMutating(methods)
      case Some(m) => Object(map["method" := Str(m)])
      case None => Object(map[])
  }

  /** Could the declared operation run destructively? The worst case, except for HTTP methods. */
  predicate CouldBeDestructive(primitive: string, operation: string, c: OperationConstraints) {
    || IsUnclassified(primitive, operation)
    || exists rule :: rule in CATALOG && rule.kind == Destructive && Covers(rule, primitive, operation)
                      && (rule.when != Always && primitive == HTTP ==> Holds(rule.when, ConstraintsToArgs(c)))
  }

  /** The operations whose every call is destructive. */
  const ALWAYS_DESTRUCTIVE: seq<(string, string)> := [
    ("kvendra.git", "clone"), ("kvendra.git", "push"),
    ("kvendra.github", "update_repo"), ("kvendra.github", "create_issue"),
    ("kvendra.github", "release"), ("kvendra.github", "add_topics"),
    ("kvendra.npm", "publish"), ("kvendra.npm", "deprecate"),
    ("kvendra.pypi", "upload"),
    ("kvendra.aws", "s3_sync"), ("kvendra.aws", "s3_cp"), ("kvendra.aws", "lambda_invoke"),
    ("kvendra.shell", "exec"),
    ("kvendra.unsafe.raw_token", "get")
  ]

  /** The operations no call of which is destructive. */
  const NEVER_DESTRUCTIVE: seq<(string, string)> := [
    ("kvendra.git", "pull"), ("kvendra.git", "commit"),
    ("kvendra.github", "read_repo"), ("kvendra.github", "read_issue"),
    ("kvendra.github", "list_issues"), ("kvendra.github", "update_issue"),
    ("kvendra.npm", "read_metadata"), ("kvendra.pypi", "read_metadata"),
    ("kvendra.aws", "cloudfront_invalidate")
  ]

  /** Where the rules of those operations stand in the catalogue. */
  const ALWAYS_AT: seq<nat> := [0, 1, 4, 6, 7, 8, 9, 10, 11, 12, 13, 15, 17, 18]

  lemma AlwaysRule(k: nat)
    requires k < 14
    ensures ALWAYS_AT[k] < |CATALOG|
    ensures CATALOG[ALWAYS_AT[k]] == Rule(ALWAYS_DESTRUCTIVE[k].0, ALWAYS_DESTRUCTIVE[k].1, Destructive, Always)
  {
  }

  lemma AlwaysDestructive(pair: (string, string), args: Json)
    requires pair in ALWAYS_DESTRUCTIVE
    ensures IsDestructive(pair.0, pair.1, args)
  {
    var k :| 0 <= k < |ALWAYS_DESTRUCTIVE| && ALWAYS_DESTRUCTIVE[k] == pair;
    AlwaysRule(k);
    RuleMakesDestructive(ALWAYS_AT[k], args);
  }

  lemma RuleMakesDestructive(i: nat, args: Json)
    requires i < |CATALOG| && CATALOG[i].kind == Destructive && Holds(CATALOG[i].when, args)
    ensures IsDestructive(CATALOG[i].primitive, CATALOG[i].operation, args)
  {
    hide Holds;
    var rule := CATALOG[i];
    assert rule in CATALOG && Covers(rule, rule.primitive, rule.operation);
  }

  /** Length, first and third letter tell the operation names apart. */
  function KeyOf(name: string): (nat, char, char) {
    if |name| < 3 then (|name|, ' ', ' ') else (|name|, name[0], name[2])
  }

  lemma DestructiveKey(rule: Rule)
    requires rule in CATALOG && rule.kind == Destructive
    ensures KeyOf(rule.operation) in DESTRUCTIVE_KEYS
  {
    var i :| 0 <= i < |CATALOG| && CATALOG[i] == rule;
    if i < 10 {
      EarlyKey(i);
    } else {
      LateKey(i);
    }
  }

  const DESTRUCTIVE_KEYS: set<(nat, char, char)> := {
    (5, 'c', 'o'), (4, 'p', 's'), (3, 't', 'g'), (11, 'u', 'd'), (12, 'c', 'e'), (7, 'r', 'l'),
    (10, 'a', 'd'), (7, 'p', 'b'), (9, 'd', 'p'), (6, 'u', 'l'), (7, 's', '_'), (5, 's', '_'),
    (13, 'l', 'm'), (7, 'r', 'q'), (4, 'e', 'e'), (3, 'g', 't')}

  lemma EarlyKey(i: nat)
    requires i < 10 && CATALOG[i].kind == Destructive
    ensures KeyOf(CATALOG[i].operation) in DESTRUCTIVE_KEYS
  {
  }

  lemma LateKey(i: nat)
    requires 10 <= i < |CATALOG| && CATALOG[i].kind == Destructive
    ensures KeyOf(CATALOG[i].operation) in DESTRUCTIVE_KEYS
  {
  }

  lemma NeverKey(pair: (string, string))
    requires pair in NEVER_DESTRUCTIVE
    ensures KeyOf(pair.1) in NEVER_KEYS
  {
    var j :| 0 <= j < |NEVER_DESTRUCTIVE| && NEVER_DESTRUCTIVE[j] == pair;
  }

  const NEVER_KEYS: set<(nat, char, char)> := {
    (4, 'p', 'l'), (6, 'c', 'm'), (9, 'r', 'a'), (10, 'r', 'a'), (11, 'l', 's'), (12, 'u', 'd'),
    (13, 'r', 'a'), (21, 'c', 'o')}

  lemma KeysDiffer(a: (nat, char, char), b: (nat, char, char))
    requires a in DESTRUCTIVE_KEYS && b in NEVER_KEYS
    ensures a != b
  {
  }

  lemma NeverOperations(rule: Rule, pair: (string, string))
    requires rule in CATALOG && rule.kind == Destructive && pair in NEVER_DESTRUCTIVE
    ensures rule.operation != pair.1
  {
    hide KeyOf;
    DestructiveKey(rule);
    NeverKey(pair);
    KeysDiffer(KeyOf(rule.operation), KeyOf(pair.1));
  }

  lemma NeverDestructive(pair: (string, string), args: Json)
    requires pair in NEVER_DESTRUCTIVE
    ensures !IsDestructive(pair.0, pair.1, args)
  {
    forall rule | rule in CATALOG && rule.kind == Destructive
      ensures !Covers(rule, pair.0, pair.1)
    {
      NeverOperations(rule, pair);
    }
    NeverIsClassified(pair);
  }

  lemma NeverIsClassified(pair: (string, string))
    requires pair in NEVER_DESTRUCTIVE
    ensures !IsUnclassified(pair.0, pair.1)
  {
    var k :| 0 <= k < |NEVER_DESTRUCTIVE| && NEVER_DESTRUCTIVE[k] == pair;
    if k in {1, 5, 8} {
      AnnotatedRule(k);
    } else {
      ReadOnlyPair(k);
    }
  }

  lemma RuleCovers(i: nat)
    requires i < |CATALOG|
    ensures exists rule :: rule in CATALOG && Covers(rule, CATALOG[i].primitive, CATALOG[i].operation)
  {
    assert CATALOG[i] in CATALOG && Covers(CATALOG[i], CATALOG[i].primitive, CATALOG[i].operation);
  }

  lemma AnnotatedRule(k: nat)
    requires k in {1, 5, 8}
    ensures exists rule :: rule in CATALOG && Covers(rule, NEVER_DESTRUCTIVE[k].0, NEVER_DESTRUCTIVE[k].1)
  {
    var i := if k == 1 then 2 else if k == 5 then 5 else 14;
    assert CATALOG[i].primitive == NEVER_DESTRUCTIVE[k].0 && CATALOG[i].operation == NEVER_DESTRUCTIVE[k].1;
    RuleCovers(i);
  }

  lemma ReadOnlyPair(k: nat)
    requires k in {0, 2, 3, 4, 6, 7}
    ensures NEVER_DESTRUCTIVE[k] in READ_ONLY_OPS
  {
    assert READ_ONLY_OPS[if k == 0 then 0 else if k <= 4 then k - 1 else k - 2] == NEVER_DESTRUCTIVE[k];
  }

  /** Forcing a tag, and nothing else about it, makes it destructive. */
  lemma TagIsDestructiveWhenForced(args: Json)
    ensures IsDestructive("kvendra.git", "tag", args) <==> Get(args, "force") == Some(Bool(true))
  {
    var rule := CATALOG[3];
    assert rule in CATALOG && Covers(rule, "kvendra.git", "tag");
    forall other | other in CATALOG && Covers(other, "kvendra.git", "tag")
      ensures other == rule
    {
      TagRule(other);
    }
    if Get(args, "force") == Some(Bool(true)) {
      RuleMakesDestructive(3, args);
    }
  }

  lemma TagRule(rule: Rule)
    requires rule in CATALOG && rule.operation == "tag"
    ensures rule == CATALOG[3]
  {
    var i :| 0 <= i < |CATALOG| && CATALOG[i] == rule;
    assert |rule.operation| == 3 && rule.operation[0] == 't';
  }

  /** An operation in no table is destructive whatever it is asked. */
  lemma UnknownIsDestructive(primitive: string, operation: string, args: Json)
    requires (primitive, operation) !in ALWAYS_DESTRUCTIVE && (primitive, operation) !in NEVER_DESTRUCTIVE
    requires (primitive, operation) != ("kvendra.git", "tag") && (primitive, operation) != ("kvendra.http", "request")
    ensures IsDestructive(primitive, operation, args)
  {
    forall rule | rule in CATALOG
      ensures !Covers(rule, primitive, operation)
    {
      RulesAreListed(rule);
    }
    assert READ_ONLY_OPS[0] == NEVER_DESTRUCTIVE[0] && READ_ONLY_OPS[1] == NEVER_DESTRUCTIVE[2];
    assert READ_ONLY_OPS[2] == NEVER_DESTRUCTIVE[3] && READ_ONLY_OPS[3] == NEVER_DESTRUCTIVE[4];
    assert READ_ONLY_OPS[4] == NEVER_DESTRUCTIVE[6] && READ_ONLY_OPS[5] == NEVER_DESTRUCTIVE[7];
  }

  lemma RulesAreListed(rule: Rule)
    requires rule in CATALOG
    ensures var pair := (rule.primitive, rule.operation);
            || pair in ALWAYS_DESTRUCTIVE || pair in NEVER_DESTRUCTIVE
            || pair == ("kvendra.git", "tag") || pair == ("kvendra.http", "request")
  {
    var i :| 0 <= i < |CATALOG| && CATALOG[i] == rule;
    if i !in {2, 3, 5, 14, 16} {
      var k := PlaceOf(i);
      AlwaysRule(k);
    }
  }

  lemma PlaceOf(i: nat) returns (k: nat)
    requires i < 19 && i !in {2, 3, 5, 14, 16}
    ensures k < 14 && ALWAYS_AT[k] == i
  {
    k := if i < 2 then i else if i < 5 then i - 2 else if i < 14 then i - 3 else if i < 16 then i - 4 else i - 5;
  }

  /**
   Outside HTTP the signer's reading is the worst case and no more: an
   operation could be destructive exactly when some call of it is.
   */
  lemma CouldBeIsWorstCase(primitive: string, operation: string, c: OperationConstraints)
    requires primitive != "kvendra.http"
    ensures CouldBeDestructive(primitive, operation, c) <==> (primitive, operation) !in NEVER_DESTRUCTIVE
    ensures CouldBeDestructive(primitive, operation, c) <==> exists args :: IsDestructive(primitive, operation, args)
  {
    var pair := (primitive, operation);
    var forced := Object(map["force" := Bool(true)]);
    if pair in NEVER_DESTRUCTIVE {
      forall args
        ensures !IsDestructive(primitive, operation, args)
      {
        NeverDestructive(pair, args);
      }
      NeverCouldBe(pair, c);
    } else {
      SomeCallIsDestructive(primitive, operation, forced);
      DestructiveCouldBe(primitive, operation, c, forced);
    }
  }

  lemma NeverCouldBe(pair: (string, string), c: OperationConstraints)
    requires pair in NEVER_DESTRUCTIVE
    ensures !CouldBeDestructive(pair.0, pair.1, c)
  {
    forall rule | rule in CATALOG && rule.kind == Destructive
      ensures !Covers(rule, pair.0, pair.1)
    {
      NeverOperations(rule, pair);
    }
    NeverIsClassified(pair);
  }

  lemma SomeCallIsDestructive(primitive: string, operation: string, forced: Json)
    requires primitive != "kvendra.http" && (primitive, operation) !in NEVER_DESTRUCTIVE
    requires forced == Object(map["force" := Bool(true)])
    ensures IsDestructive(primitive, operation, forced)
  {
    if (primitive, operation) in ALWAYS_DESTRUCTIVE {
      AlwaysDestructive((primitive, operation), forced);
    } else if (primitive, operation) == ("kvendra.git", "tag") {
      TagIsDestructiveWhenForced(forced);
    } else {
      UnknownIsDestructive(primitive, operation, forced);
    }
  }

  lemma DestructiveCouldBe(primitive: string, operation: string, c: OperationConstraints, args: Json)
    requires primitive != "kvendra.http" && IsDestructive(primitive, operation, args)
    ensures CouldBeDestructive(primitive, operation, c)
  {
  }

  /** The calls that are marked without being stopped. */
  lemma AnnotatedCalls(primitive: string, operation: string, args: Json)
    ensures MatchesKind(Annotated, primitive, operation, args) <==>
            || (primitive == "kvendra.git" && operation == "commit")
            || (primitive == "kvendra.aws" && operation == "cloudfront_invalidate")
            || (primitive == "kvendra.github" && operation == "update_issue"
                && Get(args, "state") == Some(Str("closed")))
  {
    hide MatchesKind, Holds;
    AnnotatedHolds(args);
    CommitIsAnnotated(args);
    InvalidationIsAnnotated(args);
    ClosingIsAnnotated(args);
    if MatchesKind(Annotated, primitive, operation, args) {
      AnnotatedMatch(primitive, operation, args);
    }
  }

  lemma RuleAnnotates(i: nat, args: Json)
    requires i < |CATALOG| && CATALOG[i].kind == Annotated && Holds(CATALOG[i].when, args)
    ensures MatchesKind(Annotated, CATALOG[i].primitive, CATALOG[i].operation, args)
  {
    hide Holds;
    var rule := CATALOG[i];
    assert rule in CATALOG && Covers(rule, rule.primitive, rule.operation);
  }

  lemma CommitIsAnnotated(args: Json)
    ensures MatchesKind(Annotated, "kvendra.git", "commit", args)
  {
    hide MatchesKind;
    assert CATALOG[2] == Rule("kvendra.git", "commit", Annotated, Always);
    RuleAnnotates(2, args);
  }

  lemma InvalidationIsAnnotated(args: Json)
    ensures MatchesKind(Annotated, "kvendra.aws", "cloudfront_invalidate", args)
  {
    hide MatchesKind;
    assert CATALOG[14] == Rule("kvendra.aws", "cloudfront_invalidate", Annotated, Always);
    RuleAnnotates(14, args);
  }

  lemma ClosingIsAnnotated(args: Json)
    ensures Holds(StateClosed, args) ==> MatchesKind(Annotated, "kvendra.github", "update_issue", args)
  {
    hide MatchesKind, Holds;
    assert CATALOG[5] == Rule("kvendra.github", "update_issue", Annotated, StateClosed);
    if Holds(StateClosed, args) {
      RuleAnnotates(5, args);
    }
  }

  lemma AnnotatedIsOneOf(rule: Rule)
    requires rule in CATALOG && rule.kind == Annotated
    ensures || rule == Rule("kvendra.git", "commit", Annotated, Always)
            || rule == Rule("kvendra.aws", "cloudfront_invalidate", Annotated, Always)
            || rule == Rule("kvendra.github", "update_issue", Annotated, StateClosed)
  {
    var i :| 0 <= i < |CATALOG| && CATALOG[i] == rule;
  }

  lemma AnnotatedMatch(primitive: string, operation: string, args: Json)
    requires MatchesKind(Annotated, primitive, operation, args)
    ensures || (primitive == "kvendra.git" && operation == "commit")
            || (primitive == "kvendra.aws" && operation == "cloudfront_invalidate")
            || (primitive == "kvendra.github" && operation == "update_issue" && Holds(StateClosed, args))
  {
    hide Holds;
    var rule :| rule in CATALOG && rule.kind == Annotated && Covers(rule, primitive, operation)
                && Holds(rule.when, args);
    AnnotatedIsOneOf(rule);
  }

  lemma AnnotatedHolds(args: Json)
    ensures Holds(Always, args)
    ensures Holds(StateClosed, args) <==> Get(args, "state") == Some(Str("closed"))
  {
  }

  /** The only HTTP rule looks at the method. */
  lemma HttpRules(rule: Rule)
    requires rule in CATALOG && rule.primitive == HTTP
    ensures rule == Rule(HTTP, "request", Destructive, MethodMutates)
  {
    var i :| 0 <= i < |CATALOG| && CATALOG[i] == rule;
    assert HTTP[8] == 'h' && |HTTP| == 12;
  }

  /** The synthesized call mutates exactly when a declared method does. */
  lemma SynthesizedMutates(c: OperationConstraints)
    ensures Holds(MethodMutates, ConstraintsToArgs(c)) <==>
            c.methods.Some? && exists m :: m in c.methods.value && IsMutating(m)
  {
  }
}
