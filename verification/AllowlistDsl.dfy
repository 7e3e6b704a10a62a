/** Profiles, per-operation constraints and the JSON of a call (src/allowlist/dsl.rs). */
module AllowlistDsl {
  import opened Wrappers

  datatype Json =
    | Null
    | Bool(flag: bool)
    | Number(number: int)
    | Str(text: string)
    | Array(items: seq<Json>)
    | Object(members: map<string, Json>)

  function Get(v: Json, key: string): Option<Json> {
    if v.Object? && key in v.members then Some(v.members[key]) else None
  }

  /** `get(key).and_then(as_str)` */
  function GetString(v: Json, key: string): Option<string> {
    match Get(v, key)
    case Some(Str(text)) => Some(text)
    case _ => None
  }

  function GetArray(v: Json, key: string): Option<seq<Json>> {
    match Get(v, key)
    case Some(Array(items)) => Some(items)
    case _ => None
  }

  function GetObject(v: Json, key: string): Option<map<string, Json>> {
    match Get(v, key)
    case Some(Object(members)) => Some(members)
    case _ => None
  }

  /** The texts among the items, in order. */
  function Strings(items: seq<Json>): (r: seq<string>)
    ensures forall s :: s in r <==> Str(s) in items
  {
    if items == [] then []
    else
      assert items == [items[0]] + items[1..];
      (if items[0].Str? then [items[0].text] else []) + Strings(items[1..])
  }

  /** What a field that is present reads as: its own kind only; an absent field and a non-object read as nothing. */
  lemma FieldReads(members: map<string, Json>, key: string, value: Json)
    ensures var v := Object(members[key := value]);
            && Get(v, key) == Some(value)
            && GetString(v, key) == (if value.Str? then Some(value.text) else None)
            && GetArray(v, key) == (if value.Array? then Some(value.items) else None)
            && GetObject(v, key) == (if value.Object? then Some(value.members) else None)
    ensures key !in members ==> Get(Object(members), key) == None
    ensures !value.Object? ==> Get(value, key) == None
    ensures forall v :: Get(v, key) == None ==>
              GetString(v, key) == None && GetArray(v, key) == None && GetObject(v, key) == None
  {
  }

  datatype OperationConstraints = OperationConstraints(
    repos: Option<seq<string>>,
    refs: Option<seq<string>>,
    forbiddenArgs: Option<seq<string>>,
    tagPattern: Option<seq<string>>,
    org: Option<seq<string>>,
    repo: Option<seq<string>>,
    fieldsAllowed: Option<seq<string>>,
    forbiddenFields: Option<seq<string>>,
    binaries: Option<seq<string>>,
    argsConstraints: Option<seq<seq<string>>>,
    cwdPattern: Option<string>,
    envVarsToInject: Option<seq<string>>,
    forbiddenEnvExport: Option<seq<string>>,
    urlPatternRegex: Option<seq<string>>,
    methods: Option<seq<string>>,
    forbiddenMethods: Option<seq<string>>,
    buckets: Option<seq<string>>,
    distributions: Option<seq<string>>,
    functions: Option<seq<string>>,
    packages: Option<seq<string>>,
    projects: Option<seq<string>>,
    localRoots: Option<seq<string>>,
    endpoints: Option<seq<string>>,
    acceptBroadScope: Option<bool>,
    destructive: Option<bool>,
    acceptDestructive: Option<bool>)

  const UNCONSTRAINED: OperationConstraints :=
    OperationConstraints(None, None, None, None, None, None, None, None, None, None, None, None, None,
                         None, None, None, None, None, None, None, None, None, None, None, None, None)

  /** A YAML operation entry, in key order. */
  type Operation = seq<(string, OperationConstraints)>

  datatype PrimitiveAllow = PrimitiveAllow(name: string, operations: seq<Operation>, unsafeRawTokenAllowed: bool)

  datatype ProfileSpec = ProfileSpec(profileId: string, primitives: seq<PrimitiveAllow>, expiration: Option<string>)

  const RAW_TOKEN: string := "kvendra.unsafe.raw_token"

  predicate IsSet(flag: Option<bool>) {
    flag == Some(true)
  }

  // ---------------------------------------------------------------------
  // Lookups
  // ---------------------------------------------------------------------

  function FindPrimitive(primitives: seq<PrimitiveAllow>, name: string): (r: Option<PrimitiveAllow>)
    ensures r.Some? ==> r.value in primitives && r.value.name == name
    ensures r.None? <==> forall p :: p in primitives ==> p.name != name
  {
    if primitives == [] then None
    else if primitives[0].name == name then Some(primitives[0])
    else
      assert primitives == [primitives[0]] + primitives[1..];
      FindPrimitive(primitives[1..], name)
  }

  function FindEntry(entries: Operation, name: string): (r: Option<OperationConstraints>)
    ensures r.Some? ==> (name, r.value) in entries
    ensures r.None? <==> forall e :: e in entries ==> e.0 != name
  {
    if entries == [] then None
    else if entries[0].0 == name then Some(entries[0].1)
    else
      assert entries == [entries[0]] + entries[1..];
      FindEntry(entries[1..], name)
  }

  function FindOperation(operations: seq<Operation>, name: string): (r: Option<OperationConstraints>)
    ensures r.Some? ==> exists o :: o in operations && (name, r.value) in o
    ensures r.None? <==> forall o, e :: o in operations && e in o ==> e.0 != name
  {
    if operations == [] then None
    else
      assert operations == [operations[0]] + operations[1..];
      var here := FindEntry(operations[0], name);
      if here.Some? then here else FindOperation(operations[1..], name)
  }

  // ---------------------------------------------------------------------
  // ASCII case
  // ---------------------------------------------------------------------

  function LowerChar(c: char): char {
    if 'A' <= c <= 'Z' then (c as int + 32) as char else c
  }

  function Lower(s: string): (r: string)
    ensures |r| == |s|
    ensures forall i :: 0 <= i < |s| ==> r[i] == LowerChar(s[i])
  {
    seq(|s|, i requires 0 <= i < |s| => LowerChar(s[i]))
  }

  function UpperChar(c: char): char {
    if 'a' <= c <= 'z' then (c as int - 32) as char else c
  }

  function Upper(s: string): (r: string)
    ensures |r| == |s|
    ensures forall i :: 0 <= i < |s| ==> r[i] == UpperChar(s[i])
  {
    seq(|s|, i requires 0 <= i < |s| => UpperChar(s[i]))
  }

  predicate EqualIgnoringCase(s: string, t: string) {
    Lower(s) == Lower(t)
  }

  /** Equal up to ASCII case is equal in upper case. */
  lemma SameUpper(s: string, t: string)
    ensures EqualIgnoringCase(s, t) <==> Upper(s) == Upper(t)
  {
    if EqualIgnoringCase(s, t) {
      assert |Lower(s)| == |Lower(t)|;
      forall i | 0 <= i < |s|
        ensures Upper(s)[i] == Upper(t)[i]
      {
        assert Lower(s)[i] == Lower(t)[i];
      }
    }
    if Upper(s) == Upper(t) {
      assert |Upper(s)| == |Upper(t)|;
      forall i | 0 <= i < |s|
        ensures Lower(s)[i] == Lower(t)[i]
      {
        assert Upper(s)[i] == Upper(t)[i];
      }
    }
  }
}
