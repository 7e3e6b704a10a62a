/** Loading, saving and migrating the signed configuration (src/config.rs). */
module ConfigStore {
  import opened Wrappers
  import opened SignedConfig

  const APPROVAL_TIMEOUT_FLOOR_SECONDS: nat := 5
  const APPROVAL_TIMEOUT_CEILING_SECONDS: nat := 600

  /** `settings` stands for every other section. */
  datatype Config = Config(
    settings: seq<nat>,
    timeoutSeconds: nat,
    homeCanonical: Option<string>,
    hmacHex: Option<string>)

  const DEFAULT_CONFIG: Config := Config([], 30, None, None)

  /** TOML, the config key's HMAC and path canonicalization, none of them modelled further. */
  datatype Environment = Environment(
    print_: Config -> string,
    parse: string -> Option<Config>,
    mac: string -> HexTag,
    canonicalize: string -> Option<string>)

  datatype ConfigError =
    | Tampered | Unsigned(orphanLine: bool) | Unparsable | OutOfRange | NoCanonicalHome | HomeRedirect | Io

  // ---------------------------------------------------------------------
  // Loading
  // ---------------------------------------------------------------------

  /** The lines of a file as `str::lines` cuts them, one carriage return dropped. */
  function Lines(s: string): seq<string>
    decreases |s|
  {
    if s == "" then []
    else
      match FirstLine(s)
      case (line, rest) => [line] + Lines(rest)
  }

  function FirstLine(s: string): (r: (string, string))
    requires s != ""
    ensures |r.1| < |s|
  {
    if s[0] == '\n' then ("", s[1..])
    else if |s| == 1 then (s, "")
    else if s[0] == '\r' && s[1] == '\n' then ("", s[2..])
    else
      var (line, rest) := FirstLine(s[1..]);
      ([s[0]] + line, rest)
  }

  predicate HasHmacLine(raw: string) {
    exists line :: line in Lines(raw) && ParseHmacLine(line).Some?
  }

  /** The signature check; without an unlocked vault there is none. */
  function CheckSignature(env: Environment, raw: string, unlocked: bool): Result<(), ConfigError> {
    var (payload, tag) := StripHmacTrailer(raw);
    if !unlocked then Success(())
    else
      match tag
      case Some(hex) => if env.mac(payload) == hex then Success(()) else Failure(Tampered)
      case None => Failure(Unsigned(HasHmacLine(raw)))
  }

  function Validate(c: Config): Result<(), ConfigError> {
    if APPROVAL_TIMEOUT_FLOOR_SECONDS <= c.timeoutSeconds <= APPROVAL_TIMEOUT_CEILING_SECONDS then Success(())
    else Failure(OutOfRange)
  }

  function CheckHome(env: Environment, home: string, c: Config): Result<(), ConfigError> {
    match c.homeCanonical
    case None => Success(())
    case Some(signedHome) =>
      match env.canonicalize(home)
      case None => Failure(NoCanonicalHome)
      case Some(actual) =>
        var signedCanonical := match env.canonicalize(signedHome) case Some(s) => s case None => signedHome;
        if actual == signedCanonical then Success(()) else Failure(HomeRedirect)
  }

  /** `load_inner` */
  function LoadInner(
      env: Environment, home: string, file: Option<string>, unlocked: bool, checkHome: bool)
    : Result<Config, ConfigError> {
    match file
    case None => Success(DEFAULT_CONFIG)
    case Some(raw) =>
      var _ :- CheckSignature(env, raw, unlocked);
      match env.parse(raw)
      case None => Failure(Unparsable)
      case Some(c) =>
        var _ :- Validate(c);
        var _ :- if unlocked && checkHome then CheckHome(env, home, c) else Success(());
        Success(c)
  }

  // ---------------------------------------------------------------------
  // Saving
  // ---------------------------------------------------------------------

  /** The document `save` signs: the canonical home stamped unless the caller set one. */
  function Stamped(c: Config, canonical: string): Config {
    c.(homeCanonical := if c.homeCanonical.None? then Some(canonical) else c.homeCanonical, hmacHex := None)
  }

  function PayloadOf(env: Environment, c: Config): string {
    WithFinalNewline(env.print_(c))
  }

  function Document(env: Environment, c: Config): string {
    Signed(PayloadOf(env, c), env.mac(PayloadOf(env, c)))
  }

  /** What `save` puts on disk. */
  function Saved(env: Environment, home: string, c: Config): Result<string, ConfigError> {
    if c.homeCanonical.Some? then Success(Document(env, Stamped(c, "")))
    else
      match env.canonicalize(home)
      case None => Failure(NoCanonicalHome)
      case Some(canonical) => Success(Document(env, Stamped(c, canonical)))
  }

  /** The TOML library reads back what it printed, a trailer line notwithstanding. */
  ghost predicate ReadsBack(env: Environment, c: Config) {
    var read := env.parse(Document(env, c.(hmacHex := None)));
    read.Some? && read.value.(hmacHex := None) == c.(hmacHex := None)
  }

  datatype Fault = NoFault | AtWrite | AtTmpMode | AtRename | AtMode

  class ConfigHome {
    const home: string
    var file: Option<string>
    var tmp: Option<string>

    constructor (home: string, file: Option<string>)
      ensures this.home == home && this.file == file && tmp == None
    {
      this.home, this.file, tmp := home, file, None;
    }

    /** `Config::save`: stamp, print, sign, write a sibling, rename. The file is wholly old or wholly new. */
    method Save(env: Environment, c: Config, fault: Fault) returns (r: Result<(), ConfigError>)
      modifies this
      ensures r.Success? ==> Saved(env, home, c) == Success(file.GetOr("")) && file.Some?
      ensures r.Failure? ==> file == old(file) || (fault.AtMode? && Saved(env, home, c) == Success(file.GetOr("")))
      ensures r.Success? <==> Saved(env, home, c).Success? && fault.NoFault?
      ensures Saved(env, home, c).Failure? ==> r == Failure(NoCanonicalHome) && file == old(file)
      ensures Saved(env, home, c).Success? && !fault.NoFault? ==> r == Failure(Io)
    {
      var toPersist := c;
      if toPersist.homeCanonical.None? {
        var canonical := env.canonicalize(home);
        if canonical.None? {
          return Failure(NoCanonicalHome);
        }
        toPersist := toPersist.(homeCanonical := canonical);
      }
      toPersist := toPersist.(hmacHex := None);
      var raw := env.print_(toPersist);
      if raw == "" || raw[|raw| - 1] != '\n' {
        raw := raw + "\n";
      }
      var hex := env.mac(raw);
      var finalRaw := raw + "_hmac = \"" + hex + "\"\n";
      if fault.AtWrite? {
        return Failure(Io);
      }
      tmp := Some(finalRaw);
      if fault.AtTmpMode? || fault.AtRename? {
        return Failure(Io);
      }
      file, tmp := tmp, None;
      if fault.AtMode? {
        return Failure(Io);
      }
      r := Success(());
    }

    /** `auto_migrate_config_if_needed`: sign an unsigned file, leave a signed or absent one alone. */
    method AutoMigrate(env: Environment, fault: Fault) returns (r: Result<(), ConfigError>)
      modifies this
      ensures match old(file)
              case None => r.Success? && file == None
              case Some(raw) =>
                if StripHmacTrailer(raw).1.Some? then r.Success? && file == old(file)
                else
                  match env.parse(raw)
                  case None => r == Failure(Unparsable) && file == old(file)
                  case Some(c) =>
                    && (r.Success? <==> Saved(env, home, c).Success? && fault.NoFault?)
                    && (r.Failure? ==> r.error == if Saved(env, home, c).Failure? then NoCanonicalHome else Io)
                    && (r.Failure? && !fault.AtMode? ==> file == old(file))
                    && (r.Success? ==> file.Some? && Saved(env, home, c) == Success(file.value))
      ensures r.Success? && file.Some? ==> StripHmacTrailer(file.value).1.Some?
    {
      if file.None? {
        return Success(());
      }
      var raw := file.value;
      var (_, existing) := StripHmacTrailer(raw);
      if existing.Some? {
        return Success(());
      }
      var parsed := env.parse(raw);
      if parsed.None? {
        return Failure(Unparsable);
      }
      r := Save(env, parsed.value, fault);
      if r.Success? {
        SavedIsSigned(env, home, parsed.value);
      }
    }
  }

  // ---------------------------------------------------------------------
  // What the loader accepts
  // ---------------------------------------------------------------------

  /** What `save` writes splits into the printed configuration, home stamped, and the MAC of it. */
  lemma SavedIsSigned(env: Environment, home: string, c: Config)
    requires Saved(env, home, c).Success?
    ensures var printed := c.(homeCanonical := HomeToSign(env, home, c), hmacHex := None);
            && Saved(env, home, c) == Success(Document(env, printed))
            && StripHmacTrailer(Saved(env, home, c).value)
               == (PayloadOf(env, printed), Some(env.mac(PayloadOf(env, printed))))
  {
    hide Saved, Signed, StripHmacTrailer, HomeToSign;
    var printed := c.(homeCanonical := HomeToSign(env, home, c), hmacHex := None);
    SavedDocument(env, home, c);
    StripUndoesSigned(env.print_(printed), env.mac(PayloadOf(env, printed)));
  }

  /** The home a vault was initialized at, resolved if it still resolves. */
  function ResolvedOr(env: Environment, home: string): string {
    match env.canonicalize(home)
    case Some(path) => path
    case None => home
  }

  /** This home resolves, to the very path the configuration was signed for, if it was signed for one. */
  predicate IsSignedHome(env: Environment, home: string, c: Config) {
    c.homeCanonical.Some? ==> env.canonicalize(home) == Some(ResolvedOr(env, c.homeCanonical.value))
  }

  predicate InRange(c: Config) {
    5 <= c.timeoutSeconds <= 600
  }

  /**
   A verified load accepts a file exactly when its last line is a trailer whose
   tag is the MAC of the very bytes before it, and the rest of the checks pass.
   */
  lemma VerifiedLoad(env: Environment, home: string, raw: string, checkHome: bool)
    ensures LoadInner(env, home, Some(raw), true, checkHome).Success? <==>
            && (exists payload, line, tail :: SplitsAs(raw, payload, line, tail, env.mac(payload)))
            && env.parse(raw).Some?
            && InRange(env.parse(raw).value)
            && (checkHome ==> IsSignedHome(env, home, env.parse(raw).value))
  {
    hide StripHmacTrailer, ParseHmacLine, HasHmacLine;
    var (payload, tag) := StripHmacTrailer(raw);
    if tag.Some? && tag.value == env.mac(payload) {
      SplitIsExact(raw, payload, tag.value);
    }
    if exists p, line, tail :: SplitsAs(raw, p, line, tail, env.mac(p)) {
      var p, line, tail :| SplitsAs(raw, p, line, tail, env.mac(p));
      SplitIsStripped(raw, p, line, tail, env.mac(p));
    }
  }

  /** A file whose trailer carries the MAC of the bytes before it. */
  ghost predicate SignedUnder(env: Environment, raw: string) {
    exists payload, line, tail :: SplitsAs(raw, payload, line, tail, env.mac(payload))
  }

  ghost predicate HasTrailer(raw: string) {
    exists payload, line, tail, hex :: SplitsAs(raw, payload, line, tail, hex)
  }

  lemma SignatureAnswers(env: Environment, raw: string)
    ensures SignedUnder(env, raw) ==> CheckSignature(env, raw, true) == Success(())
    ensures !SignedUnder(env, raw) && HasTrailer(raw) ==> CheckSignature(env, raw, true) == Failure(Tampered)
    ensures !HasTrailer(raw) ==> CheckSignature(env, raw, true) == Failure(Unsigned(HasHmacLine(raw)))
    ensures HasHmacLine(raw) <==> exists line :: IsLine(raw, line) && ParseHmacLine(line).Some?
  {
    hide ParseHmacLine, StripHmacTrailer, Lines, SplitsAs, IsLine;
    var (payload, tag) := StripHmacTrailer(raw);
    if tag.Some? {
      SplitIsExact(raw, payload, tag.value);
      assert HasTrailer(raw);
    }
    if SignedUnder(env, raw) {
      var p, line, tail :| SplitsAs(raw, p, line, tail, env.mac(p));
      SplitIsStripped(raw, p, line, tail, env.mac(p));
    }
    if HasTrailer(raw) {
      var p, line, tail, hex :| SplitsAs(raw, p, line, tail, hex);
      SplitIsStripped(raw, p, line, tail, hex);
    }
    forall line
      ensures line in Lines(raw) <==> IsLine(raw, line)
    {
      LinesAreExact(raw, line);
    }
  }

  /**
   What a load with the vault answers: the signature first, then the parse, the
   range, and the home. A configuration signed for one home is refused in any
   other, and in one that does not resolve.
   */
  lemma LoadAnswers(env: Environment, home: string, raw: string)
    ensures var r := LoadInner(env, home, Some(raw), true, true);
            && (!SignedUnder(env, raw) && HasTrailer(raw) ==> r == Failure(Tampered))
            && (!HasTrailer(raw) ==> r.Failure? && r.error.Unsigned?
                                     && (r.error.orphanLine <==>
                                           exists line :: IsLine(raw, line) && ParseHmacLine(line).Some?))
            && (SignedUnder(env, raw) ==>
                  match env.parse(raw)
                  case None => r == Failure(Unparsable)
                  case Some(c) =>
                    if !InRange(c) then r == Failure(OutOfRange)
                    else
                      match c.homeCanonical
                      case None => r == Success(c)
                      case Some(signedHome) =>
                        if env.canonicalize(home).None? then r == Failure(NoCanonicalHome)
                        else if env.canonicalize(home).value == ResolvedOr(env, signedHome) then r == Success(c)
                        else r == Failure(HomeRedirect))
  {
    hide CheckSignature, SignedUnder, HasTrailer, IsLine, ParseHmacLine, HasHmacLine;
    SignatureAnswers(env, raw);
  }

  /** Without the vault only parse and range are checked; without the home check the signed home does not matter. */
  lemma UncheckedLoads(env: Environment, home: string, raw: string, c: Config, checkHome: bool)
    requires env.parse(raw) == Some(c)
    ensures LoadInner(env, home, Some(raw), false, checkHome)
            == if InRange(c) then Success(c) else Failure(OutOfRange)
    ensures SignedUnder(env, raw) ==>
              LoadInner(env, home, Some(raw), true, false)
              == if InRange(c) then Success(c) else Failure(OutOfRange)
    ensures LoadInner(env, home, None, checkHome, checkHome) == Success(Config([], 30, None, None))
  {
    SignatureAnswers(env, raw);
    hide StripHmacTrailer, ParseHmacLine, HasHmacLine, SignedUnder;
  }

  /**
   Appending anything but line ends to a signed file makes a verified load
   refuse it, unless someone signed a longer payload that swallows the old one.
   */
  lemma AppendingIsRefused(env: Environment, home: string, raw: string, extra: string, checkHome: bool)
    requires StripHmacTrailer(raw).1.Some? && !AllNewlines(extra)
    ensures LoadInner(env, home, Some(raw + extra), true, checkHome).Success? ==>
              var (payload, tag) := StripHmacTrailer(raw + extra);
              && tag == Some(env.mac(payload))
              && StripHmacTrailer(raw).0 < payload
  {
    AppendingGrowsPayload(raw, extra);
    PayloadIsPrefix(raw);
    PayloadIsPrefix(raw + extra);
    hide StripHmacTrailer, HasHmacLine, ParseHmacLine;
    if |StripHmacTrailer(raw).0| < |StripHmacTrailer(raw + extra).0| {
      PrefixesNest(StripHmacTrailer(raw).0, raw, StripHmacTrailer(raw + extra).0, raw + extra);
    }
  }

  lemma PrefixesNest(p: string, raw: string, q: string, longer: string)
    requires p <= raw <= longer && q <= longer && |p| < |q|
    ensures p < q
  {
  }

  /** A text that ends in a line end is cut before what follows it. */
  lemma {:induction false} FirstLineOf(a: string, b: string)
    requires a != "" && a[|a| - 1] == '\n'
    ensures FirstLine(a + b) == (FirstLine(a).0, FirstLine(a).1 + b)
    ensures FirstLine(a).1 != "" ==> FirstLine(a).1[|FirstLine(a).1| - 1] == '\n'
    decreases |a|
  {
    if a[0] == '\n' {
      assert (a + b)[1..] == a[1..] + b;
    } else if a[0] == '\r' && a[1] == '\n' {
      assert (a + b)[2..] == a[2..] + b;
    } else {
      assert (a + b)[1..] == a[1..] + b;
      FirstLineOf(a[1..], b);
    }
  }

  lemma {:induction false} LinesOf(a: string, b: string)
    requires a != "" ==> a[|a| - 1] == '\n'
    ensures Lines(a + b) == Lines(a) + Lines(b)
    decreases |a|
  {
    if a == "" {
      assert a + b == b;
    } else {
      FirstLineOf(a, b);
      LinesOf(FirstLine(a).1, b);
    }
  }

  lemma {:induction false} OneLine(line: string)
    requires '\n' !in line && '\r' !in line
    ensures FirstLine(line + "\n") == (line, "")
    decreases |line|
  {
    if line != "" {
      var s := line + "\n";
      assert line[0] in line && s[0] == line[0] && s[1..] == line[1..] + "\n";
      OneLine(line[1..]);
      assert [line[0]] + line[1..] == line;
    }
  }

  /** The trailer of a written file is still among the lines once more is appended. */
  lemma AppendedKeepsTrailerLine(payload: string, hex: HexTag, extra: string)
    requires payload != "" ==> payload[|payload| - 1] == '\n'
    ensures HasHmacLine(Signed(payload, hex) + extra)
  {
    hide Lines, ParseHmacLine;
    var line := TrailerLine(" ", " ", hex, "");
    ParsesWritten(" ", " ", hex, "");
    assert line == "_hmac = \"" + hex + "\"";
    assert Signed(payload, hex) + extra == payload + (line + "\n" + extra);
    LinesOf(payload, line + "\n" + extra);
    NoLineEnd(hex);
    WrittenLineComesFirst(line, extra);
  }

  lemma NoLineEnd(hex: HexTag)
    ensures '\n' !in "_hmac = \"" + hex + "\"" && '\r' !in "_hmac = \"" + hex + "\""
  {
    assert '\n' !in hex && '\r' !in hex;
  }

  /** A line of a text: between line ends, which are no part of it, a carriage return before one included. */
  ghost predicate IsLine(s: string, line: string) {
    exists a, b :: LineAt(s, a, line, b)
  }

  predicate LineAt(s: string, a: string, line: string, b: string) {
    && s == a + line + b
    && (a != "" ==> a[|a| - 1] == '\n')
    && '\n' !in line
    && ("\r\n" <= b || ("\n" <= b && (line != "" ==> line[|line| - 1] != '\r')) || (b == "" && line != ""))
  }

  lemma LineGrows(c: char, s: string, line: string, b: string)
    requires LineAt(s, "", line, b) && c != '\n' && !(c == '\r' && "\n" <= s)
    ensures LineAt([c] + s, "", [c] + line, b)
  {
    assert [c] + s == [c] + line + b;
    if line == "" && "\n" <= b {
      assert s[0] == '\n';
    }
  }

  /** How the first line ends. */
  lemma {:induction false} FirstLineShape(s: string) returns (end: string)
    requires s != ""
    ensures var (line, rest) := FirstLine(s);
            && s == line + end + rest && LineAt(s, "", line, end + rest)
            && (end == "\n" || end == "\r\n" || (end == "" && rest == ""))
    decreases |s|
  {
    if s[0] == '\n' {
      end := "\n";
    } else if |s| == 1 {
      end := "";
    } else if s[0] == '\r' && s[1] == '\n' {
      end := "\r\n";
    } else {
      end := FirstLineShape(s[1..]);
      hide LineAt;
      var (line, rest) := FirstLine(s[1..]);
      LineGrows(s[0], s[1..], line, end + rest);
      assert s == [s[0]] + s[1..] == ([s[0]] + line) + end + rest;
    }
  }

  lemma {:induction false} FirstLineIs(line: string, b: string)
    requires LineAt(line + b, "", line, b)
    ensures line + b != "" && FirstLine(line + b).0 == line
    decreases |line|
  {
    var s := line + b;
    if line == "" {
      assert s == b;
    } else {
      assert line[0] in line && s[0] == line[0] && s[1..] == line[1..] + b;
      assert line == [line[0]] + line[1..];
      assert |line| > 1 ==> s[1] == line[1] && line[1] in line;
      if |s| > 1 {
        assert b == "" ==> line[1..] != "";
        assert line[1..] != "" ==> line[1..][|line| - 2] == line[|line| - 1];
        FirstLineIs(line[1..], b);
      }
    }
  }

  lemma LineIsFound(s: string, a: string, line: string, b: string)
    requires LineAt(s, a, line, b)
    ensures line in Lines(s)
  {
    assert s == a + (line + b);
    LinesOf(a, line + b);
    FirstLineIs(line, b);
  }

  lemma LineAfter(s: string, first: string, end: string, rest: string, a: string, line: string, b: string)
    requires s == first + end + rest && LineAt(rest, a, line, b)
    requires end == "\n" || end == "\r\n" || (end == "" && rest == "")
    ensures LineAt(s, first + end + a, line, b)
  {
    assert s == (first + end + a) + line + b;
  }

  lemma {:induction false} FoundIsLine(s: string, line: string) returns (a: string, b: string)
    requires line in Lines(s)
    ensures LineAt(s, a, line, b)
    decreases |s|
  {
    var end := FirstLineShape(s);
    hide LineAt;
    var (first, rest) := FirstLine(s);
    if line == first {
      a, b := "", end + rest;
    } else {
      var before;
      before, b := FoundIsLine(rest, line);
      LineAfter(s, first, end, rest, before, line, b);
      a := first + end + before;
    }
  }

  /** `Lines` gives exactly the lines. */
  lemma LinesAreExact(s: string, line: string)
    ensures line in Lines(s) <==> IsLine(s, line)
  {
    hide LineAt, Lines;
    if IsLine(s, line) {
      var a, b :| LineAt(s, a, line, b);
      LineIsFound(s, a, line, b);
    }
    if line in Lines(s) {
      var a, b := FoundIsLine(s, line);
    }
  }

  /** The written trailer line is among the lines of what begins with it. */
  lemma WrittenLineComesFirst(line: string, extra: string)
    requires '\n' !in line && '\r' !in line
    ensures line in Lines(line + "\n" + extra)
  {
    hide FirstLine;
    LinesOf(line + "\n", extra);
    OneLine(line);
    assert Lines(line + "\n")[0] == line;
  }

  /**
   A saved file with more appended is refused by name: unless what was appended
   ends in a trailer of its own, the refusal says that a signature is there but
   not last.
   */
  lemma AppendedOrphanIsReported(env: Environment, home: string, c: Config, extra: string, checkHome: bool)
    requires StripHmacTrailer(Document(env, c) + extra).1.None?
    ensures LoadInner(env, home, Some(Document(env, c) + extra), true, checkHome) == Failure(Unsigned(true))
  {
    hide StripHmacTrailer, HasHmacLine;
    AppendedKeepsTrailerLine(PayloadOf(env, c), env.mac(PayloadOf(env, c)), extra);
  }

  lemma PayloadIsPrefix(raw: string)
    ensures StripHmacTrailer(raw).0 <= raw
  {
    hide ParseHmacLine;
  }

  /** The home `save` signs for `c`: the caller's own, or the canonical one. */
  function HomeToSign(env: Environment, home: string, c: Config): Option<string> {
    if c.homeCanonical.Some? then c.homeCanonical else env.canonicalize(home)
  }

  /** Which configuration `save` prints, and when there is one. */
  lemma SavedDocument(env: Environment, home: string, c: Config)
    ensures var signedHome := HomeToSign(env, home, c);
            Saved(env, home, c) ==
            if signedHome.None? then Failure(NoCanonicalHome)
            else Success(Document(env, c.(homeCanonical := signedHome, hmacHex := None)))
  {
  }

  /**
   Save, then load with the vault: what comes back is the saved configuration
   with its home stamped, tag aside; and it comes back exactly when its timeout
   is in range and the stamped home is this home.
   */
  lemma LoadReturnsSaved(env: Environment, home: string, c: Config)
    requires Saved(env, home, c).Success?
    requires ReadsBack(env, c.(homeCanonical := HomeToSign(env, home, c)))
    ensures var stamped := c.(homeCanonical := HomeToSign(env, home, c));
            var loaded := LoadInner(env, home, Some(Saved(env, home, c).value), true, true);
            && (loaded.Success? ==> loaded.value.(hmacHex := None) == stamped.(hmacHex := None))
            && (loaded.Success? <==> InRange(c) && IsSignedHome(env, home, stamped))
  {
    hide Saved, StripHmacTrailer, ParseHmacLine, HasHmacLine, Signed;
    var printed := c.(homeCanonical := HomeToSign(env, home, c), hmacHex := None);
    SavedDocument(env, home, c);
    StripUndoesSigned(env.print_(printed), env.mac(PayloadOf(env, printed)));
    assert CheckSignature(env, Document(env, printed), true).Success?;
    hide Document;
    HomeIgnoresTag(env, home, env.parse(Document(env, printed)).value, printed);
  }

  /** The checks after parsing do not look at the captured tag. */
  lemma HomeIgnoresTag(env: Environment, home: string, a: Config, b: Config)
    requires a.(hmacHex := None) == b.(hmacHex := None)
    ensures Validate(a) == Validate(b) && CheckHome(env, home, a) == CheckHome(env, home, b)
  {
    assert a.timeoutSeconds == a.(hmacHex := None).timeoutSeconds == b.timeoutSeconds;
    assert a.homeCanonical == a.(hmacHex := None).homeCanonical == b.homeCanonical;
  }

  /** Stamping makes the home check pass wherever canonicalization is idempotent. */
  lemma StampedHomeIsHome(env: Environment, home: string, c: Config)
    requires c.homeCanonical.None? && env.canonicalize(home).Some?
    requires env.canonicalize(env.canonicalize(home).value) in {None, env.canonicalize(home)}
    ensures CheckHome(env, home, Stamped(c, env.canonicalize(home).value)).Success?
  {
  }

  /** So a configuration in range that leaves its home to `save` always comes back. */
  lemma SavedInPlaceLoads(env: Environment, home: string, c: Config)
    requires c.homeCanonical.None? && env.canonicalize(home).Some? && InRange(c)
    requires env.canonicalize(env.canonicalize(home).value) in {None, env.canonicalize(home)}
    requires Saved(env, home, c).Success? && ReadsBack(env, c.(homeCanonical := env.canonicalize(home)))
    ensures var loaded := LoadInner(env, home, Some(Saved(env, home, c).value), true, true);
            && loaded.Success?
            && loaded.value.(hmacHex := None) == c.(homeCanonical := env.canonicalize(home), hmacHex := None)
  {
    hide LoadInner, Document, ReadsBack;
    SavedDocument(env, home, c);
    LoadReturnsSaved(env, home, c);
    StampedHomeIsHome(env, home, c);
    HomeIgnoresTag(env, home, Stamped(c, env.canonicalize(home).value), c.(homeCanonical := env.canonicalize(home)));
  }
}
