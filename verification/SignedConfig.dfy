/** The signed `config.toml`: trailer, loader and printer (src/config.rs). */
module SignedConfig {
  import opened Wrappers
  import opened StringSearch

  predicate IsHexDigit(c: char) {
    '0' <= c <= '9' || 'a' <= c <= 'f' || 'A' <= c <= 'F'
  }

  lemma HexDigits(c: char)
    ensures IsHexDigit(c) <==> c in "0123456789abcdefABCDEF"
  {
    var digits := "0123456789abcdefABCDEF";
    var n := c as int;
    if '0' <= c <= '9' {
      assert digits[n - 48] == c;
    } else if 'a' <= c <= 'f' {
      assert digits[n - 97 + 10] == c;
    } else if 'A' <= c <= 'F' {
      assert digits[n - 65 + 16] == c;
    }
  }

  predicate IsHexTag(s: string) {
    |s| == 64 && forall i :: 0 <= i < |s| ==> IsHexDigit(s[i])
  }

  type HexTag = s: string | IsHexTag(s) witness seq(64, i => '0')

  predicate IsNewline(c: char) {
    c == '\n' || c == '\r'
  }

  predicate AllNewlines(s: string) {
    forall i :: 0 <= i < |s| ==> IsNewline(s[i])
  }

  function TrimNewlines(s: string): (r: string)
    ensures r <= s && AllNewlines(s[|r|..])
    ensures r != "" ==> !IsNewline(r[|r| - 1])
  {
    if s != "" && IsNewline(s[|s| - 1]) then
      var r := TrimNewlines(s[..|s| - 1]);
      assert s[|r|..] == s[..|s| - 1][|r|..] + [s[|s| - 1]];
      r
    else s
  }

  function TrimReturns(s: string): (r: string)
    ensures r <= s && forall i :: |r| <= i < |s| ==> s[i] == '\r'
    ensures r != "" ==> r[|r| - 1] != '\r'
  {
    if s != "" && s[|s| - 1] == '\r' then TrimReturns(s[..|s| - 1]) else s
  }

  function StripPrefix(s: string, prefix: string): (r: Option<string>)
    ensures r.Some? <==> prefix <= s
    ensures r.Some? ==> s == prefix + r.value
  {
    if prefix <= s then Some(s[|prefix|..]) else None
  }

  // ---------------------------------------------------------------------
  // The trailer line
  // ---------------------------------------------------------------------

  function ParseHmacLine(line: string): Option<HexTag> {
    match StripPrefix(TrimReturns(line), "_hmac")
    case None => None
    case Some(afterKey) =>
      match StripPrefix(TrimStart(afterKey), "=")
      case None => None
      case Some(afterEquals) =>
        match StripPrefix(TrimStart(afterEquals), "\"")
        case None => None
        case Some(quoted) =>
          if quoted != "" && quoted[|quoted| - 1] == '"' && IsHexTag(quoted[..|quoted| - 1])
          then Some(quoted[..|quoted| - 1]) else None
  }

  predicate AllWhitespace(s: string) {
    forall i :: 0 <= i < |s| ==> IsWhitespace(s[i])
  }

  predicate AllReturns(s: string) {
    forall i :: 0 <= i < |s| ==> s[i] == '\r'
  }

  /** The written forms of a trailer line. */
  function TrailerLine(w1: string, w2: string, hex: HexTag, returns_: string): string {
    "_hmac" + (w1 + ("=" + (w2 + ("\"" + hex + "\"")))) + returns_
  }

  ghost predicate IsTrailerLine(line: string, hex: HexTag) {
    exists w1, w2, crs ::
        AllWhitespace(w1) && AllWhitespace(w2) && AllReturns(crs) && line == TrailerLine(w1, w2, hex, crs)
  }

  lemma {:induction false} TrimStartSplits(s: string) returns (w: string)
    ensures AllWhitespace(w) && s == w + TrimStart(s)
  {
    if s != "" && IsWhitespace(s[0]) {
      var v := TrimStartSplits(s[1..]);
      w := [s[0]] + v;
    } else {
      w := "";
    }
  }

  lemma {:induction false} TrimStartOf(w: string, s: string)
    requires AllWhitespace(w) && (s != "" ==> !IsWhitespace(s[0]))
    ensures TrimStart(w + s) == s
  {
    if w == "" {
      assert w + s == s;
    } else {
      assert (w + s)[1..] == w[1..] + s;
      TrimStartOf(w[1..], s);
    }
  }

  lemma {:induction false} TrimReturnsOf(s: string, crs: string)
    requires AllReturns(crs) && s != "" && s[|s| - 1] != '\r'
    ensures TrimReturns(s + crs) == s
  {
    if crs == "" {
      assert s + crs == s;
    } else {
      var n := |crs| - 1;
      assert (s + crs)[..|s| + n] == s + crs[..n];
      TrimReturnsOf(s, crs[..n]);
    }
  }

  /** A prefix read past whitespace leaves what follows it. */
  lemma PrefixPastWhitespace(w: string, prefix: string, rest: string)
    requires AllWhitespace(w) && prefix != "" && !IsWhitespace(prefix[0])
    ensures StripPrefix(TrimStart(w + (prefix + rest)), prefix) == Some(rest)
  {
    TrimStartOf(w, prefix + rest);
    assert (prefix + rest)[|prefix|..] == rest;
  }

  lemma ParsesWritten(w1: string, w2: string, hex: HexTag, crs: string)
    requires AllWhitespace(w1) && AllWhitespace(w2) && AllReturns(crs)
    ensures ParseHmacLine(TrailerLine(w1, w2, hex, crs)) == Some(hex)
  {
    hide StripPrefix, TrimStart, TrimReturns, IsHexDigit;
    var quoted := hex + "\"";
    var third := "\"" + hex + "\"";
    var second := "=" + (w2 + third);
    var first := "_hmac" + (w1 + second);
    assert third == "\"" + quoted;
    assert first[|first| - 1] == '"';
    TrimReturnsOf(first, crs);
    KeyPrefix(w1 + second);
    PrefixPastWhitespace(w1, "=", w2 + third);
    PrefixPastWhitespace(w2, "\"", quoted);
    assert quoted[..64] == hex;
  }

  lemma KeyPrefix(rest: string)
    ensures StripPrefix("_hmac" + rest, "_hmac") == Some(rest)
  {
    assert ("_hmac" + rest)[5..] == rest;
  }

  lemma WrittenParses(line: string)
    requires ParseHmacLine(line).Some?
    ensures IsTrailerLine(line, ParseHmacLine(line).value)
  {
    var body := TrimReturns(line);
    var crs := line[|body|..];
    var afterKey := StripPrefix(body, "_hmac").value;
    var w1 := TrimStartSplits(afterKey);
    var afterEquals := StripPrefix(TrimStart(afterKey), "=").value;
    var w2 := TrimStartSplits(afterEquals);
    var quoted := StripPrefix(TrimStart(afterEquals), "\"").value;
    var hex: HexTag := ParseHmacLine(line).value;
    assert quoted == hex + "\"";
    assert "\"" + quoted == "\"" + hex + "\"";
    assert line == body + crs;
    assert line == TrailerLine(w1, w2, hex, crs);
  }

  /** The parser accepts exactly the written forms. */
  lemma ParserIsExact(line: string, hex: HexTag)
    ensures ParseHmacLine(line) == Some(hex) <==> IsTrailerLine(line, hex)
  {
    if ParseHmacLine(line) == Some(hex) {
      WrittenParses(line);
    }
    if IsTrailerLine(line, hex) {
      var w1, w2, crs :|
          AllWhitespace(w1) && AllWhitespace(w2) && AllReturns(crs) && line == TrailerLine(w1, w2, hex, crs);
      ParsesWritten(w1, w2, hex, crs);
    }
  }

  // ---------------------------------------------------------------------
  // Splitting a file
  // ---------------------------------------------------------------------

  /** `strip_hmac_trailer`: the signed payload and its tag, or the whole file. */
  function StripHmacTrailer(raw: string): (string, Option<HexTag>) {
    var trimmed := TrimNewlines(raw);
    match FindLast(trimmed, '\n')
    case Some(i) =>
      (match ParseHmacLine(trimmed[i + 1..])
       case Some(hex) => (raw[..i + 1], Some(hex))
       case None => (raw, None))
    case None =>
      match ParseHmacLine(trimmed)
      case Some(hex) => ("", Some(hex))
      case None => (raw, None)
  }

  /** Whole lines, one trailer line, and nothing but line ends after it. */
  ghost predicate SplitsAs(raw: string, payload: string, line: string, tail: string, hex: HexTag) {
    && raw == payload + line + tail
    && (payload != "" ==> payload[|payload| - 1] == '\n')
    && '\n' !in line && ParseHmacLine(line) == Some(hex)
    && AllNewlines(tail)
  }

  lemma StrippedSplits(raw: string)
    requires StripHmacTrailer(raw).1.Some?
    ensures exists line, tail :: SplitsAs(raw, StripHmacTrailer(raw).0, line, tail, StripHmacTrailer(raw).1.value)
  {
    hide ParseHmacLine;
    var trimmed := TrimNewlines(raw);
    var (payload, tag) := StripHmacTrailer(raw);
    var line := trimmed[|payload|..];
    var tail := raw[|trimmed|..];
    assert raw == trimmed + tail && trimmed == payload + line;
    assert SplitsAs(raw, payload, line, tail, tag.value);
  }

  lemma {:induction false} TrimNewlinesOf(s: string, tail: string)
    requires AllNewlines(tail) && s != "" && !IsNewline(s[|s| - 1])
    ensures TrimNewlines(s + tail) == s
  {
    if tail == "" {
      assert s + tail == s;
    } else {
      var n := |tail| - 1;
      assert (s + tail)[..|s| + n] == s + tail[..n];
      TrimNewlinesOf(s, tail[..n]);
    }
  }

  /** A trailer line without its carriage returns: same parse, and it ends in a quote. */
  lemma TrailerCore(line: string, hex: HexTag) returns (core: string, crs: string)
    requires ParseHmacLine(line) == Some(hex)
    ensures line == core + crs && AllReturns(crs)
    ensures core != "" && core[|core| - 1] == '"' && ParseHmacLine(core) == Some(hex)
  {
    WrittenParses(line);
    var w1, w2, r :| AllWhitespace(w1) && AllWhitespace(w2) && AllReturns(r) && line == TrailerLine(w1, w2, hex, r);
    core, crs := TrailerLine(w1, w2, hex, ""), r;
    ParsesWritten(w1, w2, hex, "");
    assert core[|core| - 1] == '"';
  }

  lemma SplitIsStripped(raw: string, payload: string, line: string, tail: string, hex: HexTag)
    requires SplitsAs(raw, payload, line, tail, hex)
    ensures StripHmacTrailer(raw) == (payload, Some(hex))
  {
    hide ParseHmacLine;
    var core, crs := TrailerCore(line, hex);
    var trimmed := payload + core;
    assert raw == trimmed + (crs + tail);
    assert trimmed[|trimmed| - 1] == '"';
    TrimNewlinesOf(trimmed, crs + tail);
    LastNewline(payload, core, crs);
    assert raw[..|payload|] == payload;
    assert payload == "" ==> trimmed == core;
  }

  lemma LastNewline(payload: string, core: string, crs: string)
    requires payload != "" ==> payload[|payload| - 1] == '\n'
    requires '\n' !in core + crs
    ensures payload == "" ==> FindLast(payload + core, '\n').None?
    ensures payload != "" ==> FindLast(payload + core, '\n') == Some(|payload| - 1)
    ensures (payload + core)[|payload|..] == core
  {
    assert forall i :: 0 <= i < |core| ==> core[i] == (core + crs)[i];
    if payload != "" {
      var trimmed, i := payload + core, |payload| - 1;
      assert trimmed[i] == '\n' && trimmed[i + 1..] == core;
      FoundAt(trimmed, '\n', i);
    } else {
      assert payload + core == core;
    }
  }

  /** A file splits as signed exactly when it is payload, one parsable trailer line, and line ends. */
  lemma SplitIsExact(raw: string, payload: string, hex: HexTag)
    ensures StripHmacTrailer(raw) == (payload, Some(hex)) <==>
            exists line, tail :: SplitsAs(raw, payload, line, tail, hex)
  {
    if StripHmacTrailer(raw) == (payload, Some(hex)) {
      StrippedSplits(raw);
    }
    if exists line, tail :: SplitsAs(raw, payload, line, tail, hex) {
      var line, tail :| SplitsAs(raw, payload, line, tail, hex);
      SplitIsStripped(raw, payload, line, tail, hex);
    }
  }

  // ---------------------------------------------------------------------
  // Printing
  // ---------------------------------------------------------------------

  function WithFinalNewline(raw: string): (r: string)
    ensures r != "" && r[|r| - 1] == '\n'
  {
    if raw != "" && raw[|raw| - 1] == '\n' then raw else raw + "\n"
  }

  /** What `save` writes for a payload and its tag. */
  function Signed(payload: string, hex: HexTag): string {
    payload + "_hmac = \"" + hex + "\"\n"
  }

  /** Stripping what was written gives back the payload byte for byte, and its tag. */
  lemma StripUndoesSigned(raw: string, hex: HexTag)
    ensures StripHmacTrailer(Signed(WithFinalNewline(raw), hex)) == (WithFinalNewline(raw), Some(hex))
  {
    var payload := WithFinalNewline(raw);
    var line := TrailerLine(" ", " ", hex, "");
    ParsesWritten(" ", " ", hex, "");
    assert line == "_hmac = \"" + hex + "\"";
    assert '\n' !in hex;
    assert Signed(payload, hex) == payload + line + "\n";
    assert SplitsAs(Signed(payload, hex), payload, line, "\n", hex);
    SplitIsStripped(Signed(payload, hex), payload, line, "\n", hex);
  }

  // ---------------------------------------------------------------------
  // Nothing can be appended under an old signature
  // ---------------------------------------------------------------------

  /** A concatenation of three, character by character. */
  lemma TripleAt(a: string, b: string, c: string)
    ensures var s := a + b + c;
            && |s| == |a| + |b| + |c|
            && (forall k :: 0 <= k < |a| ==> s[k] == a[k])
            && (forall k :: |a| <= k < |a| + |b| ==> s[k] == b[k - |a|])
            && (forall k :: |a| + |b| <= k < |s| ==> s[k] == c[k - |a| - |b|])
  {
  }

  lemma QuotesIn(before: string, hex: HexTag, crs: string)
    requires '"' !in before && AllReturns(crs)
    ensures var line, q := before + ("\"" + hex + "\"") + crs, |before|;
            && |line| >= q + 66 && line[q] == '"' && line[q + 65] == '"'
            && (forall k :: 0 <= k < q ==> line[k] != '"')
            && (forall k :: q + 66 <= k < |line| ==> line[k] == '\r')
  {
    TripleAt(before, "\"" + hex + "\"", crs);
  }

  /** Where the two quotes of a trailer line stand. */
  lemma QuotesOf(line: string, hex: HexTag) returns (q: nat)
    requires ParseHmacLine(line) == Some(hex)
    ensures q + 66 <= |line| && line[q] == '"' && forall k :: 0 <= k < q ==> line[k] != '"'
    ensures line[q + 65] == '"' && forall k :: q + 66 <= k < |line| ==> line[k] == '\r'
  {
    WrittenParses(line);
    hide ParseHmacLine;
    var w1, w2, crs :|
        AllWhitespace(w1) && AllWhitespace(w2) && AllReturns(crs) && line == TrailerLine(w1, w2, hex, crs);
    var before := "_hmac" + w1 + "=" + w2;
    NoQuoteBefore(w1, w2, hex, crs);
    QuotesIn(before, hex, crs);
    q := |before|;
  }

  lemma NoQuoteBefore(w1: string, w2: string, hex: HexTag, crs: string)
    requires AllWhitespace(w1) && AllWhitespace(w2)
    ensures '"' !in "_hmac" + w1 + "=" + w2
    ensures TrailerLine(w1, w2, hex, crs) == "_hmac" + w1 + "=" + w2 + ("\"" + hex + "\"") + crs
  {
    assert !IsWhitespace('"');
    var third := "\"" + hex + "\"";
    assert "_hmac" + (w1 + ("=" + (w2 + third))) == "_hmac" + w1 + "=" + w2 + third;
  }

  /**
   Text appended to a signed file that is more than line ends is never covered
   by the old payload: the file is then either not signed at all, or its
   payload has grown past the old one.
   */
  lemma AppendingGrowsPayload(raw: string, extra: string)
    requires StripHmacTrailer(raw).1.Some?
    requires !AllNewlines(extra)
    ensures StripHmacTrailer(raw + extra).1.Some? ==> |StripHmacTrailer(raw).0| < |StripHmacTrailer(raw + extra).0|
  {
    hide ParseHmacLine;
    var longer := raw + extra;
    if StripHmacTrailer(longer).1.Some? {
      StrippedSplits(raw);
      StrippedSplits(longer);
      hide StripHmacTrailer;
      var (p, tag) := StripHmacTrailer(raw);
      var (p', tag') := StripHmacTrailer(longer);
      var line, tail :| SplitsAs(raw, p, line, tail, tag.value);
      var line', tail' :| SplitsAs(longer, p', line', tail', tag'.value);
      AppendedRest(p, line, tail, extra);
      RestIsLineEnds(longer, p, line, tail + extra, tag.value, p', line', tail', tag'.value);
    }
  }

  lemma AppendedRest(p: string, line: string, tail: string, extra: string)
    ensures p + line + tail + extra == p + line + (tail + extra)
    ensures AllNewlines(tail + extra) ==> AllNewlines(extra)
  {
    assert forall i :: 0 <= i < |extra| ==> extra[i] == (tail + extra)[|tail| + i];
  }

  /** If a text also reads as signed from no later on, what follows its trailer line is line ends. */
  lemma RestIsLineEnds(s: string, p: string, line: string, rest: string, hex: HexTag,
                       p': string, line': string, tail': string, hex': HexTag)
    requires s == p + line + rest && (p != "" ==> p[|p| - 1] == '\n')
    requires '\n' !in line && ParseHmacLine(line) == Some(hex)
    requires SplitsAs(s, p', line', tail', hex')
    ensures |p'| <= |p| ==> AllNewlines(rest)
  {
    var q := QuotesOf(line, hex);
    var q' := QuotesOf(line', hex');
    hide ParseHmacLine;
    TripleAt(p, line, rest);
    TripleAt(p', line', tail');
    if |p'| <= |p| {
      // The first quote of `line` is no line end, so it lies in `line'`; with it all of `p` beyond `p'`.
      assert s[|p| + q] == '"' && |p| + q < |p'| + |line'|;
      assert forall k :: |p'| <= k < |p'| + |line'| ==> s[k] != '\n';
      assert |p'| == |p|;
      assert s[|p| + q] == line'[q] && s[|p| + q'] == '"';
      assert q' <= q;
      assert s[|p| + q'] == line[q'];
      assert q == q';
      forall i | 0 <= i < |rest|
        ensures IsNewline(rest[i])
      {
        assert rest[i] == s[|p| + |line| + i];
      }
    }
  }
}
