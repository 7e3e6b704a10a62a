/**
 The single-segment glob of the allowlist and its translation to a regular
 expression (src/allowlist/enforcer.rs, `glob_match`).
 */
module Glob {
  import opened Wrappers

  // ---------------------------------------------------------------------
  // What a glob means
  // ---------------------------------------------------------------------

  predicate SlashFree(s: string) {
    '/' !in s
  }

  /** `*` is any run without '/', every other character is itself. */
  predicate GlobMatches(pattern: string, s: string)
    decreases |pattern|
  {
    if pattern == "" then s == ""
    else if pattern[0] == '*' then
      exists k :: 0 <= k <= |s| && SlashFree(s[..k]) && GlobMatches(pattern[1..], s[k..])
    else s != "" && s[0] == pattern[0] && GlobMatches(pattern[1..], s[1..])
  }

  // ---------------------------------------------------------------------
  // The regular expressions the translation can emit
  // ---------------------------------------------------------------------

  /** One item of a pattern: a character, or a starred negated one-character class. */
  datatype Item = Literal(c: char) | StarNot(c: char)

  /** A pattern with its two anchors. */
  datatype Regex = Regex(anchoredStart: bool, items: seq<Item>, anchoredEnd: bool)

  /** The characters that mean something in the regex syntax, so that only a backslash makes them themselves. */
  predicate IsSpecial(c: char) {
    c in {'\\', '.', '+', '*', '?', '(', ')', '|', '[', ']', '{', '}', '^', '$'}
  }

  /** The regex reading of a character that starts an item, and how many it takes; None outside the fragment. */
  function ReadItem(s: string): (r: Option<(Item, nat)>)
    requires s != ""
    ensures r.Some? ==> 1 <= r.value.1 <= |s|
  {
    if s[0] == '\\' then
      if |s| >= 2 && IsSpecial(s[1]) && (|s| >= 3 ==> s[2] != '*') then Some((Literal(s[1]), 2)) else None
    else if s[0] == '[' then
      if |s| >= 5 && s[1] == '^' && !IsSpecial(s[2]) && s[3] == ']' && s[4] == '*' then Some((StarNot(s[2]), 5))
      else None
    else if IsSpecial(s[0]) then None
    else if |s| >= 2 && s[1] == '*' then None
    else Some((Literal(s[0]), 1))
  }

  /** Items up to the end of the string, and whether a closing `$` was there. */
  function ReadItems(s: string): Option<(seq<Item>, bool)>
    decreases |s|
  {
    if s == "" then Some(([], false))
    else if s == "$" then Some(([], true))
    else
      match ReadItem(s)
      case None => None
      case Some((item, n)) =>
        match ReadItems(s[n..])
        case None => None
        case Some((items, closed)) => Some(([item] + items, closed))
  }

  /** An optional `^`, items, an optional `$`. */
  function ReadRegex(s: string): Option<Regex> {
    var start := s != "" && s[0] == '^';
    match ReadItems(if start then s[1..] else s)
    case None => None
    case Some((items, closed)) => Some(Regex(start, items, closed))
  }

  /** The strings one item denotes. */
  predicate ItemDenotes(item: Item, s: string) {
    match item
    case Literal(c) => s == [c]
    case StarNot(c) => c !in s
  }

  /** Concatenation: some split gives each item its part. */
  predicate ItemsDenote(items: seq<Item>, s: string) {
    if items == [] then s == ""
    else exists k :: 0 <= k <= |s| && ItemDenotes(items[0], s[..k]) && ItemsDenote(items[1..], s[k..])
  }

  /** `Regex::is_match`: some substring, pinned to the ends by the anchors. */
  ghost predicate IsMatch(re: Regex, s: string) {
    exists i, j :: 0 <= i <= j <= |s|
                   && (re.anchoredStart ==> i == 0) && (re.anchoredEnd ==> j == |s|)
                   && ItemsDenote(re.items, s[i..j])
  }

  // ---------------------------------------------------------------------
  // The translation
  // ---------------------------------------------------------------------

  /** The characters the translation puts a backslash before. */
  predicate IsMeta(c: char) {
    c in ".+?()|[]{}^$\\"
  }

  function EscapeChar(c: char): string {
    if c == '*' then "[^/]*" else if IsMeta(c) then "\\" + [c] else [c]
  }

  function Escape(pattern: string): string {
    if pattern == "" then "" else EscapeChar(pattern[0]) + Escape(pattern[1..])
  }

  function GlobRegex(pattern: string): string {
    "^" + Escape(pattern) + "$"
  }

  lemma {:induction false} EscapeSnoc(pattern: string, c: char)
    ensures Escape(pattern + [c]) == Escape(pattern) + EscapeChar(c)
  {
    if pattern == "" {
      assert (pattern + [c])[1..] == "";
    } else {
      assert (pattern + [c])[1..] == pattern[1..] + [c];
      EscapeSnoc(pattern[1..], c);
    }
  }

  /** `glob_match` up to the regex engine: one buffer, one pass. */
  method TranslateGlob(pattern: string) returns (re: string)
    ensures re == GlobRegex(pattern)
  {
    hide IsMeta;
    re := "^";
    for i := 0 to |pattern|
      invariant re == "^" + Escape(pattern[..i])
    {
      var ch := pattern[i];
      if ch == '*' {
        re := re + "[^/]*";
      } else if IsMeta(ch) {
        re := re + "\\";
        re := re + [ch];
      } else {
        re := re + [ch];
      }
      EscapeSnoc(pattern[..i], ch);
      assert pattern[..i + 1] == pattern[..i] + [ch];
    }
    assert pattern[..|pattern|] == pattern;
    re := re + "$";
  }

  /** The item a pattern character should become. */
  function ItemOf(c: char): Item {
    if c == '*' then StarNot('/') else Literal(c)
  }

  function ItemsOf(pattern: string): seq<Item> {
    if pattern == "" then [] else [ItemOf(pattern[0])] + ItemsOf(pattern[1..])
  }

  /** No escape sequence begins with a star, so no item can absorb its successor. */
  lemma EscapeStartsPlain(pattern: string)
    ensures Escape(pattern) != "" ==> Escape(pattern)[0] != '*'
  {
  }

  lemma ReadEscaped(c: char, rest: string)
    requires rest != "" ==> rest[0] != '*'
    ensures ReadItem(EscapeChar(c) + rest) == Some((ItemOf(c), |EscapeChar(c)|))
    ensures (EscapeChar(c) + rest)[|EscapeChar(c)|..] == rest
  {
    var s := EscapeChar(c) + rest;
    if c == '*' {
      assert s[0] == '[' && s[1] == '^' && s[2] == '/' && s[3] == ']' && s[4] == '*';
    } else if IsMeta(c) {
      assert s[0] == '\\' && s[1] == c;
      assert |s| >= 3 ==> s[2] == rest[0];
    } else {
      assert s[0] == c;
      assert |s| >= 2 ==> s[1] == rest[0];
    }
  }

  lemma {:induction false} ReadEscape(pattern: string)
    ensures ReadItems(Escape(pattern) + "$") == Some((ItemsOf(pattern), true))
  {
    if pattern == "" {
      assert Escape(pattern) + "$" == "$";
    } else {
      var rest := Escape(pattern[1..]) + "$";
      EscapeStartsPlain(pattern[1..]);
      ReadEscaped(pattern[0], rest);
      ReadEscape(pattern[1..]);
      assert Escape(pattern) + "$" == EscapeChar(pattern[0]) + rest;
    }
  }

  /** The emitted string is a regex of the fragment, fully anchored, one item per pattern character. */
  lemma EmittedRegex(pattern: string)
    ensures ReadRegex(GlobRegex(pattern)) == Some(Regex(true, ItemsOf(pattern), true))
  {
    assert GlobRegex(pattern)[1..] == Escape(pattern) + "$";
    ReadEscape(pattern);
  }

  lemma {:induction false} ItemsDenoteGlob(pattern: string, s: string)
    ensures ItemsDenote(ItemsOf(pattern), s) <==> GlobMatches(pattern, s)
  {
    if pattern != "" {
      var items, rest := ItemsOf(pattern), pattern[1..];
      assert items[1..] == ItemsOf(rest);
      forall k | 0 <= k <= |s|
        ensures ItemsDenote(items[1..], s[k..]) <==> GlobMatches(rest, s[k..])
      {
        ItemsDenoteGlob(rest, s[k..]);
      }
      if pattern[0] != '*' {
        if s != "" && s[0] == pattern[0] && GlobMatches(rest, s[1..]) {
          assert s[..1] == [pattern[0]];
          assert ItemDenotes(items[0], s[..1]) && ItemsDenote(items[1..], s[1..]);
        }
        if ItemsDenote(items, s) {
          var k :| 0 <= k <= |s| && ItemDenotes(items[0], s[..k]) && ItemsDenote(items[1..], s[k..]);
          assert s[..k][0] == pattern[0] && k == 1;
        }
      } else {
        assert forall k :: 0 <= k <= |s| ==> (ItemDenotes(items[0], s[..k]) <==> SlashFree(s[..k]));
      }
    }
  }

  /** The translation preserves meaning: the emitted regex matches exactly what the glob denotes. */
  lemma TranslationPreservesMeaning(pattern: string, candidate: string)
    ensures ReadRegex(GlobRegex(pattern)).Some?
    ensures IsMatch(ReadRegex(GlobRegex(pattern)).value, candidate) <==> GlobMatches(pattern, candidate)
  {
    EmittedRegex(pattern);
    ItemsDenoteGlob(pattern, candidate);
    assert candidate[0..|candidate|] == candidate;
  }

  // ---------------------------------------------------------------------
  // Segment by segment
  // ---------------------------------------------------------------------

  /** The '/'-separated segments of a string; never empty. */
  function Segments(s: string): (r: seq<string>)
    ensures r != []
  {
    if s == "" then [""]
    else if s[0] == '/' then [""] + Segments(s[1..])
    else
      var rest := Segments(s[1..]);
      [[s[0]] + rest[0]] + rest[1..]
  }

  function Slashes(s: string): nat {
    if s == "" then 0 else (if s[0] == '/' then 1 else 0) + Slashes(s[1..])
  }

  lemma {:induction false} SegmentsCount(s: string)
    ensures |Segments(s)| == Slashes(s) + 1
    ensures forall i :: 0 <= i < |Segments(s)| ==> SlashFree(Segments(s)[i])
  {
    if s != "" {
      SegmentsCount(s[1..]);
    }
  }

  ghost predicate SegmentwiseMatches(patterns: seq<string>, parts: seq<string>) {
    |patterns| == |parts| && forall i :: 0 <= i < |patterns| ==> GlobMatches(patterns[i], parts[i])
  }

  lemma {:induction false} SlashFreePrefix(s: string, k: nat)
    requires k <= |s| && SlashFree(s[..k])
    ensures Segments(s)[0] == s[..k] + Segments(s[k..])[0]
    ensures Segments(s)[1..] == Segments(s[k..])[1..]
  {
    if k == 0 {
      assert s[0..] == s && s[..0] == "";
    } else {
      assert s[0] == s[..k][0] != '/';
      assert s[1..][..k - 1] == s[..k][1..] && s[1..][k - 1..] == s[k..];
      SlashFreePrefix(s[1..], k - 1);
    }
  }

  /** The first segment of a string is its longest slash-free prefix. */
  lemma {:induction false} FirstSegment(s: string)
    ensures |Segments(s)[0]| <= |s| && s[..|Segments(s)[0]|] == Segments(s)[0] && SlashFree(Segments(s)[0])
    ensures |Segments(s)[0]| < |s| ==> s[|Segments(s)[0]|] == '/'
    ensures forall k :: 0 <= k <= |Segments(s)[0]| ==> SlashFree(s[..k])
    ensures forall k :: |Segments(s)[0]| < k <= |s| ==> !SlashFree(s[..k])
  {
    if s != "" && s[0] != '/' {
      FirstSegment(s[1..]);
      var n := |Segments(s[1..])[0]|;
      assert Segments(s)[0] == [s[0]] + s[1..][..n] == s[..n + 1];
      forall k | n + 1 < k <= |s|
        ensures !SlashFree(s[..k])
      {
        assert s[..k][n + 1] == '/';
      }
      forall k | 0 <= k <= n + 1
        ensures SlashFree(s[..k])
      {
        assert forall i :: 0 <= i < k ==> s[..k][i] == s[..n + 1][i];
      }
    } else if s != "" {
      forall k | 0 < k <= |s|
        ensures !SlashFree(s[..k])
      {
        assert s[..k][0] == '/';
      }
    }
  }

  /** A match is a match of each segment with its segment; in particular slashes agree in number. */
  lemma {:induction false} MatchIsSegmentwise(pattern: string, s: string)
    ensures GlobMatches(pattern, s) <==> SegmentwiseMatches(Segments(pattern), Segments(s))
    decreases |pattern|
  {
    if pattern == "" {
      EmptyPattern(s);
    } else if pattern[0] == '*' {
      StarSegmentwise(pattern, s);
    } else if pattern[0] == '/' {
      SlashSegmentwise(pattern, s);
    } else {
      LiteralSegmentwise(pattern, s);
    }
  }

  lemma EmptyPattern(s: string)
    ensures SegmentwiseMatches(Segments(""), Segments(s)) <==> s == ""
  {
    SegmentwiseCons(Segments(""), Segments(s));
  }

  lemma SegmentwiseCons(ps: seq<string>, ss: seq<string>)
    requires ps != [] && ss != []
    ensures SegmentwiseMatches(ps, ss) <==> GlobMatches(ps[0], ss[0]) && SegmentwiseMatches(ps[1..], ss[1..])
  {
    if GlobMatches(ps[0], ss[0]) && SegmentwiseMatches(ps[1..], ss[1..]) {
      forall i | 0 <= i < |ps|
        ensures GlobMatches(ps[i], ss[i])
      {
        assert i > 0 ==> GlobMatches(ps[1..][i - 1], ss[1..][i - 1]);
      }
    }
    if SegmentwiseMatches(ps, ss) {
      forall i | 0 <= i < |ps| - 1
        ensures GlobMatches(ps[1..][i], ss[1..][i])
      {
        assert GlobMatches(ps[i + 1], ss[i + 1]);
      }
    }
  }

  lemma {:induction false} SlashSegmentwise(pattern: string, s: string)
    requires pattern != "" && pattern[0] == '/'
    ensures GlobMatches(pattern, s) <==> SegmentwiseMatches(Segments(pattern), Segments(s))
    decreases |pattern|, 0
  {
    SegmentwiseCons(Segments(pattern), Segments(s));
    if s != "" && s[0] == '/' {
      MatchIsSegmentwise(pattern[1..], s[1..]);
    }
  }

  lemma {:induction false} LiteralSegmentwise(pattern: string, s: string)
    requires pattern != "" && pattern[0] != '*' && pattern[0] != '/'
    ensures GlobMatches(pattern, s) <==> SegmentwiseMatches(Segments(pattern), Segments(s))
    decreases |pattern|, 0
  {
    var ps, ss, pr := Segments(pattern), Segments(s), Segments(pattern[1..]);
    SegmentwiseCons(ps, ss);
    assert ps[0][0] == pattern[0] && ps[0][1..] == pr[0] && ps[1..] == pr[1..];
    if s != "" && s[0] != '/' {
      var sr := Segments(s[1..]);
      assert ss[0][0] == s[0] && ss[0][1..] == sr[0] && ss[1..] == sr[1..];
      SegmentwiseCons(pr, sr);
      MatchIsSegmentwise(pattern[1..], s[1..]);
    }
  }

  lemma {:induction false} StarSegmentwise(pattern: string, s: string)
    requires pattern != "" && pattern[0] == '*'
    ensures GlobMatches(pattern, s) <==> SegmentwiseMatches(Segments(pattern), Segments(s))
    decreases |pattern|, 0
  {
    var ps, ss, pr := Segments(pattern), Segments(s), Segments(pattern[1..]);
    SegmentwiseCons(ps, ss);
    assert ps[0][0] == '*' && ps[0][1..] == pr[0] && ps[1..] == pr[1..];
    FirstSegment(s);
    forall k | 0 <= k <= |s| && SlashFree(s[..k])
      ensures k <= |ss[0]| && ss[0][..k] == s[..k]
      ensures GlobMatches(pattern[1..], s[k..]) <==>
              GlobMatches(pr[0], ss[0][k..]) && SegmentwiseMatches(ps[1..], ss[1..])
    {
      MatchIsSegmentwise(pattern[1..], s[k..]);
      SlashFreePrefix(s, k);
      SegmentwiseCons(pr, Segments(s[k..]));
      assert ss[0][k..] == Segments(s[k..])[0];
    }
    if GlobMatches(pattern, s) {
      var k :| 0 <= k <= |s| && SlashFree(s[..k]) && GlobMatches(pattern[1..], s[k..]);
      assert SlashFree(ss[0][..k]);
    }
    if GlobMatches(ps[0], ss[0]) {
      var k :| 0 <= k <= |ss[0]| && SlashFree(ss[0][..k]) && GlobMatches(pr[0], ss[0][k..]);
      assert s[..k] == ss[0][..k];
    }
  }

  lemma MatchKeepsSlashes(pattern: string, s: string)
    requires GlobMatches(pattern, s)
    ensures Slashes(s) == Slashes(pattern)
  {
    MatchIsSegmentwise(pattern, s);
    SegmentsCount(pattern);
    SegmentsCount(s);
  }

  /** A star-free pattern matches only itself. */
  lemma {:induction false} StarFreeMatchesItself(pattern: string, s: string)
    requires '*' !in pattern
    ensures GlobMatches(pattern, s) <==> s == pattern
  {
    if pattern != "" {
      if s != "" {
        StarFreeMatchesItself(pattern[1..], s[1..]);
        assert s == [s[0]] + s[1..] && pattern == [pattern[0]] + pattern[1..];
      }
    }
  }
}
