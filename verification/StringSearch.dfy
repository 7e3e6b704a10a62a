/** Rust's string operations on `seq<char>`, and where they find what they look for. */
module StringSearch {
  import opened Wrappers

  /** `char::is_whitespace`: the Unicode White_Space property. */
  predicate IsWhitespace(c: char) {
    var n := c as int;
    || 0x09 <= n <= 0x0D || n == 0x20 || n == 0x85 || n == 0xA0 || n == 0x1680
    || 0x2000 <= n <= 0x200A || n == 0x2028 || n == 0x2029 || n == 0x202F || n == 0x205F || n == 0x3000
  }

  lemma AsciiWhitespace(c: char)
    requires c as int < 0x80
    ensures IsWhitespace(c) <==> c as int in {9, 10, 11, 12, 13, 32}
  {
  }

  function TrimStart(s: string): string {
    if s != "" && IsWhitespace(s[0]) then TrimStart(s[1..]) else s
  }

  function TrimEnd(s: string): string {
    if s != "" && IsWhitespace(s[|s| - 1]) then TrimEnd(s[..|s| - 1]) else s
  }

  function Trim(s: string): string {
    TrimEnd(TrimStart(s))
  }

  /** The first occurrence of a character. */
  function Find(s: string, c: char): (r: Option<nat>)
    ensures r.None? <==> c !in s
    ensures r.Some? ==> r.value < |s| && s[r.value] == c && c !in s[..r.value]
  {
    if s == "" then None
    else if s[0] == c then Some(0)
    else
      assert s == [s[0]] + s[1..];
      match Find(s[1..], c)
      case None => None
      case Some(i) =>
        assert s[..i + 1] == [s[0]] + s[1..][..i];
        Some(i + 1)
  }

  /** The last occurrence of a character. */
  function FindLast(s: string, c: char): (r: Option<nat>)
    ensures r.None? <==> c !in s
    ensures r.Some? ==> r.value < |s| && s[r.value] == c && c !in s[r.value + 1..]
  {
    if s == "" then None
    else if s[|s| - 1] == c then Some(|s| - 1)
    else
      assert s == s[..|s| - 1] + [s[|s| - 1]];
      match FindLast(s[..|s| - 1], c)
      case None => None
      case Some(i) =>
        assert s[i + 1..] == s[..|s| - 1][i + 1..] + [s[|s| - 1]];
        Some(i)
  }

  predicate SchemeMark(s: string, i: nat) {
    i + 3 <= |s| && s[i] == ':' && s[i + 1] == '/' && s[i + 2] == '/'
  }

  /** The first occurrence of `://`. */
  function FindScheme(s: string): (r: Option<nat>)
    ensures r.None? ==> forall i: nat :: !SchemeMark(s, i)
    ensures r.Some? ==> SchemeMark(s, r.value) && forall i: nat :: i < r.value ==> !SchemeMark(s, i)
  {
    if s == "" then None
    else if SchemeMark(s, 0) then Some(0)
    else
      assert forall i: nat :: i > 0 && SchemeMark(s, i) ==> SchemeMark(s[1..], i - 1);
      match FindScheme(s[1..])
      case None => None
      case Some(i) =>
        assert SchemeMark(s, i + 1);
        Some(i + 1)
  }

  lemma AbsentBefore(s: string, c: char, i: nat)
    requires i <= |s| && c !in s[..i]
    ensures forall m :: 0 <= m < i ==> s[m] != c
  {
    assert forall m :: 0 <= m < i ==> s[m] == s[..i][m];
  }

  lemma AbsentFrom(s: string, c: char, i: nat)
    requires i <= |s| && c !in s[i..]
    ensures forall m :: i <= m < |s| ==> s[m] != c
  {
    assert forall m :: i <= m < |s| ==> s[m] == s[i..][m - i];
  }

  lemma FoundAt(s: string, c: char, i: nat)
    requires i < |s| && s[i] == c
    ensures c !in s[..i] ==> Find(s, c) == Some(i)
    ensures c !in s[i + 1..] ==> FindLast(s, c) == Some(i)
  {
    if c !in s[..i] {
      AbsentBefore(s, c, i);
      AbsentBefore(s, c, Find(s, c).value);
    }
    if c !in s[i + 1..] {
      AbsentFrom(s, c, i + 1);
      AbsentFrom(s, c, FindLast(s, c).value + 1);
    }
  }

  lemma TrimmedAlready(s: string)
    requires s != "" && !IsWhitespace(s[0]) && !IsWhitespace(s[|s| - 1])
    ensures Trim(s) == s
  {
  }

  /** Trimming takes all the whitespace at both ends and nothing else. */
  lemma {:induction false} TrimStartIsExact(s: string) returns (a: string)
    ensures s == a + TrimStart(s) && forall i :: 0 <= i < |a| ==> IsWhitespace(a[i])
    ensures TrimStart(s) != "" ==> !IsWhitespace(TrimStart(s)[0])
  {
    if s != "" && IsWhitespace(s[0]) {
      var rest := TrimStartIsExact(s[1..]);
      a := [s[0]] + rest;
    } else {
      a := "";
    }
  }

  lemma {:induction false} TrimEndIsExact(s: string) returns (b: string)
    ensures s == TrimEnd(s) + b && forall i :: 0 <= i < |b| ==> IsWhitespace(b[i])
    ensures TrimEnd(s) != "" ==> !IsWhitespace(TrimEnd(s)[|TrimEnd(s)| - 1])
  {
    if s != "" && IsWhitespace(s[|s| - 1]) {
      var rest := TrimEndIsExact(s[..|s| - 1]);
      b := rest + [s[|s| - 1]];
    } else {
      b := "";
    }
  }

  lemma TrimIsExact(s: string) returns (a: string, b: string)
    ensures s == a + Trim(s) + b
    ensures forall i :: 0 <= i < |a| ==> IsWhitespace(a[i])
    ensures forall i :: 0 <= i < |b| ==> IsWhitespace(b[i])
    ensures Trim(s) != "" ==> !IsWhitespace(Trim(s)[0]) && !IsWhitespace(Trim(s)[|Trim(s)| - 1])
  {
    a := TrimStartIsExact(s);
    b := TrimEndIsExact(TrimStart(s));
    assert TrimStart(s) == Trim(s) + b;
    assert s == a + (Trim(s) + b);
  }

  lemma SchemeAt(s: string, i: nat)
    requires SchemeMark(s, i) && ':' !in s[..i]
    ensures FindScheme(s) == Some(i)
  {
    AbsentBefore(s, ':', i);
  }

  /** No `://` without a colon, nor with a single one that no slash follows. */
  lemma NoScheme(s: string)
    requires match Find(s, ':') case None => true
             case Some(i) => ':' !in s[i + 1..] && (i + 1 < |s| ==> s[i + 1] != '/')
    ensures FindScheme(s).None?
  {
    var colon := Find(s, ':');
    if colon.Some? {
      AbsentBefore(s, ':', colon.value);
      AbsentFrom(s, ':', colon.value + 1);
    }
    assert forall j: nat :: !SchemeMark(s, j);
  }
}
