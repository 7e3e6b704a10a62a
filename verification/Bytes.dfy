/**
 Byte strings as the hash inputs see them: fixed-width big-endian integers,
 length-prefixed texts, tagged optionals and '|'-joined lists, with the
 cancellation laws that make each of them unambiguous in front of any
 remainder.
 */
module Bytes {
  import opened Wrappers

  newtype byte = x: int | 0 <= x < 256

  const TWO_TO_THE_64: nat := 0x1_0000_0000_0000_0000

  /** A Rust string as UTF-8 bytes; its length always fits a `u64`. */
  type Text = s: seq<byte> | |s| < TWO_TO_THE_64

  type Int64 = n: int | -0x8000_0000_0000_0000 <= n < 0x8000_0000_0000_0000

  const PIPE: byte := 124

  predicate IsHexDigit(b: byte) {
    48 <= b <= 57 || 65 <= b <= 70 || 97 <= b <= 102
  }

  /** The hex form of a 32-byte MAC or digest. */
  type Tag = t: seq<byte> | |t| == 64 && forall i :: 0 <= i < |t| ==> IsHexDigit(t[i])
    witness seq(64, i => 48)

  /** HMAC-SHA256 under one key, or SHA-256: any function to 64 hex digits. */
  type Hash = seq<byte> -> Tag

  /** The bytes of an ASCII literal. */
  function Ascii(s: string): (r: seq<byte>)
    ensures |r| == |s|
    ensures forall i :: 0 <= i < |s| ==> r[i] == (s[i] as int % 256) as byte
  {
    seq(|s|, i requires 0 <= i < |s| => (s[i] as int % 256) as byte)
  }

  lemma PrefixCancel(p: seq<byte>, q: seq<byte>, x: seq<byte>, y: seq<byte>)
    requires p + x == q + y
    requires |p| == |q|
    ensures p == q && x == y
  {
    assert (p + x)[..|p|] == p && (q + y)[..|p|] == q;
    assert (p + x)[|p|..] == x && (q + y)[|p|..] == y;
  }

  lemma Associative(a: seq<byte>, b: seq<byte>, c: seq<byte>)
    ensures a + b + c == a + (b + c)
  {
  }

  // ---------------------------------------------------------------------
  // Fixed-width integers
  // ---------------------------------------------------------------------

  function BigEndian(n: nat, width: nat): (r: seq<byte>)
    ensures |r| == width
  {
    if width == 0 then [] else BigEndian(n / 256, width - 1) + [(n % 256) as byte]
  }

  function Pow256(k: nat): (r: nat)
    ensures r > 0
  {
    if k == 0 then 1 else 256 * Pow256(k - 1)
  }

  lemma {:induction false} BigEndianInjective(n: nat, m: nat, width: nat)
    requires n < Pow256(width) && m < Pow256(width)
    requires BigEndian(n, width) == BigEndian(m, width)
    ensures n == m
  {
    if width > 0 {
      var a, b := BigEndian(n / 256, width - 1), BigEndian(m / 256, width - 1);
      assert BigEndian(n, width)[..width - 1] == a && BigEndian(m, width)[..width - 1] == b;
      assert BigEndian(n, width)[width - 1] == BigEndian(m, width)[width - 1];
      BigEndianInjective(n / 256, m / 256, width - 1);
    }
  }

  function U64(n: nat): (r: seq<byte>)
    ensures |r| == 8
  {
    BigEndian(n, 8)
  }

  /** `i64::to_be_bytes`: two's complement. */
  function I64(n: Int64): (r: seq<byte>)
    ensures |r| == 8
  {
    BigEndian(if n < 0 then n + TWO_TO_THE_64 else n, 8)
  }

  lemma Pow256Of8()
    ensures Pow256(8) == TWO_TO_THE_64
  {
    assert Pow256(4) == 0x1_0000_0000;
    assert Pow256(6) == 0x1_0000_0000_0000;
  }

  /** The number a big-endian byte string denotes. */
  function ValueOf(s: seq<byte>): nat {
    if s == [] then 0 else 256 * ValueOf(s[..|s| - 1]) + s[|s| - 1] as int
  }

  lemma DivideTwice(n: nat, p: nat)
    requires p > 0
    ensures n / 256 / p == n / (256 * p)
  {
    var q := n / (256 * p);
    var r := n - 256 * p * q;
    assert 0 <= r < 256 * p;
    assert n / 256 == p * q + r / 256 by {
      assert n == 256 * (p * q) + r;
    }
    assert 0 <= r / 256 < p;
    QuotientOf(q, p, r / 256);
  }

  lemma TimesMonotone(p: nat, a: nat, b: nat)
    ensures a <= b ==> p * a <= p * b
  {
    if a <= b {
      assert p * b == p * a + p * (b - a);
    }
  }

  lemma QuotientOf(q: nat, p: nat, r: nat)
    requires r < p
    ensures (p * q + r) / p == q
  {
    var d := (p * q + r) / p;
    TimesMonotone(p, d + 1, q);
    TimesMonotone(p, q + 1, d);
  }

  /** Most significant byte first: byte `i` holds the digit of weight 256 to the number of bytes after it. */
  lemma {:induction false} BigEndianDigit(n: nat, width: nat, i: nat)
    requires i < width
    ensures BigEndian(n, width)[i] as int == n / Pow256(width - 1 - i) % 256
  {
    if i < width - 1 {
      BigEndianDigit(n / 256, width - 1, i);
      DivideTwice(n, Pow256(width - 2 - i));
    }
  }

  /** Reading the bytes back gives the number, if it fits. */
  lemma {:induction false} ValueOfBigEndian(n: nat, width: nat)
    requires n < Pow256(width)
    ensures ValueOf(BigEndian(n, width)) == n
  {
    if width > 0 {
      ValueOfBigEndian(n / 256, width - 1);
      assert BigEndian(n, width)[..width - 1] == BigEndian(n / 256, width - 1);
    }
  }

  /** A 64-bit count, byte by byte and as a whole. */
  lemma U64Bytes(n: nat)
    requires n < TWO_TO_THE_64
    ensures ValueOf(U64(n)) == n
    ensures forall i :: 0 <= i < 8 ==> U64(n)[i] as int == n / Pow256(7 - i) % 256
  {
    Pow256Of8();
    ValueOfBigEndian(n, 8);
    forall i | 0 <= i < 8
      ensures U64(n)[i] as int == n / Pow256(7 - i) % 256
    {
      BigEndianDigit(n, 8, i);
    }
  }

  /** A signed integer in two's complement: the sign is the first bit, the value that of the big-endian bytes. */
  lemma I64Bytes(n: Int64)
    ensures n >= 0 ==> ValueOf(I64(n)) == n
    ensures n < 0 ==> ValueOf(I64(n)) == n + 0x1_0000_0000_0000_0000
    ensures I64(n)[0] < 128 <==> n >= 0
    ensures forall i :: 0 <= i < 8 ==>
              I64(n)[i] as int == (if n < 0 then n + 0x1_0000_0000_0000_0000 else n) / Pow256(7 - i) % 256
  {
    var unsigned: nat := if n < 0 then n + TWO_TO_THE_64 else n;
    U64Bytes(unsigned);
    assert I64(n) == U64(unsigned);
    assert Pow256(7) == 0x100_0000_0000_0000 by {
      assert Pow256(4) == 0x1_0000_0000;
    }
    assert I64(n)[0] as int == unsigned / Pow256(7) % 256;
  }

  /** The length first, in eight bytes, then the text; and the one-byte marks of the optionals. */
  lemma TextBytes(s: Text)
    ensures |PutText(s)| == 8 + |s| && ValueOf(PutText(s)[..8]) == |s| && PutText(s)[8..] == s
    ensures PutOption(None) == [0]
    ensures PutOption(Some(s)) == [1] + PutText(s)
  {
    U64Bytes(|s|);
    assert PutText(s)[..8] == U64(|s|) && PutText(s)[8..] == s;
  }

  /** Equal fixed-width fields in front of anything are equal fields. */
  lemma I64Cancel(n: Int64, m: Int64, x: seq<byte>, y: seq<byte>)
    requires I64(n) + x == I64(m) + y
    ensures n == m && x == y
  {
    PrefixCancel(I64(n), I64(m), x, y);
    Pow256Of8();
    BigEndianInjective(if n < 0 then n + TWO_TO_THE_64 else n, if m < 0 then m + TWO_TO_THE_64 else m, 8);
  }

  // ---------------------------------------------------------------------
  // Length-prefixed texts and tagged optionals
  // ---------------------------------------------------------------------

  /** `put_str`: length as u64, then the bytes. */
  function PutText(s: Text): seq<byte> {
    U64(|s|) + s
  }

  /** `put_opt`: 0x00 for None, 0x01 and the text for Some. */
  function PutOption(o: Option<Text>): seq<byte> {
    match o
    case None => [0]
    case Some(s) => [1] + PutText(s)
  }

  lemma PutTextCancel(s: Text, t: Text, x: seq<byte>, y: seq<byte>)
    requires PutText(s) + x == PutText(t) + y
    ensures s == t && x == y
  {
    Associative(U64(|s|), s, x);
    Associative(U64(|t|), t, y);
    PrefixCancel(U64(|s|), U64(|t|), s + x, t + y);
    Pow256Of8();
    BigEndianInjective(|s|, |t|, 8);
    PrefixCancel(s, t, x, y);
  }

  lemma PutOptionCancel(o: Option<Text>, p: Option<Text>, x: seq<byte>, y: seq<byte>)
    requires PutOption(o) + x == PutOption(p) + y
    ensures o == p && x == y
  {
    OptionTail(o, x);
    OptionTail(p, y);
    PrefixCancel([OptionMark(o)], [OptionMark(p)], OptionBody(o) + x, OptionBody(p) + y);
    assert [OptionMark(o)][0] == [OptionMark(p)][0];
    if o.Some? {
      PutTextCancel(o.value, p.value, x, y);
    } else {
      assert [] + x == x && [] + y == y;
    }
  }

  function OptionMark(o: Option<Text>): byte {
    if o.None? then 0 else 1
  }

  function OptionBody(o: Option<Text>): seq<byte> {
    if o.None? then [] else PutText(o.value)
  }

  lemma OptionTail(o: Option<Text>, x: seq<byte>)
    ensures PutOption(o) + x == [OptionMark(o)] + (OptionBody(o) + x)
  {
    Associative([OptionMark(o)], OptionBody(o), x);
    assert PutOption(o) == [OptionMark(o)] + OptionBody(o);
  }

  function PutTexts(ss: seq<Text>): seq<byte> {
    if ss == [] then [] else PutText(ss[0]) + PutTexts(ss[1..])
  }

  function PutOptions(os: seq<Option<Text>>): seq<byte> {
    if os == [] then [] else PutOption(os[0]) + PutOptions(os[1..])
  }

  lemma {:induction false} PutTextsCancel(ss: seq<Text>, ts: seq<Text>, x: seq<byte>, y: seq<byte>)
    requires |ss| == |ts|
    requires PutTexts(ss) + x == PutTexts(ts) + y
    ensures ss == ts && x == y
  {
    if ss == [] {
      assert PutTexts(ss) + x == x && PutTexts(ts) + y == y;
    } else {
      Associative(PutText(ss[0]), PutTexts(ss[1..]), x);
      Associative(PutText(ts[0]), PutTexts(ts[1..]), y);
      PutTextCancel(ss[0], ts[0], PutTexts(ss[1..]) + x, PutTexts(ts[1..]) + y);
      PutTextsCancel(ss[1..], ts[1..], x, y);
      assert ss == [ss[0]] + ss[1..] && ts == [ts[0]] + ts[1..];
    }
  }

  lemma {:induction false} PutOptionsCancel(os: seq<Option<Text>>, ps: seq<Option<Text>>, x: seq<byte>, y: seq<byte>)
    requires |os| == |ps|
    requires PutOptions(os) + x == PutOptions(ps) + y
    ensures os == ps && x == y
  {
    if os == [] {
      assert PutOptions(os) + x == x && PutOptions(ps) + y == y;
    } else {
      Associative(PutOption(os[0]), PutOptions(os[1..]), x);
      Associative(PutOption(ps[0]), PutOptions(ps[1..]), y);
      PutOptionCancel(os[0], ps[0], PutOptions(os[1..]) + x, PutOptions(ps[1..]) + y);
      PutOptionsCancel(os[1..], ps[1..], x, y);
      assert os == [os[0]] + os[1..] && ps == [ps[0]] + ps[1..];
    }
  }

  lemma {:induction false} PutTextsSnoc(ss: seq<Text>, s: Text)
    ensures PutTexts(ss + [s]) == PutTexts(ss) + PutText(s)
  {
    if ss == [] {
      assert [] + [s] == [s] && [s][1..] == [];
      assert PutTexts([s]) == PutText(s) + PutTexts([]);
    } else {
      assert (ss + [s])[1..] == ss[1..] + [s];
      PutTextsSnoc(ss[1..], s);
    }
  }

  lemma {:induction false} PutOptionsSnoc(os: seq<Option<Text>>, o: Option<Text>)
    ensures PutOptions(os + [o]) == PutOptions(os) + PutOption(o)
  {
    if os == [] {
      assert [] + [o] == [o] && [o][1..] == [];
      assert PutOptions([o]) == PutOption(o) + PutOptions([]);
    } else {
      assert (os + [o])[1..] == os[1..] + [o];
      PutOptionsSnoc(os[1..], o);
    }
  }

  // ---------------------------------------------------------------------
  // '|'-joined lists
  // ---------------------------------------------------------------------

  function Join(parts: seq<Text>): seq<byte>
    requires parts != []
  {
    if |parts| == 1 then parts[0] else parts[0] + [PIPE] + Join(parts[1..])
  }

  predicate PipeFree(s: seq<byte>) {
    PIPE !in s
  }

  /** Every part except possibly the last is free of the delimiter. */
  predicate Delimited(parts: seq<Text>) {
    forall i :: 0 <= i < |parts| - 1 ==> PipeFree(parts[i])
  }

  lemma HeadCancel(s: seq<byte>, t: seq<byte>, x: seq<byte>, y: seq<byte>)
    requires PipeFree(s) && PipeFree(t)
    requires s + [PIPE] + x == t + [PIPE] + y
    ensures s == t && x == y
  {
    var a, b := s + [PIPE] + x, t + [PIPE] + y;
    assert a[|s|] == PIPE && b[|t|] == PIPE;
    assert forall i :: 0 <= i < |s| ==> a[i] == s[i];
    assert forall i :: 0 <= i < |t| ==> b[i] == t[i];
    PrefixCancel(s + [PIPE], t + [PIPE], x, y);
    assert (s + [PIPE])[..|s|] == s && (t + [PIPE])[..|t|] == t;
  }

  lemma JoinHasPipe(parts: seq<Text>)
    requires parts != []
    ensures |parts| > 1 ==> PIPE in Join(parts)
  {
    if |parts| > 1 {
      assert Join(parts)[|parts[0]|] == PIPE;
    }
  }

  /**
   A joined list is read back uniquely as soon as all parts but the last are
   pipe-free, and the last part of the shorter list is pipe-free as well.
   */
  lemma {:induction false} JoinInjective(a: seq<Text>, b: seq<Text>)
    requires a != [] && b != []
    requires Delimited(a) && Delimited(b)
    requires |a| < |b| ==> PipeFree(a[|a| - 1])
    requires |b| < |a| ==> PipeFree(b[|b| - 1])
    requires Join(a) == Join(b)
    ensures a == b
  {
    if |a| == 1 && |b| == 1 {
      assert a == [a[0]] && b == [b[0]];
    } else if |a| == 1 || |b| == 1 {
      JoinHasPipe(a);
      JoinHasPipe(b);
      assert false;
    } else {
      HeadCancel(a[0], b[0], Join(a[1..]), Join(b[1..]));
      JoinInjective(a[1..], b[1..]);
      assert a == [a[0]] + a[1..] && b == [b[0]] + b[1..];
    }
  }

  lemma {:induction false} JoinSnoc(parts: seq<Text>, s: Text)
    requires parts != []
    ensures Join(parts + [s]) == Join(parts) + [PIPE] + s
  {
    if |parts| == 1 {
      assert (parts + [s])[1..] == [s];
    } else {
      assert (parts + [s])[1..] == parts[1..] + [s];
      JoinSnoc(parts[1..], s);
    }
  }
}
