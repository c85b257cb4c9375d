/**
 * The decimal and dotted-quad renderings that `format!` and `Ipv4Addr`'s
 * `Display` produce inside the command arguments, each with the parser
 * that inverts it.
 */
module Text {
  import opened Wrappers

  predicate IsDigit(ch: char) {
    '0' <= ch <= '9'
  }

  predicate AllDigits(s: string) {
    forall i :: 0 <= i < |s| ==> IsDigit(s[i])
  }

  function DigitChar(d: nat): (ch: char)
    requires d < 10
    ensures IsDigit(ch) && (ch == '0' <==> d == 0)
  {
    ('0' as int + d) as char
  }

  function DigitOf(ch: char): (d: nat)
    requires IsDigit(ch)
    ensures d < 10 && DigitChar(d) == ch
  {
    ch as int - '0' as int
  }

  /** `{}` of an unsigned integer: its decimal digits, no sign and no leading zero. */
  function Decimal(n: nat): (s: string)
    ensures |s| >= 1 && AllDigits(s)
    ensures s[0] == '0' ==> n == 0 && |s| == 1
    ensures '.' !in s && '/' !in s
  {
    if n < 10 then [DigitChar(n)] else Decimal(n / 10) + [DigitChar(n % 10)]
  }

  /** The value of a string of decimal digits, most significant first. */
  function DigitsValue(s: string): nat
    requires AllDigits(s)
  {
    if s == [] then 0 else DigitsValue(s[..|s| - 1]) * 10 + DigitOf(s[|s| - 1])
  }

  /** Reading the decimal rendering back gives the number. */
  lemma {:induction false} DecimalRoundTrip(n: nat)
    ensures DigitsValue(Decimal(n)) == n
  {
    if n >= 10 {
      var s := Decimal(n);
      assert s[..|s| - 1] == Decimal(n / 10);
      DecimalRoundTrip(n / 10);
    }
  }

  /** Different numbers render differently. */
  lemma DecimalInjective(m: nat, n: nat)
    requires Decimal(m) == Decimal(n)
    ensures m == n
  {
    DecimalRoundTrip(m);
    DecimalRoundTrip(n);
  }

  /** The four octets of a 32-bit address, most significant first. */
  function Octets(a: nat): (o: seq<nat>)
    ensures |o| == 4 && forall i :: 0 <= i < 4 ==> o[i] < 256
  {
    [a / 16777216 % 256, a / 65536 % 256, a / 256 % 256, a % 256]
  }

  /** `Ipv4Addr`'s `Display`: the four octets in decimal, separated by dots. */
  function Ipv4Text(a: nat): (r: string)
    ensures '/' !in r
  {
    var o := Octets(a);
    Decimal(o[0]) + "." + Decimal(o[1]) + "." + Decimal(o[2]) + "." + Decimal(o[3])
  }

  /** The pieces of `s` between dots. */
  function Split(s: string): (parts: seq<string>)
    ensures |parts| >= 1
  {
    if s == [] then [[]]
    else
      var rest := Split(s[1..]);
      if s[0] == '.' then [[]] + rest else [[s[0]] + rest[0]] + rest[1..]
  }

  lemma {:induction false} SplitAppend(a: string, b: string)
    requires '.' !in a
    ensures Split(a + "." + b) == [a] + Split(b)
  {
    if a == [] {
      assert a + "." + b == ['.'] + b;
      assert (['.'] + b)[1..] == b;
    } else {
      assert (a + "." + b)[0] == a[0];
      assert (a + "." + b)[1..] == a[1..] + "." + b;
      SplitAppend(a[1..], b);
      assert [a[0]] + a[1..] == a;
    }
  }

  lemma {:induction false} SplitPlain(a: string)
    requires '.' !in a
    ensures Split(a) == [a]
  {
    if a != [] {
      SplitPlain(a[1..]);
      assert [a[0]] + a[1..] == a;
    }
  }

  /** One dotted-quad component: a non-empty run of digits below 256. */
  function OctetValue(s: string): Option<nat> {
    if s != [] && AllDigits(s) && DigitsValue(s) < 256 then Some(DigitsValue(s)) else None
  }

  /** Parse dotted-quad text back to the address's integer form. */
  function ParseIpv4(s: string): (r: Option<nat>)
    ensures r.Some? ==> r.value < 4294967296
  {
    var parts := Split(s);
    if |parts| != 4 then None
    else match (OctetValue(parts[0]), OctetValue(parts[1]), OctetValue(parts[2]), OctetValue(parts[3]))
      case (Some(a), Some(b), Some(c), Some(d)) => Some(((a * 256 + b) * 256 + c) * 256 + d)
      case _ => None
  }

  /** Every 32-bit address survives rendering and parsing. */
  lemma Ipv4TextRoundTrip(a: nat)
    requires a < 4294967296
    ensures ParseIpv4(Ipv4Text(a)) == Some(a)
  {
    var o := Octets(a);
    var d0, d1, d2, d3 := Decimal(o[0]), Decimal(o[1]), Decimal(o[2]), Decimal(o[3]);
    assert Ipv4Text(a) == d0 + "." + d1 + "." + d2 + "." + d3;
    SplitQuad(d0, d1, d2, d3);
    OctetText(o[0]);
    OctetText(o[1]);
    OctetText(o[2]);
    OctetText(o[3]);
    OctetsRecombine(a);
  }

  /** One octet printed in decimal reads back as itself. */
  lemma OctetText(n: nat)
    requires n < 256
    ensures OctetValue(Decimal(n)) == Some(n)
  {
    DecimalRoundTrip(n);
  }

  lemma SplitQuad(d0: string, d1: string, d2: string, d3: string)
    requires '.' !in d0 && '.' !in d1 && '.' !in d2 && '.' !in d3
    ensures Split(d0 + "." + d1 + "." + d2 + "." + d3) == [d0, d1, d2, d3]
  {
    assert d0 + "." + d1 + "." + d2 + "." + d3 == d0 + "." + (d1 + "." + (d2 + "." + d3));
    SplitPlain(d3);
    SplitAppend(d2, d3);
    SplitAppend(d1, d2 + "." + d3);
    SplitAppend(d0, d1 + "." + (d2 + "." + d3));
  }

  lemma OctetsRecombine(a: nat)
    requires a < 4294967296
    ensures var o := Octets(a); ((o[0] * 256 + o[1]) * 256 + o[2]) * 256 + o[3] == a
  {
    var a1 := a / 256;
    var a2 := a1 / 256;
    var a3 := a2 / 256;
    assert a == a1 * 256 + a % 256;
    assert a1 == a2 * 256 + a1 % 256;
    assert a2 == a3 * 256 + a2 % 256;
    assert a3 < 256;
    assert a / 65536 == a2;
    assert a / 16777216 == a3;
  }

  /** The part of `s` before its first `c` and the part after it, if `c` occurs. */
  function SplitFirst(s: string, c: char): (r: Option<(string, string)>)
    ensures r.Some? ==> s == r.value.0 + [c] + r.value.1 && c !in r.value.0
    ensures r.None? <==> c !in s
  {
    if s == [] then None
    else if s[0] == c then Some(([], s[1..]))
    else match SplitFirst(s[1..], c)
      case None => None
      case Some((before, after)) => Some(([s[0]] + before, after))
  }

  lemma SplitFirstAt(a: string, c: char, b: string)
    requires c !in a
    ensures SplitFirst(a + [c] + b, c) == Some((a, b))
  {
    var r := SplitFirst(a + [c] + b, c);
    assert r.Some?;
    SplitFirstUnique(a, r.value.0, c, b, r.value.1);
  }

  lemma SplitFirstUnique(a: string, a': string, c: char, b: string, b': string)
    requires c !in a && c !in a'
    requires a + [c] + b == a' + [c] + b'
    ensures a == a' && b == b'
  {
    var s := a + [c] + b;
    assert forall k :: 0 <= k < |a| ==> s[k] == a[k];
    assert forall k :: 0 <= k < |a'| ==> s[k] == a'[k];
    assert s[|a|] == c && s[|a'|] == c;
    assert |a| == |a'|;
    assert a == s[..|a|] && a' == s[..|a'|];
    assert b == s[|a| + 1..] && b' == s[|a'| + 1..];
  }

  /** A non-empty run of decimal digits, read as a number. */
  function Number(s: string): (r: Option<nat>)
    ensures r.Some? ==> s != [] && AllDigits(s) && r.value == DigitsValue(s)
  {
    if s != [] && AllDigits(s) then Some(DigitsValue(s)) else None
  }

  lemma NumberDecimal(n: nat)
    ensures Number(Decimal(n)) == Some(n)
  {
    DecimalRoundTrip(n);
  }
}
