/** The string helpers the TTL statements and summaries are built with:
    decimal formatting of integers as Go's `strconv.Itoa` does, and joining
    strings with a separator as `strings.Join` does, each with the parser
    that undoes it. */
module TtlStrings {

  predicate IsDigit(c: char) {
    '0' <= c <= '9'
  }

  function DigitChar(d: int): (c: char)
    requires 0 <= d < 10
    ensures IsDigit(c)
  {
    ['0', '1', '2', '3', '4', '5', '6', '7', '8', '9'][d]
  }

  function DigitValue(c: char): (d: int)
    requires IsDigit(c)
    ensures 0 <= d < 10
    ensures DigitChar(d) == c
  {
    if c == '0' then 0 else if c == '1' then 1 else if c == '2' then 2 else if c == '3' then 3
    else if c == '4' then 4 else if c == '5' then 5 else if c == '6' then 6 else if c == '7' then 7
    else if c == '8' then 8 else 9
  }

  /** The decimal digits of a natural number, most significant first, with no
      leading zero. */
  function NatString(n: nat): (s: string)
    ensures |s| > 0 && forall i :: 0 <= i < |s| ==> IsDigit(s[i])
    ensures |s| > 1 ==> s[0] != '0'
  {
    if n < 10 then [DigitChar(n)] else NatString(n / 10) + [DigitChar(n % 10)]
  }

  /** `strconv.Itoa`: a minus sign before the digits of a negative number. */
  function Itoa(n: int): (s: string)
    ensures |s| > 0
    ensures forall i :: 0 <= i < |s| ==> IsDigit(s[i]) || (i == 0 && s[i] == '-')
    ensures s[0] == '-' <==> n < 0
  {
    if n < 0 then "-" + NatString(-n) else NatString(n)
  }

  /** The value of a string of decimal digits. */
  function ParseNat(s: string): int
    requires forall i :: 0 <= i < |s| ==> IsDigit(s[i])
  {
    if |s| == 0 then 0 else 10 * ParseNat(s[..|s| - 1]) + DigitValue(s[|s| - 1])
  }

  /** The value of an optionally negative decimal string. */
  function ParseInt(s: string): int
    requires |s| > 0
    requires forall i :: 0 <= i < |s| ==> IsDigit(s[i]) || (i == 0 && s[i] == '-')
  {
    if s[0] == '-' then -ParseNat(s[1..]) else ParseNat(s)
  }

  lemma {:induction false} ParseNatString(n: nat)
    ensures ParseNat(NatString(n)) == n
  {
    if n >= 10 {
      var s := NatString(n);
      var q, d := n / 10, n % 10;
      assert n == 10 * q + d;
      assert s == NatString(q) + [DigitChar(d)];
      assert s[..|s| - 1] == NatString(q);
      ParseNatString(q);
    }
  }

  lemma ParseNegative(n: int)
    requires n > 0
    ensures ParseInt("-" + NatString(n)) == -n
  {
    var digits := NatString(n);
    assert ("-" + digits)[1..] == digits;
    ParseNatString(n);
  }

  /** Parsing undoes formatting. */
  lemma ParseItoa(n: int)
    ensures ParseInt(Itoa(n)) == n
  {
    if n < 0 {
      ParseNegative(-n);
    } else {
      ParseNatString(n);
    }
  }

  /** Formatting is injective: distinct ids give distinct strings. */
  lemma ItoaInjective(a: int, b: int)
    requires Itoa(a) == Itoa(b)
    ensures a == b
  {
    ParseItoa(a);
    ParseItoa(b);
  }

  /** `strings.Join`: the parts with `sep` between consecutive ones. The
      result starts with the first part. */
  function Join(parts: seq<string>, sep: string): (r: string)
    ensures |parts| > 0 ==> parts[0] <= r
    ensures |parts| > 1 ==> parts[0] + sep <= r
  {
    if |parts| == 0 then ""
    else if |parts| == 1 then parts[0]
    else parts[0] + sep + Join(parts[1..], sep)
  }

  /** The index of the first occurrence of `c`. */
  function IndexOf(s: string, c: char): (k: int)
    requires c in s
    ensures 0 <= k < |s| && s[k] == c && c !in s[..k]
  {
    if s[0] == c then 0
    else
      assert s == [s[0]] + s[1..];
      var k := IndexOf(s[1..], c);
      assert s[..k + 1] == [s[0]] + s[1..][..k];
      k + 1
  }

  /** Splits at every occurrence of the separator character, as
      `strings.Split` does for a one-character separator. */
  function Split(s: string, c: char): (r: seq<string>)
    ensures |r| > 0
    decreases |s|
  {
    if c !in s then [s]
    else
      var k := IndexOf(s, c);
      [s[..k]] + Split(s[k + 1..], c)
  }

  /** The first separator after a separator-free part is the one that ends
      it. */
  lemma {:induction false} IndexOfAfterPart(part: string, c: char, rest: string)
    requires c !in part
    ensures IndexOf(part + [c] + rest, c) == |part|
  {
    var s := part + [c] + rest;
    if |part| > 0 {
      assert s[0] == part[0];
      assert s[1..] == part[1..] + [c] + rest;
      IndexOfAfterPart(part[1..], c, rest);
    }
  }

  /** Splitting undoes joining when no part contains the separator. */
  lemma {:induction false} SplitJoin(parts: seq<string>, c: char)
    requires |parts| > 0
    requires forall i :: 0 <= i < |parts| ==> c !in parts[i]
    ensures Split(Join(parts, [c]), c) == parts
  {
    if |parts| > 1 {
      var head, rest := parts[0], Join(parts[1..], [c]);
      var s := head + [c] + rest;
      assert Join(parts, [c]) == s;
      assert s[|head|] == c;
      IndexOfAfterPart(head, c, rest);
      assert s[..|head|] == head;
      assert s[|head| + 1..] == rest;
      SplitJoin(parts[1..], c);
    }
  }
}
