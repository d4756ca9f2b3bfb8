/** Decimal text for integers and the `" + "`-joined lists that FormatString renders,
    with the parsers that read them back. */
module Text {

  /** The decimal digit character for `d`. */
  function DigitChar(d: nat): char
    requires d < 10
  {
    "0123456789"[d]
  }

  predicate IsDigit(c: char) {
    '0' <= c <= '9'
  }

  /** Decimal numeral of a natural number, most significant digit first, no leading zeros. */
  function NatToString(n: nat): string
    decreases n
  {
    if n < 10 then [DigitChar(n)] else NatToString(n / 10) + [DigitChar(n % 10)]
  }

  /** Decimal text of an integer: a leading '-' for negatives, as BigInteger.ToString() gives. */
  function IntToString(i: int): string {
    if i < 0 then "-" + NatToString(-i) else NatToString(i)
  }

  /** Value of a string of decimal digits. */
  function ParseNat(s: string): nat
    decreases |s|
  {
    if s == [] then 0
    else
      var c := s[|s| - 1];
      ParseNat(s[..|s| - 1]) * 10 + (if IsDigit(c) then (c as int) - ('0' as int) else 0)
  }

  /** Value of an optionally '-'-signed decimal numeral. */
  function ParseInt(s: string): int {
    if |s| > 0 && s[0] == '-' then -(ParseNat(s[1..]) as int) else ParseNat(s)
  }

  /** Position of the first `c` in `s`, or `|s|` when there is none. */
  function FirstIndex(s: string, c: char): (k: nat)
    ensures k <= |s|
    ensures forall j :: 0 <= j < k ==> s[j] != c
    ensures k < |s| ==> s[k] == c
  {
    if s == [] then 0 else if s[0] == c then 0 else 1 + FirstIndex(s[1..], c)
  }

  /** string.Join(sep, pieces). */
  function Join(pieces: seq<string>, sep: string): string
    decreases |pieces|
  {
    if |pieces| == 0 then ""
    else if |pieces| == 1 then pieces[0]
    else pieces[0] + sep + Join(pieces[1..], sep)
  }

  /** Splits at every `" + "`, the inverse of `Join(_, " + ")` on pieces without '+'. */
  function SplitTerms(s: string): seq<string>
    decreases |s|
  {
    var k := FirstIndex(s, '+');
    if k < 1 || |s| < k + 2 then [s] else [s[..k - 1]] + SplitTerms(s[k + 2..])
  }

  /** Only digits, and '-' nowhere but at the front. */
  predicate IsNumeral(s: string) {
    |s| > 0 && (forall j :: 0 < j < |s| ==> IsDigit(s[j])) && (IsDigit(s[0]) || s[0] == '-')
  }

  lemma {:induction false} NatToStringDigits(n: nat)
    ensures |NatToString(n)| > 0
    ensures forall j :: 0 <= j < |NatToString(n)| ==> IsDigit(NatToString(n)[j])
    decreases n
  {
    if n >= 10 {
      NatToStringDigits(n / 10);
    }
  }

  /** The decimal text of an integer is a numeral. */
  lemma IntToStringIsNumeral(i: int)
    ensures IsNumeral(IntToString(i))
  {
    NatToStringDigits(if i < 0 then -i else i);
  }

  /** Reading back a natural number's decimal text gives the number. */
  lemma {:induction false} ParseNatToString(n: nat)
    ensures ParseNat(NatToString(n)) == n
    decreases n
  {
    if n >= 10 {
      var s := NatToString(n);
      ParseNatToString(n / 10);
      assert s[..|s| - 1] == NatToString(n / 10);
      assert s[|s| - 1] == DigitChar(n % 10);
      DigitCharValue(n % 10);
    }
  }

  /** The digit character for `d` is a digit worth `d`. */
  lemma DigitCharValue(d: nat)
    requires d < 10
    ensures IsDigit(DigitChar(d)) && (DigitChar(d) as int) - ('0' as int) == d
  {
  }

  /** Reading back an integer's decimal text gives the integer. */
  lemma ParseIntToString(i: int)
    ensures ParseInt(IntToString(i)) == i
  {
    var m := if i < 0 then -i else i;
    ParseNatToString(m);
    NatToStringDigits(m);
    if i < 0 {
      assert IntToString(i)[1..] == NatToString(m);
    }
  }

  /** The first occurrence of `c` behind a prefix that does not contain it. */
  lemma {:induction false} FirstIndexAfter(a: string, b: string, c: char)
    requires Avoids(a, c)
    ensures FirstIndex(a + b, c) == |a| + FirstIndex(b, c)
    decreases |a|
  {
    if a != [] {
      assert (a + b)[1..] == a[1..] + b;
      FirstIndexAfter(a[1..], b, c);
    } else {
      assert a + b == b;
    }
  }

  /** `c` does not occur in `s`. */
  predicate Avoids(s: string, c: char) {
    forall j :: 0 <= j < |s| ==> s[j] != c
  }

  /** A piece without '+' in front of `" + "` is split off whole. */
  lemma SplitTermsStep(p: string, rest: string)
    requires Avoids(p, '+')
    ensures SplitTerms(p + " + " + rest) == [p] + SplitTerms(rest)
  {
    var s := p + " + " + rest;
    assert s == p + (" + " + rest);
    FirstIndexAfter(p, " + " + rest, '+');
    assert FirstIndex(s, '+') == |p| + 1;
    assert s[..|p|] == p;
    assert s[|p| + 3..] == rest;
  }

  /** Splitting undoes joining with `" + "` when the pieces contain no '+'. */
  lemma {:induction false} SplitJoin(pieces: seq<string>)
    requires |pieces| > 0
    requires forall k :: 0 <= k < |pieces| ==> Avoids(pieces[k], '+')
    ensures SplitTerms(Join(pieces, " + ")) == pieces
    decreases |pieces|
  {
    var p := pieces[0];
    assert Avoids(p, '+');
    if |pieces| == 1 {
      assert FirstIndex(p, '+') == |p|;
      assert pieces == [p];
    } else {
      SplitTermsStep(p, Join(pieces[1..], " + "));
      SplitJoin(pieces[1..]);
      assert pieces == [p] + pieces[1..];
    }
  }
}
