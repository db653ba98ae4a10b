/** Text helpers shared by the colour and CSS code: decimal rendering of integers
    (what a JavaScript template literal does with an integer), reading decimals
    back, JavaScript's String.prototype.trim, and Array.prototype.join. */
module Text {

  predicate IsDigit(c: char) { '0' <= c <= '9' }

  function DigitChar(d: nat): (c: char)
    requires d < 10
    ensures IsDigit(c) && c as int - '0' as int == d
  {
    ('0' as int + d) as char
  }

  function DigitValue(c: char): (d: nat)
    requires IsDigit(c)
    ensures d < 10 && DigitChar(d) == c
  {
    c as int - '0' as int
  }

  predicate AllDigits(s: string) {
    forall i :: 0 <= i < |s| ==> IsDigit(s[i])
  }

  /** Decimal rendering of a natural number, without leading zeros. */
  function NatToString(n: nat): (s: string)
    ensures |s| >= 1 && AllDigits(s)
    ensures s[0] == '0' ==> n == 0
    decreases n
  {
    if n < 10 then [DigitChar(n)] else NatToString(n / 10) + [DigitChar(n % 10)]
  }

  /** Decimal rendering of an integer, with a leading '-' for negatives. */
  function IntToString(i: int): (s: string)
    ensures |s| >= 1
    ensures i >= 0 ==> s == NatToString(i)
    ensures i < 0 ==> s == "-" + NatToString(-i)
  {
    if i < 0 then "-" + NatToString(-i) else NatToString(i)
  }

  /** The value of a string of decimal digits (0 for the empty string). */
  function ParseDecimal(s: string): nat
    requires AllDigits(s)
  {
    if |s| == 0 then 0 else ParseDecimal(s[..|s| - 1]) * 10 + DigitValue(s[|s| - 1])
  }

  lemma {:induction false} ParseNatToString(n: nat)
    ensures ParseDecimal(NatToString(n)) == n
    decreases n
  {
    var s := NatToString(n);
    if n >= 10 {
      ParseNatToString(n / 10);
      assert s[..|s| - 1] == NatToString(n / 10);
    }
  }

  /** Distinct numbers have distinct decimal renderings. */
  lemma NatToStringInjective(a: nat, b: nat)
    ensures NatToString(a) == NatToString(b) ==> a == b
  {
    ParseNatToString(a);
    ParseNatToString(b);
  }

  /** Distinct integers have distinct renderings: the sign tells a negative
      from a non-negative one, and the digits do the rest. */
  lemma IntToStringInjective(a: int, b: int)
    ensures IntToString(a) == IntToString(b) ==> a == b
  {
    if IntToString(a) == IntToString(b) {
      if a < 0 && b < 0 {
        assert NatToString(-a) == IntToString(a)[1..];
        NatToStringInjective(-a, -b);
      } else if a >= 0 && b >= 0 {
        NatToStringInjective(a, b);
      } else if a < 0 {
        assert false;
      } else {
        assert false;
      }
    }
  }

  /** A rendering holds only digits and '-'. */
  lemma IntToStringLacks(i: int, c: char)
    requires !IsDigit(c) && c != '-'
    ensures c !in IntToString(i)
  {
  }

  /** White space as String.prototype.trim removes it: the WhiteSpace and
      LineTerminator code points of the ECMAScript grammar. */
  predicate IsJsWhiteSpace(c: char) {
    c == '\t' || c == '\n' || c == '\U{000B}' || c == '\U{000C}' || c == '\r' || c == ' '
    || c == '\U{00A0}' || c == '\U{1680}' || ('\U{2000}' <= c <= '\U{200A}')
    || c == '\U{2028}' || c == '\U{2029}' || c == '\U{202F}' || c == '\U{205F}'
    || c == '\U{3000}' || c == '\U{FEFF}'
  }

  function TrimStart(s: string): (r: string)
    ensures |r| <= |s| && r == s[|s| - |r|..]
    ensures forall i :: 0 <= i < |s| - |r| ==> IsJsWhiteSpace(s[i])
    ensures |r| > 0 ==> !IsJsWhiteSpace(r[0])
  {
    if |s| > 0 && IsJsWhiteSpace(s[0]) then TrimStart(s[1..]) else s
  }

  function TrimEnd(s: string): (r: string)
    ensures |r| <= |s| && r == s[..|r|]
    ensures forall i :: |r| <= i < |s| ==> IsJsWhiteSpace(s[i])
    ensures |r| > 0 ==> !IsJsWhiteSpace(r[|r| - 1])
  {
    if |s| > 0 && IsJsWhiteSpace(s[|s| - 1]) then TrimEnd(s[..|s| - 1]) else s
  }

  /** r is the slice of s from k on, and everything of s around it is white space. */
  predicate TrimmedSliceAt(s: string, r: string, k: nat) {
    k + |r| <= |s| && r == s[k..k + |r|]
    && (forall i :: 0 <= i < k ==> IsJsWhiteSpace(s[i]))
    && (forall i :: k + |r| <= i < |s| ==> IsJsWhiteSpace(s[i]))
  }

  /** String.prototype.trim: white space removed from both ends. */
  function Trim(s: string): (r: string)
    ensures |r| == 0 || (!IsJsWhiteSpace(r[0]) && !IsJsWhiteSpace(r[|r| - 1]))
    ensures (forall i :: 0 <= i < |s| ==> !IsJsWhiteSpace(s[i])) ==> r == s
  {
    TrimEnd(TrimStart(s))
  }

  /** trim() removes white space and nothing else: the result is the slice of
      the text that starts after its leading white space, and all that is cut
      off on either side is white space. */
  lemma TrimRemovesOnlyWhiteSpace(s: string)
    ensures TrimmedSliceAt(s, Trim(s), |s| - |TrimStart(s)|)
    ensures |Trim(s)| == 0 || (!IsJsWhiteSpace(Trim(s)[0]) && !IsJsWhiteSpace(Trim(s)[|Trim(s)| - 1]))
  {
    var t := TrimStart(s);
    var r := TrimEnd(t);
    var k := |s| - |t|;
    SliceOfSuffix(s, t, r, k);
    TrailingAfterSlice(s, t, r, k);
    assert TrimmedSliceAt(s, r, k);
  }

  /** The slice r of the suffix t = s[k..] is the slice of s from k. */
  lemma SliceOfSuffix(s: string, t: string, r: string, k: nat)
    requires k <= |s| && t == s[k..] && |r| <= |t| && r == t[..|r|]
    ensures k + |r| <= |s| && r == s[k..k + |r|]
  {
  }

  /** What TrimEnd cut off the suffix t = s[k..] is the tail of s after k + |r|. */
  lemma TrailingAfterSlice(s: string, t: string, r: string, k: nat)
    requires k <= |s| && t == s[k..] && |r| <= |t|
    requires forall i :: |r| <= i < |t| ==> IsJsWhiteSpace(t[i])
    ensures forall i :: k + |r| <= i < |s| ==> IsJsWhiteSpace(s[i])
  {
    forall i | k + |r| <= i < |s| ensures IsJsWhiteSpace(s[i]) {
      assert s[i] == t[i - k];
    }
  }

  /** Array.prototype.join. */
  function Join(parts: seq<string>, sep: string): string
  {
    if |parts| == 0 then ""
    else if |parts| == 1 then parts[0]
    else parts[0] + sep + Join(parts[1..], sep)
  }
}
