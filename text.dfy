/** Character classes and the decimal conversions of the C++ stream library, as the
    taxonomy code uses them: `os << n` prints a number in decimal and `ss >> n`
    extracts one from the start of a string. */
module Text {

  datatype Option<T> = None | Some(value: T)

  /** An unsigned byte (`uchar`). */
  type Byte = x: int | 0 <= x < 256

  /** `isspace` in the "C" locale, which `>>` uses to skip and to end words. */
  predicate IsSpace(c: char) {
    c == ' ' || c == '\t' || c == '\n' || c == '\r' || c == '\U{000B}' || c == '\U{000C}'
  }

  predicate IsDigit(c: char) {
    '0' <= c <= '9'
  }

  predicate AllDigits(s: string) {
    forall i :: 0 <= i < |s| ==> IsDigit(s[i])
  }

  function DigitValue(c: char): (d: nat)
    requires IsDigit(c)
    ensures d < 10
  {
    c as int - '0' as int
  }

  function DigitChar(d: nat): (c: char)
    requires d < 10
    ensures IsDigit(c) && DigitValue(c) == d
  {
    ('0' as int + d) as char
  }

  /** Regrouping a concatenation of three strings. */
  lemma Associative(a: string, b: string, c: string)
    ensures a + (b + c) == a + b + c
  {
  }

  /** Nothing but white space from `i` up to `j`. */
  predicate Blank(s: string, i: nat, j: nat)
    requires i <= j <= |s|
  {
    forall k :: i <= k < j ==> IsSpace(s[k])
  }

  /** The first position at or after `p` that is not white space. */
  function SkipSpaces(s: string, p: nat): (q: nat)
    requires p <= |s|
    ensures p <= q <= |s|
    ensures forall i :: p <= i < q ==> IsSpace(s[i])
    ensures q < |s| ==> !IsSpace(s[q])
    decreases |s| - p
  {
    if p == |s| || !IsSpace(s[p]) then p else SkipSpaces(s, p + 1)
  }

  /** The first position at or after `p` that is white space: the end of a word. */
  function WordEnd(s: string, p: nat): (q: nat)
    requires p <= |s|
    ensures p <= q <= |s|
    ensures forall i :: p <= i < q ==> !IsSpace(s[i])
    ensures q < |s| ==> IsSpace(s[q])
    decreases |s| - p
  {
    if p == |s| || IsSpace(s[p]) then p else WordEnd(s, p + 1)
  }

  /** The end of the run of decimal digits that starts at `p`. */
  function DigitsEnd(s: string, p: nat): (q: nat)
    requires p <= |s|
    ensures p <= q <= |s|
    ensures AllDigits(s[p..q])
    ensures q < |s| ==> !IsDigit(s[q])
    decreases |s| - p
  {
    if p == |s| || !IsDigit(s[p]) then p else DigitsEnd(s, p + 1)
  }

  /** The value of a string of decimal digits. */
  function DigitsValue(s: string): nat
    requires AllDigits(s)
  {
    if s == [] then 0 else DigitsValue(s[..|s| - 1]) * 10 + DigitValue(s[|s| - 1])
  }

  /** `os << n` for an unsigned number. */
  function NatToString(n: nat): (r: string)
    ensures |r| > 0 && AllDigits(r)
  {
    if n < 10 then [DigitChar(n)] else NatToString(n / 10) + [DigitChar(n % 10)]
  }

  /** `os << n` for a signed number (`time_t`). */
  function IntToString(i: int): (r: string)
    ensures |r| > 0
  {
    if i < 0 then "-" + NatToString(-i) else NatToString(i)
  }

  /** `ss >> n` for an unsigned number (`size_t`): leading white space is skipped, an
      optional '+' is taken, then at least one digit is required; whatever follows the
      digits is left unread. */
  function ParseNat(s: string): (r: Option<nat>)
    ensures r.Some? ==> exists q :: 0 <= q < |s| && IsDigit(s[q])
  {
    var p := SkipSpaces(s, 0);
    var q := if p < |s| && s[p] == '+' then p + 1 else p;
    var e := DigitsEnd(s, q);
    if e == q then None else Some(DigitsValue(s[q..e]))
  }

  /** `ss >> n` for a signed number (`time_t`): as `ParseNat`, with an optional sign. */
  function ParseInt(s: string): (r: Option<int>)
    ensures r.Some? ==> exists q :: 0 <= q < |s| && IsDigit(s[q])
  {
    var p := SkipSpaces(s, 0);
    var neg := p < |s| && s[p] == '-';
    var q := if p < |s| && (s[p] == '+' || s[p] == '-') then p + 1 else p;
    var e := DigitsEnd(s, q);
    var v: int := DigitsValue(s[q..e]) as int;
    if e == q then None
    else if neg then Some(-v)
    else Some(v)
  }

  lemma {:induction false} DigitsValueOfNatToString(n: nat)
    ensures DigitsValue(NatToString(n)) == n
  {
    var r := NatToString(n);
    if n >= 10 {
      DigitsValueOfNatToString(n / 10);
      assert r[..|r| - 1] == NatToString(n / 10);
    }
  }

  /** Extracting what `<<` printed gives the number back. */
  lemma NatRoundTrip(n: nat)
    ensures ParseNat(NatToString(n)) == Some(n)
  {
    var s := NatToString(n);
    assert SkipSpaces(s, 0) == 0;
    assert DigitsEnd(s, 0) == |s| by { DigitsEndOfDigits(s, 0); }
    assert s[0..|s|] == s;
    DigitsValueOfNatToString(n);
  }

  lemma IntRoundTrip(i: int)
    ensures ParseInt(IntToString(i)) == Some(i)
  {
    if i < 0 {
      NegativeRoundTrip(i);
    } else {
      var s := IntToString(i);
      assert SkipSpaces(s, 0) == 0;
      DigitsEndOfDigits(s, 0);
      assert s[0..|s|] == s;
      DigitsValueOfNatToString(i);
    }
  }

  lemma NegativeRoundTrip(i: int)
    requires i < 0
    ensures ParseInt(IntToString(i)) == Some(i)
  {
    var t := NatToString(-i);
    var s := "-" + t;
    assert IntToString(i) == s;
    assert SkipSpaces(s, 0) == 0;
    assert DigitsEnd(s, 1) == |s| by { DigitsEndOfDigits(s, 1); }
    assert s[1..|s|] == t;
    DigitsValueOfNatToString(-i);
  }

  lemma DigitsEndOfDigits(s: string, p: nat)
    requires p <= |s| && forall i :: p <= i < |s| ==> IsDigit(s[i])
    ensures DigitsEnd(s, p) == |s|
    decreases |s| - p
  {
    if p < |s| { DigitsEndOfDigits(s, p + 1); }
  }

  /** Printed numbers hold no white space, so `>>` reads them back as one word. */
  lemma NumbersHaveNoSpaces(n: nat, i: int)
    ensures forall k :: 0 <= k < |NatToString(n)| ==> !IsSpace(NatToString(n)[k])
    ensures forall k :: 0 <= k < |IntToString(i)| ==> !IsSpace(IntToString(i)[k])
  {
    var t := if i < 0 then NatToString(-i) else NatToString(i);
    assert forall k :: 0 <= k < |t| ==> IsDigit(t[k]);
  }
}
