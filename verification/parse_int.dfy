/**
  The global `parseInt(string, radix)` of ECMAScript (section 19.2.5 of
  ECMA-262), specialised to radix 10, as the credits route applies it to the
  `semester` query parameter.

  The steps that matter for radix 10 are: skip leading StrWhiteSpaceChar
  characters; remember a leading '-' and skip one leading '+' or '-'; take the
  longest run of decimal digits that follows; if that run is empty the result
  is NaN, otherwise it is the (signed) value of the run. Anything after the
  digits is ignored. NaN is modelled as `None`. Positions are indices into
  the original text. The result is the mathematical integer of step 16,
  before its conversion to the nearest double.
 */
module ParseInt {
  import opened Wrappers

  /** WhiteSpace (section 12.2) or LineTerminator (section 12.3) of ECMA-262:
      TAB, VT, FF, ZWNBSP, the space separators of category Zs, LF, CR, LS, PS. */
  predicate IsStrWhiteSpace(c: char) {
    var n := c as int;
    || n == 0x09 || n == 0x0B || n == 0x0C || n == 0xFEFF
    || n == 0x20 || n == 0xA0 || n == 0x1680 || (0x2000 <= n <= 0x200A)
    || n == 0x202F || n == 0x205F || n == 0x3000
    || n == 0x0A || n == 0x0D || n == 0x2028 || n == 0x2029
  }

  predicate IsDecimalDigit(c: char) {
    '0' <= c <= '9'
  }

  predicate IsSign(c: char) {
    c == '+' || c == '-'
  }

  predicate AllWhiteSpace(w: string) {
    forall i :: 0 <= i < |w| ==> IsStrWhiteSpace(w[i])
  }

  predicate AllDigits(ds: string) {
    forall i :: 0 <= i < |ds| ==> IsDecimalDigit(ds[i])
  }

  /** The first `k` characters of `s` are all white space. */
  predicate WhiteSpaceBefore(s: string, k: int)
    requires 0 <= k <= |s|
  {
    forall i :: 0 <= i < k ==> IsStrWhiteSpace(s[i])
  }

  /** At position `k` of `s` starts a digit, or a sign followed by a digit. */
  predicate NumberStartsAt(s: string, k: int)
    requires 0 <= k < |s|
  {
    IsDecimalDigit(s[k]) || (IsSign(s[k]) && k + 1 < |s| && IsDecimalDigit(s[k + 1]))
  }

  /** Reference description of the strings parseInt accepts in radix 10:
      some leading white space, then a digit, or a sign followed by a digit. */
  ghost predicate HasIntegerPrefix(s: string) {
    exists k :: 0 <= k < |s| && WhiteSpaceBefore(s, k) && NumberStartsAt(s, k)
  }

  /** Step 2 of parseInt (TrimString): the position of the first character
      at or after `k` that is not white space. */
  function SkipWhiteSpace(s: string, k: int): (j: int)
    requires 0 <= k <= |s|
    ensures k <= j <= |s|
    ensures forall i :: k <= i < j ==> IsStrWhiteSpace(s[i])
    ensures j == |s| || !IsStrWhiteSpace(s[j])
    decreases |s| - k
  {
    if k < |s| && IsStrWhiteSpace(s[k]) then SkipWhiteSpace(s, k + 1) else k
  }

  /** Steps 11 and 12 of parseInt: the end of the longest run of radix-10 digits
      starting at `k`. */
  function SkipDigits(s: string, k: int): (j: int)
    requires 0 <= k <= |s|
    ensures k <= j <= |s|
    ensures forall i :: k <= i < j ==> IsDecimalDigit(s[i])
    ensures j == |s| || !IsDecimalDigit(s[j])
    decreases |s| - k
  {
    if k < |s| && IsDecimalDigit(s[k]) then SkipDigits(s, k + 1) else k
  }

  function DigitValue(c: char): (d: nat)
    requires IsDecimalDigit(c)
    ensures d < 10
  {
    c as int - '0' as int
  }

  /** The mathematical integer a digit string denotes in radix 10
      (most significant digit first). */
  function DigitsValue(ds: string): nat
    requires AllDigits(ds)
  {
    if |ds| == 0 then 0
    else DigitsValue(ds[..|ds| - 1]) * 10 + DigitValue(ds[|ds| - 1])
  }

  /** Steps 1 and 2 of parseInt: where the text starts once white space is
      skipped. */
  function Start(s: string): int
    ensures 0 <= Start(s) <= |s|
  {
    SkipWhiteSpace(s, 0)
  }

  /** Step 4 of parseInt: the trimmed text starts with '-', so the sign is -1. */
  predicate IsNegated(s: string) {
    Start(s) < |s| && s[Start(s)] == '-'
  }

  /** Step 5 of parseInt: where the digits may start, after one sign. */
  function DigitsStart(s: string): (a: int)
    ensures Start(s) <= a <= |s|
  {
    if Start(s) < |s| && IsSign(s[Start(s)]) then Start(s) + 1 else Start(s)
  }

  /** Steps 11 and 12 of parseInt: where the digit run ends. */
  function DigitsEnd(s: string): (b: int)
    ensures DigitsStart(s) <= b <= |s|
  {
    SkipDigits(s, DigitsStart(s))
  }

  /** parseInt(s, 10); None stands for NaN (step 13); otherwise the signed
      value of the digits read (steps 14 to 16). Steps 6 to 10 only settle
      the radix, which is 10 here, so no "0x" prefix is stripped. */
  function ParseInt10(s: string): Option<int> {
    var a := DigitsStart(s);
    var b := DigitsEnd(s);
    if a == b then None
    else
      var magnitude: int := DigitsValue(s[a..b]);
      Some(if IsNegated(s) then -magnitude else magnitude)
  }

  /** White-space skipping stops at the first character that is not
      white space. */
  lemma SkipStopsAt(s: string, k: int)
    requires 0 <= k <= |s| && WhiteSpaceBefore(s, k)
    requires k == |s| || !IsStrWhiteSpace(s[k])
    ensures Start(s) == k
  {
  }

  /** Digit skipping stops at the first character that is not a digit. */
  lemma DigitsStopAt(s: string, a: int, b: int)
    requires 0 <= a <= b <= |s|
    requires forall i :: a <= i < b ==> IsDecimalDigit(s[i])
    requires b == |s| || !IsDecimalDigit(s[b])
    ensures SkipDigits(s, a) == b
  {
  }

  /** parseInt produces a number (not NaN) exactly when, after white space
      and an optional sign, a decimal digit follows. */
  lemma {:induction false} AcceptsExactly(s: string)
    ensures ParseInt10(s).Some? <==> HasIntegerPrefix(s)
  {
    var k := Start(s);
    if ParseInt10(s).Some? {
      assert WhiteSpaceBefore(s, k);
      assert NumberStartsAt(s, k);
    }
    if HasIntegerPrefix(s) {
      var j :| 0 <= j < |s| && WhiteSpaceBefore(s, j) && NumberStartsAt(s, j);
      SkipStopsAt(s, j);
      assert IsDecimalDigit(s[DigitsStart(s)]);
    }
  }

  /** Decimal rendering of a natural number, most significant digit first,
      without leading zeros. */
  function ToDecimal(n: nat): (ds: string)
    ensures |ds| > 0 && AllDigits(ds)
    ensures |ds| > 1 ==> ds[0] != '0'
    decreases n
  {
    var last := ['0' + (n % 10) as char];
    if n < 10 then last else ToDecimal(n / 10) + last
  }

  /** The decimal text of any integer, as Number::toString writes it for an
      integral value: a '-' before the digits when negative. */
  function IntToString(i: int): (s: string)
    ensures |s| > 0
  {
    if i < 0 then "-" + ToDecimal(-i) else ToDecimal(i)
  }

  /** From white space, an optional sign, a non-empty digit run and text
      that does not continue the digits, parseInt reads exactly that digit
      run, negated exactly when the sign is '-'. */
  lemma ReadsDigitRun(w: string, sign: string, ds: string, rest: string)
    requires AllWhiteSpace(w)
    requires sign == "" || sign == "+" || sign == "-"
    requires AllDigits(ds) && |ds| > 0
    requires rest == [] || !IsDecimalDigit(rest[0])
    ensures
      var s := w + sign + ds + rest;
      && DigitsStart(s) == |w| + |sign|
      && DigitsEnd(s) == |w| + |sign| + |ds|
      && (IsNegated(s) <==> sign == "-")
  {
    var s := w + sign + ds + rest;
    var a := |w| + |sign|;
    var b := a + |ds|;
    assert forall i :: 0 <= i < |w| ==> s[i] == w[i];
    assert s[|w|] == if sign == "" then ds[0] else sign[0];
    SkipStopsAt(s, |w|);
    assert forall i :: a <= i < b ==> s[i] == ds[i - a];
    assert b < |s| ==> s[b] == rest[0];
    DigitsStopAt(s, a, b);
  }

  /** The number parseInt returns once the digit run and the sign are
      known. */
  lemma ValueOfRun(s: string, ds: string, negative: bool)
    requires AllDigits(ds) && |ds| > 0
    requires s[DigitsStart(s)..DigitsEnd(s)] == ds
    requires IsNegated(s) <==> negative
    ensures ParseInt10(s) == Some(if negative then -(DigitsValue(ds) as int) else DigitsValue(ds))
  {
  }

  /** What parseInt returns for text `s` made of white space, an optional
      sign, a non-empty digit run and any text that does not continue the
      digits: the signed value of the digits, whatever follows them. */
  lemma ParsesWrittenInteger(s: string, w: string, sign: string, ds: string, rest: string)
    requires s == w + sign + ds + rest
    requires AllWhiteSpace(w)
    requires sign == "" || sign == "+" || sign == "-"
    requires AllDigits(ds) && |ds| > 0
    requires rest == [] || !IsDecimalDigit(rest[0])
    ensures ParseInt10(s) == Some(if sign == "-" then -(DigitsValue(ds) as int) else DigitsValue(ds))
  {
    var a := |w| + |sign|;
    ReadsDigitRun(w, sign, ds, rest);
    assert s[a..a + |ds|] == ds;
    ValueOfRun(s, ds, sign == "-");
  }

  /** Reading back a decimal rendering gives the number rendered. */
  lemma {:induction false} DecimalValue(n: nat)
    ensures DigitsValue(ToDecimal(n)) == n
    decreases n
  {
    var ds := ToDecimal(n);
    if n >= 10 {
      DecimalValue(n / 10);
      assert ds[..|ds| - 1] == ToDecimal(n / 10);
    }
  }

  /** parseInt inverts integer-to-text conversion, and ignores any text that
      follows the number as long as it does not start with a digit. */
  lemma ParseIntRoundTrip(i: int, rest: string)
    requires rest == [] || !IsDecimalDigit(rest[0])
    ensures ParseInt10(IntToString(i) + rest) == Some(i)
  {
    var m := if i < 0 then -i else i;
    var sign := if i < 0 then "-" else "";
    DecimalValue(m);
    ParsesWrittenInteger(IntToString(i) + rest, "", sign, ToDecimal(m), rest);
  }

  /** Text whose first character is neither white space nor the start of a
      number is NaN. */
  lemma StartsWithoutNumber(s: string)
    requires |s| > 0 && !IsStrWhiteSpace(s[0]) && !NumberStartsAt(s, 0)
    ensures ParseInt10(s) == None
  {
    SkipStopsAt(s, 0);
  }

  /** Trailing text after the digits is ignored: "3abc" reads as 3. */
  lemma TrailingTextIgnored()
    ensures ParseInt10("3abc") == Some(3)
  {
    assert "3abc" == "" + "" + "3" + "abc";
    ParsesWrittenInteger("3abc", "", "", "3", "abc");
  }

  /** Leading white space and a '-' sign are accepted: " -2" reads as -2. */
  lemma SignedWithSpaceAccepted()
    ensures ParseInt10(" -2") == Some(-2)
  {
    assert " -2" == " " + "-" + "2" + "";
    ParsesWrittenInteger(" -2", " ", "-", "2", "");
  }

  /** Text that starts with a letter is NaN. */
  lemma LettersRejected()
    ensures ParseInt10("abc") == None
  {
    StartsWithoutNumber("abc");
  }

  /** "undefined", the text an absent parameter converts to, is NaN. */
  lemma UndefinedRejected()
    ensures ParseInt10("undefined") == None
  {
    StartsWithoutNumber("undefined");
  }

  /** The empty string and a sign with no digit after it are NaN. */
  lemma NoDigitsRejected()
    ensures ParseInt10("") == None
    ensures ParseInt10("-") == None
  {
    StartsWithoutNumber("-");
  }
}
