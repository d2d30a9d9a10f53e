/**
 * Decimal numerals: Ruby's `Integer#to_s` and `String#to_i`, as far as the
 * statistics code uses them (decade labels, date keys, the year parameter).
 */
module Text {

  predicate IsDigit(c: char) {
    '0' <= c <= '9'
  }

  predicate AllDigits(s: string) {
    forall i :: 0 <= i < |s| ==> IsDigit(s[i])
  }

  function DigitChar(n: nat): (c: char)
    requires n < 10
    ensures IsDigit(c) && c as int - '0' as int == n
  {
    ('0' as int + n) as char
  }

  /** The value of a string of decimal digits; leading zeros are allowed. */
  function DecimalValue(s: string): nat
    requires AllDigits(s)
  {
    if s == [] then 0 else DecimalValue(s[..|s| - 1]) * 10 + (s[|s| - 1] as int - '0' as int)
  }

  /** `n.to_s` for a natural number: its shortest decimal numeral. */
  function NatToDecimal(n: nat): (s: string)
    ensures |s| >= 1 && AllDigits(s)
    ensures |s| > 1 ==> s[0] != '0'
  {
    if n < 10 then [DigitChar(n)] else NatToDecimal(n / 10) + [DigitChar(n % 10)]
  }

  /** `i.to_s`: a minus sign for negative numbers, then the digits. */
  function IntToDecimal(i: int): (s: string)
    ensures |s| >= 1
    ensures s[0] == '-' <==> i < 0
  {
    if i < 0 then "-" + NatToDecimal(-i) else NatToDecimal(i)
  }

  /** `"%.<width>d"` for a natural number: zero-padded on the left to at least `width` digits. */
  function PadDecimal(n: nat, width: nat): (s: string)
    ensures AllDigits(s) && |s| >= width && |s| >= 1
  {
    var digits := NatToDecimal(n);
    if |digits| >= width then digits else Zeros(width - |digits|) + digits
  }

  lemma ShortNumeral(n: nat)
    requires n < 100
    ensures |NatToDecimal(n)| <= 2
  {
    if n >= 10 {
      assert NatToDecimal(n) == NatToDecimal(n / 10) + [DigitChar(n % 10)];
    }
  }

  function Zeros(k: nat): (s: string)
    ensures |s| == k && AllDigits(s) && DecimalValue(s) == 0
  {
    if k == 0 then [] else Zeros(k - 1) + ['0']
  }

  lemma {:induction false} DecimalOfNatToDecimal(n: nat)
    ensures DecimalValue(NatToDecimal(n)) == n
  {
    if n >= 10 {
      DecimalOfNatToDecimal(n / 10);
      var s := NatToDecimal(n);
      assert s[..|s| - 1] == NatToDecimal(n / 10);
    }
  }

  /** Leading zeros do not change the value of a numeral. */
  lemma {:induction false} DecimalIgnoresLeadingZeros(k: nat, s: string)
    requires AllDigits(s)
    ensures DecimalValue(Zeros(k) + s) == DecimalValue(s)
  {
    if s != [] {
      var t := Zeros(k) + s;
      assert t[..|t| - 1] == Zeros(k) + s[..|s| - 1];
      DecimalIgnoresLeadingZeros(k, s[..|s| - 1]);
    } else {
      assert Zeros(k) + s == Zeros(k);
    }
  }

  lemma PadDecimalValue(n: nat, width: nat)
    ensures DecimalValue(PadDecimal(n, width)) == n
  {
    var digits := NatToDecimal(n);
    DecimalOfNatToDecimal(n);
    if |digits| < width {
      assert PadDecimal(n, width) == Zeros(width - |digits|) + digits;
      DecimalIgnoresLeadingZeros(width - |digits|, digits);
    } else {
      assert PadDecimal(n, width) == digits;
    }
  }

  predicate IsRubySpace(c: char) {
    c == ' ' || c == '\t' || c == '\n' || c == '\r' || c as int == 11 || c as int == 12
  }

  function DropSpaces(s: string): (r: string)
    ensures |r| <= |s| && r == s[|s| - |r|..]
    ensures r != [] ==> !IsRubySpace(r[0])
  {
    if s != [] && IsRubySpace(s[0]) then DropSpaces(s[1..]) else s
  }

  /**
   * The digits of the numeral at the start of `s`, with the underscores that
   * Ruby allows between two digits ("1_000") removed.
   */
  function LeadingDigits(s: string): (r: string)
    ensures AllDigits(r) && |r| <= |s|
    ensures r == [] <==> (s == [] || !IsDigit(s[0]))
  {
    if s == [] || !IsDigit(s[0]) then []
    else if |s| >= 3 && s[1] == '_' && IsDigit(s[2]) then [s[0]] + LeadingDigits(s[2..])
    else [s[0]] + LeadingDigits(s[1..])
  }

  /** What follows the leading white space and an optional sign. */
  function UnsignedPart(s: string): (body: string)
    ensures |body| <= |s|
  {
    var t := DropSpaces(s);
    if t != [] && (t[0] == '-' || t[0] == '+') then t[1..] else t
  }

  /** Text `to_i` reads as 0: no digit after the white space and the sign. */
  predicate NoLeadingNumeral(s: string) {
    var body := UnsignedPart(s);
    body == [] || !IsDigit(body[0])
  }

  /**
   * The base-10 radix prefix "0d" (or "0D"), which Ruby's integer parser
   * skips when a digit follows it.
   */
  function SkipDecimalPrefix(body: string): (r: string)
    ensures r == body || (|body| >= 3 && r == body[2..] && IsDigit(r[0]))
    ensures (r != [] && IsDigit(r[0])) <==> (body != [] && IsDigit(body[0]))
  {
    if |body| >= 3 && body[0] == '0' && (body[1] == 'd' || body[1] == 'D') && IsDigit(body[2]) then body[2..] else body
  }

  /**
   * Ruby's `String#to_i`: leading white space, an optional sign, an optional
   * "0d" prefix, then as many digits as follow; 0 when there are none.
   */
  function RubyToI(s: string): (n: int)
    ensures NoLeadingNumeral(s) ==> n == 0
    ensures n < 0 ==> DropSpaces(s)[0] == '-'
  {
    var t := DropSpaces(s);
    var digits := LeadingDigits(SkipDecimalPrefix(UnsignedPart(s)));
    if t != [] && t[0] == '-' then -(DecimalValue(digits) as int) else DecimalValue(digits)
  }

  /** No sign, or one '+' or '-'. */
  predicate OptionalSign(sign: string) {
    |sign| <= 1 && (sign != [] ==> sign[0] == '+' || sign[0] == '-')
  }

  /**
   * A numeral behind the radix prefix "0d" or "0D", itself behind no sign,
   * "+" or "-", reads as the numeral, negated after "-".
   */
  lemma DecimalPrefixSkipped(sign: string, letter: char, ds: string)
    requires OptionalSign(sign)
    requires letter == 'd' || letter == 'D'
    requires AllDigits(ds) && ds != []
    ensures RubyToI(sign + ['0', letter] + ds) == if sign == "-" then -(DecimalValue(ds) as int) else DecimalValue(ds)
  {
    LeadingDigitsOfDigits(ds);
    var body := ['0', letter] + ds;
    assert body[2..] == ds;
    assert SkipDecimalPrefix(body) == ds;
    SignedUnsignedPart(sign, body);
    assert sign + ['0', letter] + ds == sign + body;
  }

  /** Behind an optional sign, text starting with a digit is the unsigned part. */
  lemma SignedUnsignedPart(sign: string, body: string)
    requires OptionalSign(sign)
    requires body != [] && IsDigit(body[0])
    ensures DropSpaces(sign + body) == sign + body
    ensures UnsignedPart(sign + body) == body
  {
    var s := sign + body;
    assert s[0] == if sign == [] then body[0] else sign[0];
    assert !IsRubySpace(s[0]);
    if sign != [] {
      assert s[1..] == body;
    } else {
      assert s == body;
    }
  }

  /** A string of digits is all numeral: `to_i` reads every one of them. */
  lemma {:induction false} LeadingDigitsOfDigits(s: string)
    requires AllDigits(s)
    ensures LeadingDigits(s) == s
  {
    if s != [] {
      assert |s| >= 2 ==> IsDigit(s[1]);
      LeadingDigitsOfDigits(s[1..]);
    }
  }

  /** `n.to_s.to_i == n`: the year parameter survives its round trip through text. */
  lemma RubyToIOfIntToDecimal(n: int)
    ensures RubyToI(IntToDecimal(n)) == n
  {
    var m: nat := if n < 0 then -n else n;
    var digits := NatToDecimal(m);
    LeadingDigitsOfDigits(digits);
    DecimalOfNatToDecimal(m);
    var s := IntToDecimal(n);
    if n < 0 {
      assert s == "-" + digits;
      assert !IsRubySpace(s[0]);
      assert DropSpaces(s) == s;
      assert s[1..] == digits;
    } else {
      assert s == digits;
      assert IsDigit(s[0]) && !IsRubySpace(s[0]);
      assert DropSpaces(s) == s;
    }
    assert UnsignedPart(s) == digits;
    assert SkipDecimalPrefix(digits) == digits;
  }

  /**
   * Ruby's `String#<=>` as "no later than": code point by code point, a
   * proper prefix first (for UTF-8 text, code point order is byte order).
   */
  predicate StrLe(a: string, b: string) {
    a == [] || (b != [] && (a[0] < b[0] || (a[0] == b[0] && StrLe(a[1..], b[1..]))))
  }

  lemma {:induction false} StrLeTotal(a: string, b: string)
    ensures StrLe(a, b) || StrLe(b, a)
  {
    if a != [] && b != [] && a[0] == b[0] {
      StrLeTotal(a[1..], b[1..]);
    }
  }

  lemma {:induction false} StrLeTransitive(a: string, b: string, c: string)
    requires StrLe(a, b) && StrLe(b, c)
    ensures StrLe(a, c)
  {
    if a != [] && b != [] && c != [] && a[0] == b[0] && b[0] == c[0] {
      StrLeTransitive(a[1..], b[1..], c[1..]);
    }
  }
}
