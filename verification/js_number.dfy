/**
 * The ECMAScript number conversions the enquiry ids pass through:
 * `parseInt(s, 10)` (section 19.2.5 of ECMA-262) on the server and
 * `Number.prototype.toString()` of an integer in the admin table.
 * A `None` result stands for NaN.
 */
module JsNumber {
  import opened Wrappers
  import opened Text

  /** Step 2 of `parseInt`: drop the leading white space and line terminators. */
  function TrimStart(s: string): (r: string)
    ensures |r| <= |s| && r == s[|s| - |r|..]
    ensures |r| > 0 ==> !IsJsWhitespace(r[0])
    ensures forall i :: 0 <= i < |s| - |r| ==> IsJsWhitespace(s[i])
    decreases |s|
  {
    if |s| > 0 && IsJsWhitespace(s[0]) then TrimStart(s[1..]) else s
  }

  /** The longest prefix made of decimal digits (step 11 of `parseInt` with radix 10). */
  function DigitPrefix(s: string): (r: string)
    ensures IsPrefix(r, s)
    ensures forall i :: 0 <= i < |r| ==> IsDigit(r[i])
    ensures |r| < |s| ==> !IsDigit(s[|r|])
    decreases |s|
  {
    if |s| > 0 && IsDigit(s[0]) then [s[0]] + DigitPrefix(s[1..]) else []
  }

  predicate AllDigits(d: string) {
    forall i :: 0 <= i < |d| ==> IsDigit(d[i])
  }

  function DigitValue(c: char): nat
    requires IsDigit(c)
  {
    c as int - '0' as int
  }

  function DigitChar(d: nat): char
    requires d < 10
  {
    ('0' as int + d) as char
  }

  /** The mathematical value of a string of decimal digits, most significant first. */
  function DigitsValue(d: string): nat
    requires AllDigits(d)
    decreases |d|
  {
    if |d| == 0 then 0 else DigitsValue(d[..|d| - 1]) * 10 + DigitValue(d[|d| - 1])
  }

  /** Steps 4-5 of `parseInt`: a leading `-` makes the sign negative. */
  predicate Negative(t: string) {
    |t| > 0 && t[0] == '-'
  }

  /** Step 6 of `parseInt`: a leading `+` or `-` is removed. */
  function DropSign(t: string): string {
    if |t| > 0 && (t[0] == '-' || t[0] == '+') then t[1..] else t
  }

  /** Steps 12-16 of `parseInt`: no digits is NaN, otherwise the signed value of the digits. */
  function FromDigits(negative: bool, d: string): Option<int>
    requires AllDigits(d)
  {
    if |d| == 0 then None
    else if negative then Some(0 - DigitsValue(d))
    else Some(DigitsValue(d) as int)
  }

  /** Steps 4-16 of `parseInt` on text that no longer starts with white space. */
  function ReadSigned(t: string): Option<int> {
    FromDigits(Negative(t), DigitPrefix(DropSign(t)))
  }

  /** `parseInt(s, 10)`: optional white space, an optional sign, then the longest run of digits. */
  function ParseInt(s: string): (r: Option<int>)
    // NaN exactly when no decimal digit follows the white space and the optional sign.
    ensures r.None? <==> var t := DropSign(TrimStart(s)); |t| == 0 || !IsDigit(t[0])
    // The sign of the text decides the sign of the value.
    ensures r.Some? && Negative(TrimStart(s)) ==> r.value <= 0
    ensures r.Some? && !Negative(TrimStart(s)) ==> r.value >= 0
  {
    ReadSigned(TrimStart(s))
  }


  /** The decimal numeral of a natural number, as `toString()` writes it. */
  function Decimal(n: nat): (r: string)
    ensures |r| >= 1 && AllDigits(r)
    ensures DigitsValue(r) == n
    decreases n
  {
    if n < 10 then [DigitChar(n)]
    else
      var r := Decimal(n / 10) + [DigitChar(n % 10)];
      assert r[..|r| - 1] == Decimal(n / 10);
      r
  }

  /**
   * `i.toString()` for an integer `i`, in the plain decimal form JavaScript uses
   * below 10^21 in magnitude (every SERIAL id is far below that).
   */
  function IntToString(i: int): (r: string)
    // A non-negative integer is written as digits whose value is the integer ...
    ensures i >= 0 ==> |r| >= 1 && AllDigits(r) && DigitsValue(r) == i
    // ... a negative one as a minus sign followed by the digits of its magnitude.
    ensures i < 0 ==> |r| >= 2 && r[0] == '-' && AllDigits(r[1..]) && DigitsValue(r[1..]) == -i
  {
    if i < 0 then "-" + Decimal(-i) else Decimal(i)
  }

  lemma {:induction false} TrimStartSkips(w: string, x: string)
    requires forall i :: 0 <= i < |w| ==> IsJsWhitespace(w[i])
    requires |x| > 0 && !IsJsWhitespace(x[0])
    ensures TrimStart(w + x) == x
    decreases |w|
  {
    if |w| > 0 {
      assert (w + x)[1..] == w[1..] + x;
      TrimStartSkips(w[1..], x);
    } else {
      assert w + x == x;
    }
  }

  lemma {:induction false} DigitPrefixStops(d: string, rest: string)
    requires AllDigits(d)
    requires |rest| == 0 || !IsDigit(rest[0])
    ensures DigitPrefix(d + rest) == d
    decreases |d|
  {
    if |d| > 0 {
      assert (d + rest)[1..] == d[1..] + rest;
      DigitPrefixStops(d[1..], rest);
      assert [d[0]] + d[1..] == d;
    } else {
      assert d + rest == rest;
    }
  }

  /** Leading white space does not change what `parseInt` reads. */
  lemma ParseIntSkipsWhitespace(w: string, x: string)
    requires forall i :: 0 <= i < |w| ==> IsJsWhitespace(w[i])
    requires |x| > 0 && !IsJsWhitespace(x[0])
    ensures ParseInt(w + x) == ReadSigned(x)
  {
    TrimStartSkips(w, x);
  }

  /** An unsigned numeral is read up to its first non-digit. */
  lemma ReadUnsigned(d: string, rest: string)
    requires |d| >= 1 && AllDigits(d)
    requires |rest| == 0 || !IsDigit(rest[0])
    ensures ReadSigned(d + rest) == Some(DigitsValue(d) as int)
  {
    assert (d + rest)[0] == d[0];
    DigitPrefixStops(d, rest);
  }

  /** A signed numeral is read up to its first non-digit. */
  lemma ReadSignedNumeral(c: char, d: string, rest: string)
    requires c == '+' || c == '-'
    requires |d| >= 1 && AllDigits(d)
    requires |rest| == 0 || !IsDigit(rest[0])
    ensures ReadSigned([c] + d + rest) == FromDigits(c == '-', d)
  {
    var x := [c] + (d + rest);
    assert x == [c] + d + rest;
    assert x[1..] == d + rest;
    DigitPrefixStops(d, rest);
  }

  /**
   * A numeral is read up to its first non-digit: white space, an optional
   * sign, digits and any tail not starting with a digit parse to the signed
   * value of the digits (`parseInt("12abc", 10)` is 12).
   */
  lemma ParseIntOfNumeral(w: string, sign: string, d: string, rest: string)
    requires forall i :: 0 <= i < |w| ==> IsJsWhitespace(w[i])
    requires sign == "" || sign == "+" || sign == "-"
    requires |d| >= 1 && AllDigits(d)
    requires |rest| == 0 || !IsDigit(rest[0])
    ensures ParseInt(w + sign + d + rest) == FromDigits(sign == "-", d)
  {
    var x := sign + d + rest;
    assert w + sign + d + rest == w + x;
    if sign == "" {
      assert x == d + rest;
      assert x[0] == d[0];
      ParseIntSkipsWhitespace(w, x);
      ReadUnsigned(d, rest);
    } else {
      assert x == [sign[0]] + d + rest;
      ParseIntSkipsWhitespace(w, x);
      ReadSignedNumeral(sign[0], d, rest);
    }
  }

  /**
   * Without a digit right after the optional white space and sign, the
   * result is NaN (`parseInt("abc", 10)`, `parseInt("", 10)`, `parseInt("-x", 10)`).
   */
  lemma ParseIntNaN(w: string, sign: string, rest: string)
    requires forall i :: 0 <= i < |w| ==> IsJsWhitespace(w[i])
    requires sign == "" || sign == "+" || sign == "-"
    requires |rest| == 0 || !IsDigit(rest[0])
    requires sign == "" && |rest| > 0 ==> !IsJsWhitespace(rest[0]) && rest[0] != '+' && rest[0] != '-'
    ensures ParseInt(w + sign + rest) == None
  {
    var x := sign + rest;
    assert w + sign + rest == w + x;
    if |x| > 0 {
      assert x[0] == (if sign == "" then rest[0] else sign[0]);
      ParseIntSkipsWhitespace(w, x);
      assert DropSign(x) == rest by {
        if sign != "" {
          assert x[1..] == rest;
        }
      }
    } else {
      assert w + x == w;
      assert TrimStart(w) == [];
    }
  }

  /** A bare run of digits parses to its value. */
  lemma ParseIntDigits(d: string)
    requires |d| >= 1 && AllDigits(d)
    ensures ParseInt(d) == Some(DigitsValue(d) as int)
  {
    assert !IsJsWhitespace(d[0]);
    TrimStartSkips([], d);
    assert [] + d == d;
    ReadUnsigned(d, []);
    assert d + [] == d;
  }

  /** A minus sign followed by a run of digits parses to the negated value. */
  lemma ParseIntNegativeDigits(d: string)
    requires |d| >= 1 && AllDigits(d)
    ensures ParseInt(['-'] + d) == FromDigits(true, d)
  {
    var x := ['-'] + d;
    TrimStartSkips([], x);
    assert [] + x == x;
    ReadSignedNumeral('-', d, []);
    assert ['-'] + d + [] == x;
  }

  /**
   * Round trip: `parseInt(i.toString(), 10) == i` for the decimal rendering, which
   * is what JavaScript writes for every id below 10^21 in magnitude.
   */
  lemma ParseIntToString(i: int)
    ensures ParseInt(IntToString(i)) == Some(i)
  {
    if i < 0 {
      var d := Decimal(-i);
      ParseIntNegativeDigits(d);
      assert IntToString(i) == ['-'] + d;
    } else {
      ParseIntDigits(Decimal(i));
    }
  }

  /** `IntToString` is injective, so distinct ids never share a selection key. */
  lemma IntToStringInjective(i: int, j: int)
    requires IntToString(i) == IntToString(j)
    ensures i == j
  {
    ParseIntToString(i);
    ParseIntToString(j);
  }
}
