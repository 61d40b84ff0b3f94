/** The two number conversions the action performs: `parseInt(s, 10)` on an
    input string and `Number.prototype.toString()` when a count becomes a
    `git log` argument. Numbers are unbounded integers or NaN. */
module Numbers {
  import opened Strings

  /** A JavaScript number as `parseInt` can produce it: an integer or NaN. */
  datatype JsNumber = Num(n: int) | NaN

  function DigitChar(d: nat): (c: char)
    requires d < 10
    ensures IsDigit(c)
  {
    ('0' as int + d) as char
  }

  function DigitValue(c: char): (d: nat)
    requires IsDigit(c)
    ensures d < 10 && DigitChar(d) == c
  {
    c as int - '0' as int
  }

  /** Decimal rendering of a natural number, most significant digit first. */
  function NatToString(n: nat): (s: string)
    ensures |s| > 0 && AllDigits(s)
    ensures s[0] == '0' ==> s == "0"
    decreases n
  {
    if n < 10 then [DigitChar(n)] else NatToString(n / 10) + [DigitChar(n % 10)]
  }

  /** The value of a string of decimal digits. */
  function DigitsValue(s: string): nat
    requires AllDigits(s)
    decreases |s|
  {
    if |s| == 0 then 0 else 10 * DigitsValue(s[..|s| - 1]) + DigitValue(s[|s| - 1])
  }

  lemma {:induction false} DigitsValueOfNatToString(n: nat)
    ensures DigitsValue(NatToString(n)) == n
    decreases n
  {
    if n >= 10 {
      var s := NatToString(n);
      assert s[..|s| - 1] == NatToString(n / 10);
      DigitsValueOfNatToString(n / 10);
    }
  }

  /** Length of the run of decimal digits at the front of `s`. */
  function LeadingDigits(s: string): (k: nat)
    ensures k <= |s| && AllDigits(s[..k])
    ensures k == |s| || !IsDigit(s[k])
    decreases |s|
  {
    if |s| > 0 && IsDigit(s[0]) then 1 + LeadingDigits(s[1..]) else 0
  }

  lemma LeadingDigitsAll(s: string)
    requires AllDigits(s)
    ensures LeadingDigits(s) == |s|
  {
  }

  /** `parseInt(s, 10)`: leading white space is skipped, one optional sign is
      read, then the longest run of decimal digits; no digits gives NaN. */
  function ParseInt(s: string): JsNumber
  {
    var t := TrimStart(s);
    var negative := |t| > 0 && t[0] == '-';
    var unsigned := if |t| > 0 && (t[0] == '-' || t[0] == '+') then t[1..] else t;
    var k := LeadingDigits(unsigned);
    if k == 0 then NaN
    else
      var magnitude: int := DigitsValue(unsigned[..k]);
      Num(if negative then -magnitude else magnitude)
  }

  /** `Number.prototype.toString()` for the numbers `parseInt` yields. */
  function NumberToString(x: JsNumber): (s: string)
    ensures |s| > 0
  {
    match x
    case NaN => "NaN"
    case Num(v) => if v < 0 then "-" + NatToString(-v) else NatToString(v)
  }

  /** `parseInt` of a non-empty digit string is that string's decimal value. */
  lemma ParseIntOfDigits(s: string)
    requires |s| > 0 && AllDigits(s)
    ensures ParseInt(s) == Num(DigitsValue(s))
  {
    assert !IsJsWhiteSpace(s[0]);
    assert TrimStart(s) == s;
    LeadingDigitsAll(s);
    assert s[..|s|] == s;
  }

  /** `parseInt` of a minus sign followed by a non-empty digit string. */
  lemma ParseIntOfNegativeDigits(s: string)
    requires |s| > 0 && AllDigits(s)
    ensures ParseInt("-" + s) == Num(-(DigitsValue(s) as int))
  {
    var t := "-" + s;
    assert !IsJsWhiteSpace(t[0]);
    assert TrimStart(t) == t;
    assert t[1..] == s;
    LeadingDigitsAll(s);
    assert s[..|s|] == s;
  }

  lemma ParseIntOfNaN()
    ensures ParseInt("NaN") == NaN
  {
    assert !IsJsWhiteSpace('N');
    assert TrimStart("NaN") == "NaN";
    assert !IsDigit('N');
  }

  /** Reading back what `toString` printed gives the same number. */
  lemma ParseIntOfNumberToString(x: JsNumber)
    ensures ParseInt(NumberToString(x)) == x
  {
    match x
    case NaN =>
      ParseIntOfNaN();
    case Num(v) =>
      if v < 0 {
        assert NumberToString(x) == "-" + NatToString(-v);
        DigitsValueOfNatToString(-v);
        ParseIntOfNegativeDigits(NatToString(-v));
      } else {
        assert NumberToString(x) == NatToString(v);
        DigitsValueOfNatToString(v);
        ParseIntOfDigits(NatToString(v));
      }
  }
}
