/**
 * `StringUtils.isInteger` and the two pieces of `java.lang.Integer` the core
 * relies on: `parseInt` (which `isInteger` tries) and `toString` (which the
 * year-range search uses to write each year back into a query).
 */
module StringUtils {
  import opened Wrappers

  /** The range of a Java `int`. */
  const MinInt: int := -0x8000_0000
  const MaxInt: int := 0x7FFF_FFFF

  predicate IsDigit(c: char)
  {
    '0' <= c <= '9'
  }

  predicate AllDigits(s: string)
  {
    forall i :: 0 <= i < |s| ==> IsDigit(s[i])
  }

  /** The value of a string of decimal digits, most significant first. */
  function DigitsValue(s: string): nat
    requires AllDigits(s)
  {
    if s == [] then 0
    else DigitsValue(s[..|s| - 1]) * 10 + (s[|s| - 1] as int - '0' as int)
  }

  /** The grammar `parseInt` accepts: an optional `-` or `+`, then at least one decimal digit. */
  predicate WellFormedInt(s: string)
  {
    |s| > 0 && (AllDigits(s) || ((s[0] == '-' || s[0] == '+') && |s| > 1 && AllDigits(s[1..])))
  }

  /** The value a well-formed numeral denotes: its digits, negated under a leading `-`. */
  function SignedValue(s: string): int
    requires WellFormedInt(s)
  {
    if AllDigits(s) then DigitsValue(s)
    else if s[0] == '-' then -(DigitsValue(s[1..]) as int)
    else DigitsValue(s[1..])
  }

  /**
   * `Integer.parseInt(s)`: an optional `-` or `+`, then one or more decimal
   * digits whose value, with the sign, fits in an `int`; anything else is a
   * `NumberFormatException`, here `None`.
   */
  function ParseInt(s: string): (r: Option<int>)
    ensures r.Some? ==> MinInt <= r.value <= MaxInt
    ensures r.Some? ==> |s| > 0 && (IsDigit(s[0]) || ((s[0] == '-' || s[0] == '+') && |s| > 1))
    ensures r.Some? ==> forall i :: 1 <= i < |s| ==> IsDigit(s[i])
    ensures r.Some? <==> WellFormedInt(s) && MinInt <= SignedValue(s) <= MaxInt
    ensures r.Some? ==> WellFormedInt(s) && r.value == SignedValue(s)
  {
    if s == [] then None
    else
      var signed := s[0] == '-' || s[0] == '+';
      var digits := if signed then s[1..] else s;
      if digits == [] || !AllDigits(digits) then None
      else
        var magnitude: int := DigitsValue(digits);
        var v := if s[0] == '-' then -magnitude else magnitude;
        if MinInt <= v <= MaxInt then Some(v) else None
  }

  /** `StringUtils.isInteger(s)`: `parseInt` succeeds; a malformed string gives false instead of an exception. */
  function IsInteger(s: string): (b: bool)
    ensures b ==> s != [] && s != "-" && s != "+"
    ensures b ==> forall i :: 1 <= i < |s| ==> IsDigit(s[i])
    ensures b <==> WellFormedInt(s) && MinInt <= SignedValue(s) <= MaxInt
  {
    ParseInt(s).Some?
  }

  /** `Integer.toString(n)` for `n >= 0`: the decimal numeral, most significant digit first. */
  function NatToString(n: nat): (r: string)
    ensures |r| > 0
  {
    var d := ['0' + (n % 10) as char];
    if n < 10 then d else NatToString(n / 10) + d
  }

  /** The numeral is the shortest one for `n`: all digits, worth `n`, no leading zero. */
  lemma {:induction false} NatToStringDigits(n: nat)
    ensures AllDigits(NatToString(n)) && DigitsValue(NatToString(n)) == n
    ensures |NatToString(n)| > 1 ==> NatToString(n)[0] != '0'
  {
    if n >= 10 {
      NatToStringDigits(n / 10);
      var r := NatToString(n);
      assert r[..|r| - 1] == NatToString(n / 10);
      assert r[0] == NatToString(n / 10)[0];
    }
  }

  /** `Integer.toString(i)`: a minus sign for negative values, then the digits of the magnitude. */
  function IntToString(i: int): string
  {
    if i < 0 then "-" + NatToString(-i) else NatToString(i)
  }

  /** Round trip: `parseInt(toString(i)) == i` for every Java `int`. */
  lemma ParseIntToString(i: int)
    requires MinInt <= i <= MaxInt
    ensures ParseInt(IntToString(i)) == Some(i)
  {
    if i < 0 {
      NegativeParses(-i);
    } else {
      NatToStringDigits(i);
      var s := NatToString(i);
      assert IsDigit(s[0]);
      assert s[0] != '-' && s[0] != '+';
    }
  }

  lemma NegativeParses(n: int)
    requires 0 < n <= -MinInt
    ensures ParseInt("-" + NatToString(n)) == Some(-n)
  {
    var d := NatToString(n);
    NatToStringDigits(n);
    var s := "-" + d;
    assert s[0] == '-' && s[1..] == d;
  }

  /** `toString` writes a number that `isInteger` accepts. */
  lemma IntToStringIsInteger(i: int)
    requires MinInt <= i <= MaxInt
    ensures IsInteger(IntToString(i))
  {
    ParseIntToString(i);
  }

  /** No option keyword is an integer: `isInteger` rejects a string whose second character is a letter. */
  lemma OptionWordsAreNotIntegers()
    ensures !IsInteger("-t") && !IsInteger("-y") && !IsInteger("-r")
  {
    assert !IsDigit("-t"[1]) && !IsDigit("-y"[1]) && !IsDigit("-r"[1]);
  }

  /** The unit tests' cases: "23" and "2004" are integers, "abc" and "def" are not. */
  lemma IsIntegerExamples()
    ensures IsInteger("23") && IsInteger("2004")
    ensures !IsInteger("abc") && !IsInteger("def")
  {
    assert "23"[..1] == "2" && "2"[..0] == "";
    assert DigitsValue("23") == 23;
    assert "2004"[..3] == "200" && "200"[..2] == "20" && "20"[..1] == "2";
    assert DigitsValue("20") == 20 && DigitsValue("200") == 200;
    assert DigitsValue("2004") == 2004;
    assert !IsDigit("abc"[0]) && !IsDigit("def"[0]);
  }

  /** Leading zeros and a `+` sign are accepted; a sign alone is not. */
  lemma ParseIntExamples()
    ensures ParseInt("007") == Some(7)
    ensures ParseInt("+5") == Some(5)
    ensures ParseInt("-") == None && ParseInt("+") == None
  {
    assert "007"[..2] == "00" && "00"[..1] == "0" && "0"[..0] == "";
    assert DigitsValue("00") == 0 && DigitsValue("007") == 7;
    assert "+5"[1..] == "5" && "5"[..0] == "";
    assert !IsDigit("+5"[0]);
  }
}
