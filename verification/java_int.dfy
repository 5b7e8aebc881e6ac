/** The slice of java.lang.Integer and java.util.concurrent.atomic.AtomicInteger
    that the producer relies on: 32-bit two's complement increment, decimal
    printing (String.valueOf) and decimal parsing (Integer.parseInt). */
module JavaInt {

  import opened Wrappers

  const MinInt32: int := -0x8000_0000
  const MaxInt32: int := 0x7fff_ffff

  /** Values of a Java `int`. */
  type Int32 = x: int | MinInt32 <= x <= MaxInt32

  /** AtomicInteger.incrementAndGet: adding one modulo 2^32, so the largest
      `int` wraps around to the smallest. */
  function Increment(x: Int32): (r: Int32)
    ensures (r - x - 1) % 0x1_0000_0000 == 0
    ensures x < MaxInt32 ==> r == x + 1
  {
    if x == MaxInt32 then MinInt32 else x + 1
  }

  predicate IsDigit(c: char) {
    '0' <= c <= '9'
  }

  predicate AllDigits(s: string) {
    forall i :: 0 <= i < |s| ==> IsDigit(s[i])
  }

  /** The number a string of ASCII decimal digits denotes, most significant
      digit first. */
  function DigitsValue(s: string): nat
    requires AllDigits(s)
    decreases |s|
  {
    if |s| == 0 then 0
    else 10 * DigitsValue(s[..|s| - 1]) + (s[|s| - 1] as int - '0' as int)
  }

  function DigitChar(d: nat): (c: char)
    requires d < 10
    ensures IsDigit(c) && c as int - '0' as int == d
  {
    ('0' as int + d) as char
  }

  /** String.valueOf(int): a leading '-' for negative values, then the
      decimal digits of the magnitude without leading zeros. */
  function IntToString(i: int): string
    decreases if i < 0 then 1 - i else i
  {
    if i < 0 then "-" + IntToString(-i)
    else if i < 10 then [DigitChar(i)]
    else IntToString(i / 10) + [DigitChar(i % 10)]
  }

  /** A non-negative value prints as a non-empty string of ASCII digits,
      with no leading zero unless the value is 0, that denotes the value. */
  lemma {:induction false} IntToStringDenotes(n: nat)
    ensures var s := IntToString(n);
      && 0 < |s| && AllDigits(s)
      && DigitsValue(s) == n
      && (s[0] == '0' ==> n == 0)
    decreases n
  {
    if n >= 10 {
      IntToStringDenotes(n / 10);
      var t := IntToString(n / 10);
      var s := IntToString(n);
      assert s == t + [DigitChar(n % 10)];
      assert s[..|s| - 1] == t;
    }
  }

  /** Integer.parseInt(s) in radix 10. An optional leading '-' or '+' is
      followed by at least one ASCII digit, and the value must fit in an
      `int`; anything else is a NumberFormatException, modelled as a Failure
      carrying the offending text. */
  function ParseInt(s: string): (r: Result<int, string>)
    ensures r.Success? ==> MinInt32 <= r.value <= MaxInt32
    ensures r.Failure? ==> r.error == s
  {
    if |s| == 0 then Failure(s)
    else
      var digits := if s[0] == '-' || s[0] == '+' then s[1..] else s;
      if |digits| == 0 || !AllDigits(digits) then Failure(s)
      else
        var magnitude: int := DigitsValue(digits);
        var v := if s[0] == '-' then -magnitude else magnitude;
        if MinInt32 <= v <= MaxInt32 then Success(v) else Failure(s)
  }

  /** What Integer.parseInt accepts: a digit or a sign followed by at least
      one more character, every later character a digit; a leading '-'
      yields a value of at most 0, anything else a value of at least 0. */
  lemma ParseIntAcceptsOnlyDecimal(s: string)
    requires ParseInt(s).Success?
    ensures 0 < |s| && forall i :: 0 < i < |s| ==> IsDigit(s[i])
    ensures IsDigit(s[0]) || (1 < |s| && s[0] in "+-")
    ensures s[0] == '-' ==> ParseInt(s).value <= 0
    ensures s[0] != '-' ==> ParseInt(s).value >= 0
  {
    var digits := if s[0] == '-' || s[0] == '+' then s[1..] else s;
    forall i | 0 < i < |s|
      ensures IsDigit(s[i])
    {
      if s[0] == '-' || s[0] == '+' {
        assert s[i] == digits[i - 1];
      } else {
        assert s[i] == digits[i];
      }
    }
  }

  /** The value of a sign ("", "+" or "-") followed by decimal digits. */
  function Signed(sign: string, d: string): int
    requires AllDigits(d)
  {
    if sign == "-" then -(DigitsValue(d) as int) else DigitsValue(d) as int
  }

  /** The converse: every optional sign followed by at least one digit is
      accepted exactly when its value fits in an `int`, and then parses to
      that value; leading zeros and a '+' are allowed. */
  lemma ParseIntAcceptsDecimal(sign: string, d: string)
    requires sign == "" || sign == "+" || sign == "-"
    requires 0 < |d| && AllDigits(d)
    ensures MinInt32 <= Signed(sign, d) <= MaxInt32 ==> ParseInt(sign + d) == Success(Signed(sign, d))
    ensures !(MinInt32 <= Signed(sign, d) <= MaxInt32) ==> ParseInt(sign + d) == Failure(sign + d)
  {
    var s := sign + d;
    if sign == "" {
      assert s == d;
    } else {
      assert s[1..] == d;
    }
  }

  /** Parsing what String.valueOf printed gives back the same `int`: the
      checkpoint written after a delivery is read back as the same count. */
  lemma ParseIntOfIntToString(i: int)
    requires MinInt32 <= i <= MaxInt32
    ensures ParseInt(IntToString(i)) == Success(i)
  {
    var s := IntToString(i);
    if i < 0 {
      IntToStringDenotes(-i);
      var t := IntToString(-i);
      assert s == "-" + t;
      assert s[1..] == t;
    } else {
      IntToStringDenotes(i);
      assert s[0] != '-' && s[0] != '+';
    }
  }

  /** Distinct `int`s are printed as distinct strings. */
  lemma IntToStringInjective(i: int, j: int)
    requires MinInt32 <= i <= MaxInt32 && MinInt32 <= j <= MaxInt32
    requires IntToString(i) == IntToString(j)
    ensures i == j
  {
    ParseIntOfIntToString(i);
    ParseIntOfIntToString(j);
  }
}
