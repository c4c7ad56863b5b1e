/** Decimal and radix-`r` numerals: ASCII decimal digits on the wire (port
    numbers inside connection ids, instance tags typed by the user) and the
    digit rules of `Integer.parseInt`, `u32::from_str_radix` and
    `new BigInteger(text, radix)`. */
module Numerals {
  import opened Bytes
  import opened Wrappers
  import opened Failures

  const ZERO: byte := 48   // '0'
  const PLUS: byte := 43   // '+'
  const MINUS: byte := 45  // '-'

  predicate IsDigit(b: byte) {
    ZERO <= b <= ZERO + 9
  }

  predicate AllDigits(s: seq<byte>) {
    forall i :: 0 <= i < |s| ==> IsDigit(s[i])
  }

  /** The value of a string of ASCII decimal digits. */
  function DecimalValue(s: seq<byte>): nat
    requires AllDigits(s)
  {
    if |s| == 0 then 0 else DecimalValue(s[..|s| - 1]) * 10 + (s[|s| - 1] - ZERO)
  }

  /** The shortest decimal numeral of `n` in ASCII (`Integer.toString` for n >= 0). */
  function DecimalBytes(n: nat): (r: seq<byte>)
    ensures |r| >= 1 && AllDigits(r)
    ensures DecimalValue(r) == n
    ensures |r| > 1 ==> r[0] != ZERO
  {
    if n < 10 then [ZERO + n]
    else
      var init := DecimalBytes(n / 10);
      var s := init + [ZERO + n % 10];
      assert s[..|s| - 1] == init;
      s
  }

  /** Every numeral without a redundant leading zero is the one `DecimalBytes` prints. */
  lemma {:induction false} DecimalBytesValue(s: seq<byte>)
    requires |s| >= 1 && AllDigits(s)
    requires |s| > 1 ==> s[0] != ZERO
    ensures DecimalBytes(DecimalValue(s)) == s
  {
    var n := DecimalValue(s);
    var init := s[..|s| - 1];
    if |s| == 1 {
      assert DecimalValue(init) == 0;
    } else {
      assert init[0] == s[0];
      if |init| > 1 {
        assert init[0] != ZERO;
      } else {
        assert DecimalValue(init[..0]) == 0;
      }
      DecimalValue0(init);
      DecimalBytesValue(init);
      assert n / 10 == DecimalValue(init);
    }
  }

  /** A numeral whose first digit is not zero has a positive value. */
  lemma {:induction false} DecimalValue0(s: seq<byte>)
    requires |s| >= 1 && AllDigits(s) && s[0] != ZERO
    ensures DecimalValue(s) >= 1
  {
    if |s| > 1 {
      DecimalValue0(s[..|s| - 1]);
    }
  }

  /** The same numeral as a Java/Dafny string. */
  function DecimalString(n: nat): string {
    var b := DecimalBytes(n);
    seq(|b|, i requires 0 <= i < |b| => b[i] as char)
  }

  /** `Integer.toString(x)` / string concatenation of an `int`. */
  function IntToString(x: int): string {
    if x < 0 then "-" + DecimalString(-x) else DecimalString(x)
  }

  /** An optional sign followed by at least one ASCII decimal digit. */
  predicate SignedDecimal(s: seq<byte>) {
    |s| >= 1 && (AllDigits(s) || (|s| >= 2 && (s[0] == MINUS || s[0] == PLUS) && AllDigits(s[1..])))
  }

  /** The number a signed decimal numeral denotes. */
  function SignedDecimalValue(s: seq<byte>): int
    requires SignedDecimal(s)
  {
    if AllDigits(s) then DecimalValue(s)
    else if s[0] == MINUS then -(DecimalValue(s[1..]) as int)
    else DecimalValue(s[1..])
  }

  /** `Integer.parseInt(s)` (radix 10) on an ASCII numeral: an optional sign,
      at least one digit, and a value that fits a Java `int`; anything else
      is a NumberFormatException. */
  function JavaParseInt(s: seq<byte>): (r: Result<int32, Failure>)
    ensures r.Ok? <==> SignedDecimal(s) && INT_MIN <= SignedDecimalValue(s) <= INT_MAX
    ensures r.Ok? ==> r.value == SignedDecimalValue(s)
    ensures r.Err? ==> r.error == NumberFormat
  {
    if |s| == 0 then Err(NumberFormat)
    else
      var negative := s[0] == MINUS;
      var digits := if s[0] == MINUS || s[0] == PLUS then s[1..] else s;
      if |digits| == 0 || !AllDigits(digits) then Err(NumberFormat)
      else
        var v: int := if negative then -(DecimalValue(digits) as int) else DecimalValue(digits);
        if INT_MIN <= v <= INT_MAX then Ok(v) else Err(NumberFormat)
  }

  /** Java's `/` on `int`: the quotient truncated toward zero. */
  function Quot(a: int, b: int): (r: int)
    requires b > 0
    ensures a < 0 ==> r * b >= a > (r - 1) * b
    ensures a >= 0 ==> r * b <= a < (r + 1) * b
  {
    if a >= 0 then a / b else -((-a) / b)
  }

  /** `Integer.parseInt` as the JDK computes it: a leading character below
      '0' must be a sign followed by more, and the digits are accumulated
      by `AccumulateNegative` against the limit of the sign. The outcome is
      the one the numeral's definition gives. */
  method ParseIntDigits(s: seq<byte>) returns (r: Result<int32, Failure>)
    ensures r == JavaParseInt(s)
  {
    if |s| == 0 {
      return Err(NumberFormat);
    }
    var negative := false;
    var limit: int := -INT_MAX;
    var digits := s;
    if s[0] < ZERO {
      if s[0] == MINUS {
        negative := true;
        limit := INT_MIN;
      } else if s[0] != PLUS {
        return Err(NumberFormat);
      }
      if |s| == 1 {
        return Err(NumberFormat);
      }
      digits := s[1..];
    }
    var ok, result := AccumulateNegative(digits, limit);
    if !ok {
      return Err(NumberFormat);
    }
    return Ok(if negative then result else -result);
  }

  /** The loop of `Integer.parseInt`: each digit is subtracted from ten
      times the result so far, after checking against `limit / 10` (Java's
      truncating division) and against `limit + digit` that the step cannot
      pass `limit`. It succeeds exactly when the text is all digits and its
      value is at most `-limit`. */
  method AccumulateNegative(digits: seq<byte>, limit: int) returns (ok: bool, result: int)
    requires limit < 0
    ensures ok <==> AllDigits(digits) && DecimalValue(digits) <= -limit
    ensures ok ==> result == -(DecimalValue(digits) as int)
  {
    var multmin := Quot(limit, 10);
    result := 0;
    var i := 0;
    assert digits[..0] == [];
    while i < |digits|
      invariant i <= |digits|
      invariant AllDigits(digits[..i]) && result == -(DecimalValue(digits[..i]) as int)
      invariant limit <= result <= 0
    {
      if !IsDigit(digits[i]) {
        return false, result;
      }
      var digit: int := digits[i] - ZERO;
      assert digits[..i + 1][..i] == digits[..i];
      if result < multmin {
        TooLarge(digits, i + 1, -limit);
        return false, result;
      }
      result := result * 10;
      if result < limit + digit {
        TooLarge(digits, i + 1, -limit);
        return false, result;
      }
      result := result - digit;
      i := i + 1;
    }
    assert digits[..i] == digits;
    return true, result;
  }

  /** Digits whose prefix already exceeds `bound` are no numeral within it. */
  lemma TooLarge(digits: seq<byte>, j: nat, bound: int)
    requires j <= |digits| && AllDigits(digits[..j]) && DecimalValue(digits[..j]) > bound
    ensures !(AllDigits(digits) && DecimalValue(digits) <= bound)
  {
    if AllDigits(digits) {
      DecimalPrefix(digits, j);
    }
  }

  /** A numeral's value is at least that of any of its prefixes. */
  lemma {:induction false} DecimalPrefix(s: seq<byte>, j: nat)
    requires AllDigits(s) && j <= |s|
    ensures DecimalValue(s[..j]) <= DecimalValue(s)
    decreases |s|
  {
    if j < |s| {
      assert s[..|s| - 1][..j] == s[..j];
      DecimalPrefix(s[..|s| - 1], j);
    } else {
      assert s[..j] == s;
    }
  }

  /** `u32::from_str_radix(s, 10)`: an optional '+', at least one digit and
      a value below 2^32; a '-' is an invalid digit for an unsigned type. */
  function RustParseU32(s: seq<byte>): (r: Result<u32, Failure>)
    ensures r.Ok? <==> SignedDecimal(s) && s[0] != MINUS && SignedDecimalValue(s) < TWO_32
    ensures r.Ok? ==> r.value == SignedDecimalValue(s)
    ensures r.Err? ==> r.error == InvalidInput
  {
    var digits := if |s| > 0 && s[0] == PLUS then s[1..] else s;
    if |digits| == 0 || !AllDigits(digits) then Err(InvalidInput)
    else if DecimalValue(digits) < TWO_32 then Ok(DecimalValue(digits))
    else Err(InvalidInput)
  }

  /** `Character.digit(c, 36)` restricted to ASCII: 0-9, then a-z / A-Z as 10-35. */
  function CharDigit(c: char): Option<nat> {
    if '0' <= c <= '9' then Some(c as int - '0' as int)
    else if 'a' <= c <= 'z' then Some(c as int - 'a' as int + 10)
    else if 'A' <= c <= 'Z' then Some(c as int - 'A' as int + 10)
    else None
  }

  predicate AllRadixDigits(s: string, radix: nat) {
    forall i :: 0 <= i < |s| ==> CharDigit(s[i]).Some? && CharDigit(s[i]).value < radix
  }

  function RadixValue(s: string, radix: nat): nat
    requires AllRadixDigits(s, radix)
  {
    if |s| == 0 then 0
    else RadixValue(s[..|s| - 1], radix) * radix + CharDigit(s[|s| - 1]).value
  }

  /** An optional sign followed by at least one digit of the radix. */
  predicate SignedRadix(text: string, radix: nat) {
    |text| >= 1
    && (AllRadixDigits(text, radix) || (|text| >= 2 && (text[0] == '-' || text[0] == '+') && AllRadixDigits(text[1..], radix)))
  }

  /** The number a signed radix numeral denotes. */
  function SignedRadixValue(text: string, radix: nat): int
    requires SignedRadix(text, radix)
  {
    if AllRadixDigits(text, radix) then RadixValue(text, radix)
    else if text[0] == '-' then -(RadixValue(text[1..], radix) as int)
    else RadixValue(text[1..], radix)
  }

  /** `new BigInteger(text, radix)`: the radix must lie in 2..36, then an
      optional sign and at least one digit of that radix. */
  function BigIntegerParse(text: string, radix: int): (r: Result<int, Failure>)
    ensures r.Ok? <==> 2 <= radix <= 36 && SignedRadix(text, radix)
    ensures r.Ok? ==> r.value == SignedRadixValue(text, radix)
    ensures r.Err? ==> r.error == NumberFormat
  {
    if !(2 <= radix <= 36) || |text| == 0 then Err(NumberFormat)
    else
      var digits := if text[0] == '-' || text[0] == '+' then text[1..] else text;
      if |digits| == 0 || !AllRadixDigits(digits, radix) then Err(NumberFormat)
      else if text[0] == '-' then Ok(-(RadixValue(digits, radix) as int))
      else Ok(RadixValue(digits, radix))
  }
}
