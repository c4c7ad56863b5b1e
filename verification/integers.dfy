/** The argument guards and the unsigned parse of the `Integers` utility
    class. Every guard either returns its argument unchanged or throws an
    IllegalArgumentException carrying a message. */
module Integers {
  import opened Bytes
  import opened Wrappers
  import opened Failures
  import opened Numerals

  /** `requireAtLeast(minInclusive, value)`. */
  function RequireAtLeast(minInclusive: int32, value: int32): (r: Result<int32, Failure>)
    ensures r.Ok? <==> value >= minInclusive
    ensures r.Ok? ==> r.value == value
    ensures r.Err? ==> r.error == IllegalArgument(
      "value is expected to be at minimum " + IntToString(minInclusive) + ", but was " + IntToString(value))
  {
    if value < minInclusive then
      Err(IllegalArgument("value is expected to be at minimum " + IntToString(minInclusive) + ", but was " + IntToString(value)))
    else Ok(value)
  }

  /** `requireEquals(expected, value, message)`. */
  function RequireEqualsWith(expected: int32, value: int32, message: string): (r: Result<int32, Failure>)
    ensures r.Ok? <==> value == expected
    ensures r.Ok? ==> r.value == value
    ensures r.Err? ==> r.error == IllegalArgument(message)
  {
    if value != expected then Err(IllegalArgument(message)) else Ok(value)
  }

  /** `requireEquals(expected, value)`: the three-argument form with a
      message naming both numbers. */
  function RequireEquals(expected: int32, value: int32): (r: Result<int32, Failure>)
    ensures r.Ok? <==> value == expected
    ensures r.Ok? ==> r.value == expected
    ensures r.Err? ==> r.error == IllegalArgument(
      "value must be " + IntToString(expected) + ", but is " + IntToString(value))
  {
    RequireEqualsWith(expected, value, "value must be " + IntToString(expected) + ", but is " + IntToString(value))
  }

  /** `requireNotEquals(forbidden, value)`. */
  function RequireNotEquals(forbidden: int32, value: int32): (r: Result<int32, Failure>)
    ensures r.Ok? <==> value != forbidden
    ensures r.Ok? ==> r.value == value
    ensures r.Err? ==> r.error == IllegalArgument("value must not be: " + IntToString(forbidden))
  {
    if value == forbidden then Err(IllegalArgument("value must not be: " + IntToString(forbidden)))
    else Ok(value)
  }

  /** `requireInRange(minInclusive, maxInclusive, value)`. */
  function RequireInRange(minInclusive: int32, maxInclusive: int32, value: int32): (r: Result<int32, Failure>)
    ensures r.Ok? <==> minInclusive <= value <= maxInclusive
    ensures r.Ok? ==> r.value == value
    ensures r.Err? ==> r.error == IllegalArgument("Illegal value: " + IntToString(value))
  {
    if value < minInclusive || value > maxInclusive then Err(IllegalArgument("Illegal value: " + IntToString(value)))
    else Ok(value)
  }

  /** `parseUnsignedInt(text, radix)`: the number `new BigInteger(text, radix)`
      denotes, cut to its low 32 bits as a signed `int`. */
  function ParseUnsignedInt(text: string, radix: int): (r: Result<int32, Failure>)
    ensures r.Err? <==> BigIntegerParse(text, radix).Err?
    ensures r.Err? ==> r.error == NumberFormat
    ensures r.Ok? ==> (r.value - BigIntegerParse(text, radix).value) % TWO_32 == 0
  {
    var v :- BigIntegerParse(text, radix);
    Ok(IntValue(v))
  }

  // ---------------------------------------------------------------------
  // Properties

  /** An empty range (minimum above maximum) rejects every value. */
  lemma EmptyRangeRejects(minInclusive: int32, maxInclusive: int32, value: int32)
    requires minInclusive > maxInclusive
    ensures RequireInRange(minInclusive, maxInclusive, value).Err?
  {
  }

  /** Every guard that passes hands back its argument, so a chain of guards
      is the identity on values that satisfy all of them. */
  lemma GuardsChain(minInclusive: int32, maxInclusive: int32, forbidden: int32, value: int32)
    requires minInclusive <= value <= maxInclusive && value != forbidden
    ensures RequireAtLeast(minInclusive, value).value == value
    ensures RequireNotEquals(forbidden, RequireAtLeast(minInclusive, value).value).value == value
    ensures RequireInRange(minInclusive, maxInclusive, RequireNotEquals(forbidden, value).value).value == value
    ensures RequireEquals(value, value) == Ok(value)
  {
  }

  /** An unsigned text of at most 32 bits parses to the number whose
      two's-complement bits it spells: at or above 2^31 the result is negative. */
  lemma ParseUnsignedBits(text: string, radix: int)
    requires 2 <= radix <= 36 && 1 <= |text| && AllRadixDigits(text, radix)
    requires RadixValue(text, radix) < TWO_32
    ensures RadixValue(text, radix) < TWO_31 ==> ParseUnsignedInt(text, radix) == Ok(RadixValue(text, radix))
    ensures RadixValue(text, radix) >= TWO_31 ==> ParseUnsignedInt(text, radix) == Ok(RadixValue(text, radix) - TWO_32)
  {
  }

  /** "ffffffff" in radix 16 is -1. */
  lemma AllOnesIsMinusOne()
    ensures ParseUnsignedInt("ffffffff", 16) == Ok(-1)
  {
    var f := ['f'];
    assert RadixValue([], 16) == 0;
    var v: nat := 0;
    var s: string := [];
    while |s| < 8
      invariant |s| <= 8 && s == seq(|s|, _ => 'f') && AllRadixDigits(s, 16)
      invariant RadixValue(s, 16) == v && v + 1 == Pow16(|s|)
    {
      RadixValueSnoc(s, 'f', 16);
      s, v := s + f, v * 16 + 15;
    }
    assert s == "ffffffff";
  }

  function Pow16(k: nat): nat {
    if k == 0 then 1 else 16 * Pow16(k - 1)
  }

  /** Appending a digit multiplies by the radix and adds the digit. */
  lemma RadixValueSnoc(s: string, c: char, radix: nat)
    requires AllRadixDigits(s, radix) && CharDigit(c).Some? && CharDigit(c).value < radix
    ensures AllRadixDigits(s + [c], radix)
    ensures RadixValue(s + [c], radix) == RadixValue(s, radix) * radix + CharDigit(c).value
  {
    assert (s + [c])[..|s|] == s;
  }

  /** A leading minus sign is accepted although the value is called unsigned. */
  lemma MinusAccepted()
    ensures ParseUnsignedInt("-1", 10) == Ok(-1)
  {
    assert AllRadixDigits("-1"[1..], 10);
    assert "-1"[1..] == "1";
    assert RadixValue("1", 10) == 1 by {
      assert "1"[..0] == "";
    }
  }
}
