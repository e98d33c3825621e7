/**
 * `std::to_string(int)`, the text a read or notification puts in the `data`
 * field of the dispatched value, and its inverse.
 */
module DecimalText {
  import opened Optional

  function DigitChar(d: int): char
    requires 0 <= d < 10
  {
    ('0' as int + d) as char
  }

  /** Decimal digits of `n` with no leading zeros ("0" for zero). */
  function NatDigits(n: nat): string
  {
    if n < 10 then [DigitChar(n)] else NatDigits(n / 10) + [DigitChar(n % 10)]
  }

  /** `std::to_string` of an int: a '-' before the digits of a negative value. */
  function DecimalString(n: int): string
  {
    if n < 0 then "-" + NatDigits(-n) else NatDigits(n)
  }

  /** The value of a non-empty string of decimal digits, None for anything else. */
  function DigitsValue(s: string): Option<nat>
  {
    if |s| == 0 then None
    else if !('0' <= s[|s| - 1] <= '9') then None
    else
      var d := s[|s| - 1] as int - '0' as int;
      if |s| == 1 then Some(d)
      else match DigitsValue(s[..|s| - 1])
        case Some(v) => Some(v * 10 + d)
        case None => None
  }

  /** The inverse of DecimalString: an optional '-' followed by digits. */
  function ParseDecimal(s: string): Option<int>
  {
    if |s| > 0 && s[0] == '-' then
      match DigitsValue(s[1..])
      case Some(v) => Some(-(v as int))
      case None => None
    else
      match DigitsValue(s)
      case Some(v) => Some(v)
      case None => None
  }

  lemma {:induction false} NatDigitsRoundTrip(n: nat)
    ensures |NatDigits(n)| > 0 && NatDigits(n)[0] != '-'
    ensures DigitsValue(NatDigits(n)) == Some(n)
  {
    if n >= 10 {
      NatDigitsRoundTrip(n / 10);
      var s := NatDigits(n);
      assert s[..|s| - 1] == NatDigits(n / 10);
    }
  }

  /** Parsing the text `std::to_string` produces gives back the integer. */
  lemma DecimalRoundTrip(n: int)
    ensures ParseDecimal(DecimalString(n)) == Some(n)
  {
    if n < 0 {
      NatDigitsRoundTrip(-n);
      assert DecimalString(n)[1..] == NatDigits(-n);
    } else {
      NatDigitsRoundTrip(n);
    }
  }
}
