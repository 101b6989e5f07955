/** The character classifiers the parser dispatches on. */
module Chars {

  /** The ten decimal digit tokens, in value order. */
  const Digits: string := "0123456789"

  /** The five variable names of tinyL. */
  const Identifiers: string := "abcde"

  /** `is_digit`: a digit is never the end marker, and it lies 0 to 9 places
      after '0'. `DigitsExactly` gives the exact set. */
  predicate IsDigit(c: char)
    ensures IsDigit(c) ==> c != '\0' && 0 <= c as int - '0' as int <= 9
  {
    '0' <= c <= '9'
  }

  /** `to_digit`: the value of a digit character; any other character gives 0. */
  function ToDigit(c: char): (d: int)
    ensures IsDigit(c) ==> 0 <= d <= 9
    ensures !IsDigit(c) ==> d == 0
  {
    if IsDigit(c) then c as int - '0' as int else 0
  }

  /** `is_identifier`: a variable name is neither a digit nor the end marker,
      so `expr`'s cases are disjoint. `IdentifiersExactly` gives the exact set. */
  predicate IsIdentifier(c: char)
    ensures IsIdentifier(c) ==> c != '\0' && !IsDigit(c)
  {
    'a' <= c <= 'e'
  }

  /** `is_digit` holds exactly for the ten digit characters, and `to_digit`
      gives each its position among them. */
  lemma DigitsExactly(c: char)
    ensures IsDigit(c) <==> c in Digits
    ensures IsDigit(c) ==> Digits[ToDigit(c)] == c
  {
  }

  /** `is_identifier` holds exactly for the five variable names. */
  lemma IdentifiersExactly(c: char)
    ensures IsIdentifier(c) <==> c in Identifiers
  {
  }

  /** Reading a digit back from its value gives the value. */
  lemma ToDigitInverse(d: int)
    requires 0 <= d <= 9
    ensures IsDigit(Digits[d]) && ToDigit(Digits[d]) == d
  {
  }
}
