/** C strings: they end in NUL, and reading past the last character gives it. */
module CStrings {
  import opened Decimal

  function CharAt(s: string, i: nat): char { if i < |s| then s[i] else '\0' }

  predicate IsDigit(c: char) { '0' <= c <= '9' }

  function DigitValue(c: char): Digit
    requires IsDigit(c)
  { c as int - 48 }

  predicate AllDigits(s: string) { forall k :: 0 <= k < |s| ==> IsDigit(s[k]) }

  function DigitsOf(s: string): seq<Digit>
    requires AllDigits(s)
  { seq(|s|, k requires 0 <= k < |s| => DigitValue(s[k])) }

  lemma DigitsOfChars(ds: seq<Digit>)
    ensures AllDigits(Chars(ds))
    ensures DigitsOf(Chars(ds)) == ds
  {
  }
}
