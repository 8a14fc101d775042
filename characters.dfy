/**
 * Character classes of the C locale and the value of a decimal digit
 * string, shared by the three programs (argument parsing, RPN tokens and
 * operands, date fields).
 */
module Characters {

  /** isspace in the C locale: space, \t, \n, \v, \f, \r. */
  predicate IsSpace(c: char)
  {
    c == ' ' || 9 <= c as int <= 13
  }

  predicate IsDigit(ch: char) { '0' <= ch <= '9' }

  /** No character outside "0123456789". */
  predicate AllDigits(s: string)
  {
    forall k :: 0 <= k < |s| ==> IsDigit(s[k])
  }

  function DigitValue(ch: char): (v: nat)
    requires IsDigit(ch)
    ensures v <= 9
  {
    ch as int - '0' as int
  }

  /** The exact decimal value of a digit string (most significant first). */
  function DecimalValue(s: string): nat
    requires AllDigits(s)
  {
    if s == [] then 0
    else 10 * DecimalValue(s[..|s| - 1]) + DigitValue(s[|s| - 1])
  }
}
