/** Digit characters of base 10 and base 16, shared by String(n), parseInt
    and the "%XY" octets of encodeURIComponent. */
module Digits {
  import opened Wrappers

  /** The value of c as a digit of the radix (10 or 16; hexadecimal letters
      in either case), if it is one. */
  function DigitValue(c: char, radix: int): (r: Option<int>)
    ensures r.Some? ==> 0 <= r.value < 16
  {
    if '0' <= c <= '9' then Some(c as int - '0' as int)
    else if radix == 16 && 'a' <= c <= 'f' then Some(c as int - 'a' as int + 10)
    else if radix == 16 && 'A' <= c <= 'F' then Some(c as int - 'A' as int + 10)
    else None
  }

  predicate IsDigit(c: char, radix: int)
  {
    DigitValue(c, radix).Some?
  }

  /** The digit that stands for d, upper case above 9, as Number::toString
      and encodeURIComponent write it; reading it back gives d. */
  function DigitChar(d: int): (c: char)
    requires 0 <= d < 16
    ensures ('0' <= c <= '9') || ('A' <= c <= 'F')
    ensures DigitValue(c, 16) == Some(d)
    ensures d < 10 ==> DigitValue(c, 10) == Some(d)
  {
    if d < 10 then ('0' as int + d) as char else ('A' as int + d - 10) as char
  }
}
