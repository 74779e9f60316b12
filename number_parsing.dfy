/** parseInt(string) of ECMA-262 called without a radix, over integers, with
    None standing for NaN: skip leading white space, read an optional sign,
    switch to base 16 after a "0x" or "0X" prefix, then read the longest run
    of digits of that base. */
module NumberParsing {
  import opened Wrappers
  import opened JsValues
  import opened Digits

  /** StrWhiteSpaceChar: WhiteSpace (tab, vertical tab, form feed, the byte
      order mark and every space separator of Unicode category Zs) and
      LineTerminator (line feed, carriage return, U+2028, U+2029). */
  predicate IsWhiteSpace(c: char)
  {
    var cp := c as int;
    cp == 0x09 || cp == 0x0B || cp == 0x0C || cp == 0xFEFF
    || cp == 0x20 || cp == 0xA0 || cp == 0x1680 || (0x2000 <= cp <= 0x200A)
    || cp == 0x202F || cp == 0x205F || cp == 0x3000
    || cp == 0x0A || cp == 0x0D || cp == 0x2028 || cp == 0x2029
  }

  /** The string with its leading white space removed. */
  function TrimStart(s: string): (r: string)
    ensures |r| <= |s| && r == s[|s| - |r|..]
    ensures forall i :: 0 <= i < |s| - |r| ==> IsWhiteSpace(s[i])
    ensures r == [] || !IsWhiteSpace(r[0])
  {
    if s != [] && IsWhiteSpace(s[0]) then TrimStart(s[1..]) else s
  }

  /** The longest prefix of s made of digits of the radix. */
  function LeadingDigits(s: string, radix: int): (r: string)
    ensures |r| <= |s| && r == s[..|r|]
    ensures forall i :: 0 <= i < |r| ==> IsDigit(r[i], radix)
    ensures |r| < |s| ==> !IsDigit(s[|r|], radix)
  {
    if s != [] && IsDigit(s[0], radix) then [s[0]] + LeadingDigits(s[1..], radix) else []
  }

  /** The number that a string of digits denotes in the radix. */
  function DigitsValue(ds: string, radix: int): nat
    requires radix == 10 || radix == 16
    requires forall i :: 0 <= i < |ds| ==> IsDigit(ds[i], radix)
  {
    if ds == [] then 0
    else
      assert IsDigit(ds[|ds| - 1], radix);
      var d := DigitValue(ds[|ds| - 1], radix).value;
      DigitsValue(ds[..|ds| - 1], radix) * radix + d
  }

  /** The string without its leading '+' or '-'. */
  function StripSign(t: string): string
  {
    if t != [] && (t[0] == '+' || t[0] == '-') then t[1..] else t
  }

  /** What remains once white space and the sign are removed. */
  function Unsigned(s: string): string
  {
    StripSign(TrimStart(s))
  }

  predicate HasHexPrefix(u: string)
  {
    |u| >= 2 && u[0] == '0' && (u[1] == 'x' || u[1] == 'X')
  }

  /** The magnitude: hexadecimal after a "0x" or "0X" prefix, decimal
      otherwise, None when no digit follows. */
  function ParseMagnitude(u: string): Option<nat>
  {
    var radix := if HasHexPrefix(u) then 16 else 10;
    var digits := LeadingDigits(if HasHexPrefix(u) then u[2..] else u, radix);
    if digits == [] then None else Some(DigitsValue(digits, radix))
  }

  /** parseInt on a string that has no leading white space. */
  function ParseTrimmed(t: string): (r: Option<int>)
    ensures r.None? <==> ParseMagnitude(StripSign(t)).None?
    ensures r.Some? ==> ParseMagnitude(StripSign(t)) == Some(if r.value < 0 then -r.value else r.value)
    ensures r.Some? && r.value < 0 ==> t != [] && t[0] == '-'
    ensures r.Some? && t != [] && t[0] == '-' ==> r.value <= 0
  {
    var sign := if t != [] && t[0] == '-' then -1 else 1;
    match ParseMagnitude(StripSign(t))
    case None => None
    case Some(m) => Some(sign * m)
  }

  /** parseInt(s): NaN exactly when no digit can be read after the white space
      and the sign; otherwise the magnitude read there, negated only after a
      '-'. */
  function ParseInt(s: string): (r: Option<int>)
    ensures r.None? <==> ParseMagnitude(Unsigned(s)).None?
    ensures r.Some? ==> ParseMagnitude(Unsigned(s)) == Some(if r.value < 0 then -r.value else r.value)
    ensures r.Some? && r.value < 0 ==> TrimStart(s) != [] && TrimStart(s)[0] == '-'
    ensures r.Some? && TrimStart(s) != [] && TrimStart(s)[0] == '-' ==> r.value <= 0
  {
    ParseTrimmed(TrimStart(s))
  }

  /** parseInt gives NaN exactly when, after white space and sign, there is no
      decimal digit, or there is a "0x" prefix with no hexadecimal digit after
      it. */
  lemma ParseIntNaN(s: string)
    ensures var u := Unsigned(s);
      ParseInt(s) == None <==>
        (u == [] || !IsDigit(u[0], 10) || (HasHexPrefix(u) && (|u| == 2 || !IsDigit(u[2], 16))))
  {
  }

  /** Leading white space does not change what parseInt reads. */
  lemma ParseIntSkipsWhiteSpace(ws: string, s: string)
    requires forall i :: 0 <= i < |ws| ==> IsWhiteSpace(ws[i])
    ensures ParseInt(ws + s) == ParseInt(s)
  {
    TrimStartWhiteSpace(ws, s);
  }

  lemma {:induction false} TrimStartWhiteSpace(ws: string, s: string)
    requires forall i :: 0 <= i < |ws| ==> IsWhiteSpace(ws[i])
    ensures TrimStart(ws + s) == TrimStart(s)
    decreases |ws|
  {
    if ws == [] {
      assert ws + s == s;
    } else {
      assert (ws + s)[0] == ws[0] && (ws + s)[1..] == ws[1..] + s;
      TrimStartWhiteSpace(ws[1..], s);
    }
  }

  lemma {:induction false} DigitsOfNatString(m: nat)
    ensures DigitsValue(NatString(m), 10) == m
    decreases m
  {
    if m >= 10 {
      var ds := NatString(m);
      assert ds[..|ds| - 1] == NatString(m / 10);
      DigitsOfNatString(m / 10);
    }
  }

  lemma {:induction false} LeadingDigitsOfDigits(ds: string, tail: string, radix: int)
    requires forall i :: 0 <= i < |ds| ==> IsDigit(ds[i], radix)
    requires tail == [] || !IsDigit(tail[0], radix)
    ensures LeadingDigits(ds + tail, radix) == ds
    decreases |ds|
  {
    if ds != [] {
      assert (ds + tail)[1..] == ds[1..] + tail;
      LeadingDigitsOfDigits(ds[1..], tail, radix);
      assert [ds[0]] + ds[1..] == ds;
    } else {
      assert ds + tail == tail;
    }
  }

  /** parseInt reads back the decimal form String(n) of any integer n, and stops
      at the first character that is not a digit; only "0" followed by an
      "x" or "X" is read as the start of a hexadecimal number. */
  lemma ParseIntOfDecimal(n: int, tail: string)
    requires tail == [] || !IsDigit(tail[0], 10)
    requires n == 0 ==> tail == [] || (tail[0] != 'x' && tail[0] != 'X')
    ensures ParseInt(IntString(n) + tail) == Some(n)
  {
    var m := if n < 0 then -n else n;
    UnsignedOfDecimal(n, tail);
    MagnitudeOfDecimal(m, tail);
  }

  lemma MagnitudeOfDecimal(m: nat, tail: string)
    requires tail == [] || !IsDigit(tail[0], 10)
    requires m == 0 ==> tail == [] || (tail[0] != 'x' && tail[0] != 'X')
    ensures ParseMagnitude(NatString(m) + tail) == Some(m)
  {
    var ds := NatString(m);
    assert !HasHexPrefix(ds + tail);
    LeadingDigitsOfDigits(ds, tail, 10);
    DigitsOfNatString(m);
  }

  lemma UnsignedOfDecimal(n: int, tail: string)
    ensures var s := IntString(n) + tail;
      && TrimStart(s) == s
      && (s[0] == '-' <==> n < 0)
      && StripSign(s) == NatString(if n < 0 then -n else n) + tail
  {
    var s := IntString(n) + tail;
    var ds := NatString(if n < 0 then -n else n);
    if n < 0 {
      assert s == ['-'] + (ds + tail);
      assert StripSign(s) == ds + tail;
    } else {
      assert s == ds + tail;
      assert '0' <= s[0] <= '9';
    }
    TrimStartKeeps(s);
  }

  lemma TrimStartKeeps(s: string)
    requires s != [] && (s[0] == '-' || '0' <= s[0] <= '9')
    ensures TrimStart(s) == s
  {
  }

  /** Hence parseInt(String(n)) == n for every integer n. */
  lemma ParseIntRoundTrip(n: int)
    ensures ParseInt(IntString(n)) == Some(n)
  {
    ParseIntOfDecimal(n, "");
    assert IntString(n) + "" == IntString(n);
  }
}
