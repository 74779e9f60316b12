/** encodeURIComponent of ECMA-262 and its inverse decodeURIComponent.
    Every character outside the uriUnreserved set (letters, digits and
    - _ . ! ~ * ' ( )) is written as the percent-encoded octets of its UTF-8
    form, "%XY" with upper-case hexadecimal digits, as section 2.1 of RFC 3986
    describes. Strings are sequences of Unicode scalar values. */
module UriComponent {
  import opened Wrappers
  import opened Digits

  /** The characters encodeURIComponent leaves as they are. */
  predicate Unreserved(c: char)
  {
    || ('A' <= c <= 'Z') || ('a' <= c <= 'z') || ('0' <= c <= '9')
    || c == '-' || c == '_' || c == '.' || c == '!' || c == '~' || c == '*' || c == '\'' || c == '(' || c == ')'
  }

  type Byte = b: int | 0 <= b < 256

  /** One octet as "%XY". */
  function Triplet(b: Byte): string
  {
    ['%', DigitChar(b / 16), DigitChar(b % 16)]
  }

  function Percent(bs: seq<Byte>): (r: string)
    ensures |r| == 3 * |bs|
  {
    if bs == [] then "" else Triplet(bs[0]) + Percent(bs[1..])
  }

  /** A percent-encoding is made of '%' and upper-case hexadecimal digits,
      all of them unreserved. */
  lemma {:induction false} PercentAlphabet(bs: seq<Byte>)
    ensures forall i :: 0 <= i < |Percent(bs)| ==> Unreserved(Percent(bs)[i]) || Percent(bs)[i] == '%'
  {
    if bs != [] {
      PercentAlphabet(bs[1..]);
    }
  }

  /** The UTF-8 octets of a scalar value. */
  function Utf8(c: char): (bs: seq<Byte>)
    ensures 1 <= |bs| <= 4
  {
    var cp := c as int;
    if cp < 0x80 then [cp]
    else if cp < 0x800 then [0xC0 + cp / 64, 0x80 + cp % 64]
    else if cp < 0x10000 then [0xE0 + cp / 4096, 0x80 + cp / 64 % 64, 0x80 + cp % 64]
    else [0xF0 + cp / 0x40000, 0x80 + cp / 4096 % 64, 0x80 + cp / 64 % 64, 0x80 + cp % 64]
  }

  function EncodeChar(c: char): (r: string)
    ensures |r| >= 1
    ensures forall i :: 0 <= i < |r| ==> Unreserved(r[i]) || r[i] == '%'
  {
    if Unreserved(c) then [c]
    else
      PercentAlphabet(Utf8(c));
      Percent(Utf8(c))
  }

  /** encodeURIComponent(s). Its output holds only unreserved characters and
      '%', so never a '&', '=', '?', '#' or '/'; it leaves a string of
      unreserved characters unchanged. */
  function Encode(s: string): (r: string)
    ensures forall i :: 0 <= i < |r| ==> Unreserved(r[i]) || r[i] == '%'
    ensures |r| >= |s|
    ensures (forall i :: 0 <= i < |s| ==> Unreserved(s[i])) ==> r == s
  {
    if s == [] then "" else EncodeChar(s[0]) + Encode(s[1..])
  }

  /** A character that is neither unreserved nor '%' never occurs in an
      encoding. */
  lemma NotInEncode(s: string, c: char)
    requires !Unreserved(c) && c != '%'
    ensures c !in Encode(s)
  {
  }

  /** The octet written as "%XY" at position i of s. */
  function ByteAt(s: string, i: nat): Option<Byte>
  {
    if i + 3 <= |s| && s[i] == '%' then
      match (DigitValue(s[i + 1], 16), DigitValue(s[i + 2], 16))
      case (Some(h), Some(l)) => Some(16 * h + l)
      case _ => None
    else None
  }

  /** The six payload bits of a UTF-8 continuation octet 10xxxxxx at position i. */
  function ContinuationAt(s: string, i: nat): (r: Option<int>)
    ensures r.Some? ==> 0 <= r.value < 64
  {
    match ByteAt(s, i)
    case Some(b) => if 0x80 <= b < 0xC0 then Some(b - 0x80) else None
    case None => None
  }

  /** The character at the front of s and how many characters of s it spans,
      or None where decodeURIComponent throws a URIError. */
  function DecodeFirst(s: string): (r: Option<(char, nat)>)
    requires s != []
    ensures r.Some? ==> 1 <= r.value.1 <= |s|
  {
    if s[0] != '%' then Some((s[0], 1))
    else match ByteAt(s, 0)
      case None => None
      case Some(b0) =>
        if b0 < 0x80 then Some((b0 as char, 3))
        else if 0xC0 <= b0 < 0xE0 then
          match ContinuationAt(s, 3)
          case None => None
          case Some(x1) =>
            var cp := (b0 - 0xC0) * 64 + x1;
            if cp < 0x80 then None else Some((cp as char, 6))
        else if 0xE0 <= b0 < 0xF0 then
          match (ContinuationAt(s, 3), ContinuationAt(s, 6))
          case (Some(x1), Some(x2)) =>
            var cp := (b0 - 0xE0) * 4096 + x1 * 64 + x2;
            if cp < 0x800 || 0xD800 <= cp < 0xE000 then None else Some((cp as char, 9))
          case _ => None
        else if 0xF0 <= b0 < 0xF8 then
          match (ContinuationAt(s, 3), ContinuationAt(s, 6), ContinuationAt(s, 9))
          case (Some(x1), Some(x2), Some(x3)) =>
            var cp := (b0 - 0xF0) * 0x40000 + x1 * 4096 + x2 * 64 + x3;
            if cp < 0x10000 || cp > 0x10FFFF then None else Some((cp as char, 12))
          case _ => None
        else None
  }

  /** decodeURIComponent(s), with None for a URIError. */
  function Decode(s: string): Option<string>
    decreases |s|
  {
    if s == [] then Some("")
    else match DecodeFirst(s)
      case None => None
      case Some((c, n)) =>
        match Decode(s[n..])
        case None => None
        case Some(t) => Some([c] + t)
  }

  /** "%XY" at position i is read as the octet it encodes. */
  lemma TripletReads(s: string, i: nat, b: Byte)
    requires i + 3 <= |s| && s[i] == '%'
    requires s[i + 1] == DigitChar(b / 16) && s[i + 2] == DigitChar(b % 16)
    ensures ByteAt(s, i) == Some(b)
  {
  }

  /** The k-th octet of a percent-encoding is written at offset 3k. */
  lemma {:induction false} PercentAt(bs: seq<Byte>, k: nat)
    requires k < |bs|
    ensures var p := Percent(bs);
      && 3 * k + 3 <= |p| && p[3 * k] == '%'
      && p[3 * k + 1] == DigitChar(bs[k] / 16) && p[3 * k + 2] == DigitChar(bs[k] % 16)
    decreases k
  {
    var p := Percent(bs);
    var q := Percent(bs[1..]);
    assert p == Triplet(bs[0]) + q;
    if k > 0 {
      PercentAt(bs[1..], k - 1);
      var i := 3 * k;
      assert p[i] == q[i - 3] && p[i + 1] == q[i - 2] && p[i + 2] == q[i - 1];
    }
  }


  /** Decoding the encoding of one character gives that character back and
      consumes exactly its encoding. */
  lemma DecodeFirstEncodeChar(c: char, rest: string)
    ensures DecodeFirst(EncodeChar(c) + rest) == Some((c, |EncodeChar(c)|))
  {
    var cp := c as int;
    if Unreserved(c) {
      assert EncodeChar(c) == [c];
      assert (EncodeChar(c) + rest)[0] == c;
    } else {
      assert EncodeChar(c) == Percent(Utf8(c));
      if cp < 0x80 {
        DecodeOneOctet(c, rest);
      } else if cp < 0x800 {
        DecodeTwoOctets(c, rest);
      } else if cp < 0x10000 {
        DecodeThreeOctets(c, rest);
      } else {
        DecodeFourOctets(c, rest);
      }
    }
  }

  lemma DecodeOneOctet(c: char, rest: string)
    requires c as int < 0x80
    ensures DecodeFirst(Percent(Utf8(c)) + rest) == Some((c, 3))
  {
  }

  lemma DecodeTwoOctets(c: char, rest: string)
    requires 0x80 <= c as int < 0x800
    ensures DecodeFirst(Percent(Utf8(c)) + rest) == Some((c, 6))
  {
    var cp := c as int;
    var b0, b1 := 0xC0 + cp / 64, 0x80 + cp % 64;
    var s := Percent(Utf8(c)) + rest;
    assert Utf8(c) == [b0, b1];
    ReadTwoOctets(b0, b1, rest);
    assert ContinuationAt(s, 3) == Some(b1 - 0x80);
  }

  lemma ReadTwoOctets(b0: Byte, b1: Byte, rest: string)
    ensures var s := Percent([b0, b1]) + rest;
      s[0] == '%' && ByteAt(s, 0) == Some(b0) && ByteAt(s, 3) == Some(b1)
  {
    var bs := [b0, b1];
    var s := Percent(bs) + rest;
    PercentAt(bs, 0);
    PercentAt(bs, 1);
    TripletReads(s, 0, b0);
    TripletReads(s, 3, b1);
  }

  lemma DecodeThreeOctets(c: char, rest: string)
    requires 0x800 <= c as int < 0x10000
    ensures DecodeFirst(Percent(Utf8(c)) + rest) == Some((c, 9))
  {
    var cp := c as int;
    var b0, b1, b2 := 0xE0 + cp / 4096, 0x80 + cp / 64 % 64, 0x80 + cp % 64;
    var s := Percent(Utf8(c)) + rest;
    assert Utf8(c) == [b0, b1, b2];
    ReadThreeOctets(b0, b1, b2, rest);
    Utf8Three(cp);
    DecodeFirstThree(s, b0, b1 - 0x80, b2 - 0x80);
  }

  lemma ReadThreeOctets(b0: Byte, b1: Byte, b2: Byte, rest: string)
    ensures var s := Percent([b0, b1, b2]) + rest;
      s[0] == '%' && ByteAt(s, 0) == Some(b0) && ByteAt(s, 3) == Some(b1) && ByteAt(s, 6) == Some(b2)
  {
    var bs := [b0, b1, b2];
    var s := Percent(bs) + rest;
    PercentAt(bs, 0);
    PercentAt(bs, 1);
    PercentAt(bs, 2);
    TripletReads(s, 0, b0);
    TripletReads(s, 3, b1);
    TripletReads(s, 6, b2);
  }

  lemma DecodeFirstThree(s: string, b0: Byte, x1: int, x2: int)
    requires s != [] && s[0] == '%'
    requires 0xE0 <= b0 < 0xF0 && 0 <= x1 < 64 && 0 <= x2 < 64
    requires ByteAt(s, 0) == Some(b0) && ByteAt(s, 3) == Some(0x80 + x1) && ByteAt(s, 6) == Some(0x80 + x2)
    requires var cp := (b0 - 0xE0) * 4096 + x1 * 64 + x2; 0x800 <= cp && !(0xD800 <= cp < 0xE000)
    ensures DecodeFirst(s) == Some((((b0 - 0xE0) * 4096 + x1 * 64 + x2) as char, 9))
  {
    assert ContinuationAt(s, 3) == Some(x1);
    assert ContinuationAt(s, 6) == Some(x2);
  }

  lemma DecodeFourOctets(c: char, rest: string)
    requires 0x10000 <= c as int
    ensures DecodeFirst(Percent(Utf8(c)) + rest) == Some((c, 12))
  {
    var cp := c as int;
    var h, x1, x2, x3 := cp / 0x40000, cp / 4096 % 64, cp / 64 % 64, cp % 64;
    Utf8Four(cp);
    assert Utf8(c) == [0xF0 + h, 0x80 + x1, 0x80 + x2, 0x80 + x3];
    DecodeFourOf(h, x1, x2, x3, rest);
  }

  /** The four octets 11110hhh 10xxxxxx 10xxxxxx 10xxxxxx of a scalar value at
      or above U+10000 decode to that value. */
  lemma DecodeFourOf(h: int, x1: int, x2: int, x3: int, rest: string)
    requires 0 <= h < 8 && 0 <= x1 < 64 && 0 <= x2 < 64 && 0 <= x3 < 64
    requires 0x10000 <= h * 0x40000 + x1 * 4096 + x2 * 64 + x3 <= 0x10FFFF
    ensures var s := Percent([0xF0 + h, 0x80 + x1, 0x80 + x2, 0x80 + x3]) + rest;
      DecodeFirst(s) == Some(((h * 0x40000 + x1 * 4096 + x2 * 64 + x3) as char, 12))
  {
    var s := Percent([0xF0 + h, 0x80 + x1, 0x80 + x2, 0x80 + x3]) + rest;
    ReadFourOctets(0xF0 + h, 0x80 + x1, 0x80 + x2, 0x80 + x3, rest);
    DecodeFirstFour(s, 0xF0 + h, x1, x2, x3);
  }

  lemma ReadFourOctets(b0: Byte, b1: Byte, b2: Byte, b3: Byte, rest: string)
    ensures var s := Percent([b0, b1, b2, b3]) + rest;
      s[0] == '%' && ByteAt(s, 0) == Some(b0) && ByteAt(s, 3) == Some(b1) && ByteAt(s, 6) == Some(b2) && ByteAt(s, 9) == Some(b3)
  {
    var bs := [b0, b1, b2, b3];
    var s := Percent(bs) + rest;
    PercentAt(bs, 0);
    PercentAt(bs, 1);
    PercentAt(bs, 2);
    PercentAt(bs, 3);
    TripletReads(s, 0, b0);
    TripletReads(s, 3, b1);
    TripletReads(s, 6, b2);
    TripletReads(s, 9, b3);
  }

  lemma DecodeFirstFour(s: string, b0: Byte, x1: int, x2: int, x3: int)
    requires s != [] && s[0] == '%'
    requires 0xF0 <= b0 < 0xF8 && 0 <= x1 < 64 && 0 <= x2 < 64 && 0 <= x3 < 64
    requires ByteAt(s, 0) == Some(b0) && ByteAt(s, 3) == Some(0x80 + x1)
    requires ByteAt(s, 6) == Some(0x80 + x2) && ByteAt(s, 9) == Some(0x80 + x3)
    requires 0x10000 <= (b0 - 0xF0) * 0x40000 + x1 * 4096 + x2 * 64 + x3 <= 0x10FFFF
    ensures DecodeFirst(s) == Some((((b0 - 0xF0) * 0x40000 + x1 * 4096 + x2 * 64 + x3) as char, 12))
  {
  }

  lemma Utf8Three(cp: int)
    requires 0 <= cp
    ensures (cp / 4096) * 4096 + (cp / 64 % 64) * 64 + cp % 64 == cp
  {
  }

  lemma Utf8Four(cp: int)
    requires 0x10000 <= cp <= 0x10FFFF
    ensures 0 <= cp / 0x40000 < 8
    ensures (cp / 0x40000) * 0x40000 + (cp / 4096 % 64) * 4096 + (cp / 64 % 64) * 64 + cp % 64 == cp
  {
    var q := cp / 64;
    var q2 := q / 64;
    assert q2 == cp / 4096;
    assert q2 / 64 == cp / 0x40000;
  }

  /** decodeURIComponent(encodeURIComponent(s)) == s. */
  lemma {:induction false} DecodeEncode(s: string)
    ensures Decode(Encode(s)) == Some(s)
    decreases |s|
  {
    if s != [] {
      var e := EncodeChar(s[0]);
      DecodeFirstEncodeChar(s[0], Encode(s[1..]));
      assert (e + Encode(s[1..]))[|e|..] == Encode(s[1..]);
      DecodeEncode(s[1..]);
      assert [s[0]] + s[1..] == s;
    }
  }

  /** Two different strings never encode alike. */
  lemma EncodeInjective(a: string, b: string)
    requires Encode(a) == Encode(b)
    ensures a == b
  {
    DecodeEncode(a);
    DecodeEncode(b);
  }
}
