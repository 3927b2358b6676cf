/** What the escapes of JSON strings stand for (sections 7 and 8 of RFC 8259), against a decoder written from the byte
    classes of RFC 3629: libjl777/cJSON.c turns every escape of a code point into the bytes of that code point. */
module JsonUnicode {
  import opened Basics
  import opened Json

  // ----- UTF-8 by byte classes -----

  /** A byte of the class 10xxxxxx. */
  predicate Continues(c: char) { c as int / 64 == 2 }

  /** The code point at the start of a string, in its shortest form: 0xxxxxxx, 110xxxxx, 1110xxxx or 11110xxx, then
      continuation bytes with six bits each. */
  function DecodeUtf8(s: string): Option<(nat, string)> {
    if s == "" then None
    else
      var lead := s[0] as int;
      if lead / 128 == 0 then Some((lead, s[1..]))
      else if lead / 32 == 6 && |s| > 1 && Continues(s[1]) then
        Shortest(lead % 32 * 64 + s[1] as int % 64, 0x80, s[2..])
      else if lead / 16 == 14 && |s| > 2 && Continues(s[1]) && Continues(s[2]) then
        Shortest(lead % 16 * 4096 + s[1] as int % 64 * 64 + s[2] as int % 64, 0x800, s[3..])
      else if lead / 8 == 30 && |s| > 3 && Continues(s[1]) && Continues(s[2]) && Continues(s[3]) then
        Shortest(lead % 8 * 0x4_0000 + s[1] as int % 64 * 4096 + s[2] as int % 64 * 64 + s[3] as int % 64, 0x1_0000,
                 s[4..])
      else None
  }

  function Shortest(n: nat, least: nat, rest: string): Option<(nat, string)> {
    if least <= n < 0x11_0000 && !(0xD800 <= n < 0xE000) then Some((n, rest)) else None
  }

  predicate IsScalarValue(n: nat) { n < 0x11_0000 && !(0xD800 <= n < 0xE000) }

  lemma TailByte(d: nat)
    requires d < 64
    ensures Continues((0x80 + d) as char) && (0x80 + d) % 64 == d
  { }

  /** Lead bytes keep their class and their payload. */
  lemma LeadByte(base: nat, d: nat, unit: nat)
    requires (base, unit) in {(0xC0, 32), (0xE0, 16), (0xF0, 8)} && d < unit
    ensures (base + d) / unit == base / unit && (base + d) % unit == d
  { }

  lemma SixBits(n: nat)
    ensures n / 64 * 64 + n % 64 == n && n / 4096 == n / 64 / 64 && n / 0x4_0000 == n / 4096 / 64
  { }

  lemma TwoBytes(n: nat, rest: string)
    requires 0x80 <= n < 0x800
    ensures DecodeUtf8(Utf8(n) + rest) == Some((n, rest))
  {
    var s := Utf8(n) + rest;
    LeadByte(0xC0, n / 64, 32);
    TailByte(n % 64);
    SixBits(n);
    assert s[2..] == rest;
    hide Continues;
  }

  lemma ThreeBytes(n: nat, rest: string)
    requires 0x800 <= n < 0x1_0000 && IsScalarValue(n)
    ensures DecodeUtf8(Utf8(n) + rest) == Some((n, rest))
  {
    var s := Utf8(n) + rest;
    LeadByte(0xE0, n / 4096, 16);
    TailByte(n / 64 % 64);
    TailByte(n % 64);
    SixBits(n);
    SixBits(n / 64);
    assert s[3..] == rest;
    hide Continues;
  }

  lemma FourBytes(n: nat, rest: string)
    requires 0x1_0000 <= n < 0x11_0000
    ensures DecodeUtf8(Utf8(n) + rest) == Some((n, rest))
  {
    var s := Utf8(n) + rest;
    LeadByte(0xF0, n / 0x4_0000, 8);
    TailByte(n / 4096 % 64);
    TailByte(n / 64 % 64);
    TailByte(n % 64);
    SixBits(n);
    SixBits(n / 64);
    SixBits(n / 4096);
    assert s[4..] == rest;
    hide Continues;
  }

  /** Every code point is written in the bytes that stand for it. */
  lemma Utf8Decodes(n: nat, rest: string)
    requires IsScalarValue(n)
    ensures DecodeUtf8(Utf8(n) + rest) == Some((n, rest))
  {
    if n < 0x80 {
      assert ([n as char] + rest)[1..] == rest;
    } else if n < 0x800 {
      TwoBytes(n, rest);
    } else if n < 0x1_0000 {
      ThreeBytes(n, rest);
    } else {
      FourBytes(n, rest);
    }
  }

  // ----- hexadecimal digits -----

  /** A hex digit, in either case. */
  function HexChar(d: nat, upper: bool): char
    requires d < 16
  {
    if upper then "0123456789ABCDEF"[d] else "0123456789abcdef"[d]
  }

  /** Four hex digits, most significant first; upper says which of them are written in upper case. */
  function HexText(n: nat, upper: nat): (s: string)
    requires n < 0x1_0000
    ensures |s| == 4
  {
    [HexChar(n / 4096, upper / 8 % 2 == 1), HexChar(n / 256 % 16, upper / 4 % 2 == 1),
     HexChar(n / 16 % 16, upper / 2 % 2 == 1), HexChar(n % 16, upper % 2 == 1)]
  }

  lemma HexCharValue(d: nat, upper: bool)
    requires d < 16
    ensures HexValue(HexChar(d, upper)) == d
  { }

  lemma FourDigits(n: nat)
    ensures n == 4096 * (n / 4096) + 256 * (n / 256 % 16) + 16 * (n / 16 % 16) + n % 16
  {
    assert n / 256 == n / 16 / 16 && n / 4096 == n / 256 / 16;
  }

  lemma HexTextValue(n: nat, upper: nat, rest: string)
    requires n < 0x1_0000
    ensures IsHex4(HexText(n, upper) + rest) && Hex4(HexText(n, upper) + rest) == n
    ensures (HexText(n, upper) + rest)[4..] == rest
  {
    hide HexChar, HexValue;
    FourDigits(n);
    var a, b, c, d := n / 4096, n / 256 % 16, n / 16 % 16, n % 16;
    HexCharValue(a, upper / 8 % 2 == 1);
    HexCharValue(b, upper / 4 % 2 == 1);
    HexCharValue(c, upper / 2 % 2 == 1);
    HexCharValue(d, upper % 2 == 1);
    var s := HexText(n, upper) + rest;
    assert HexValue(s[0]) == a && HexValue(s[1]) == b && HexValue(s[2]) == c && HexValue(s[3]) == d;
    hide HexText;
  }

  // ----- \u escapes -----

  /** What follows the backslash and the u, for a code point: one number, or above 0xffff its two UTF-16 halves. */
  function UnicodeText(n: nat, upper: nat): string
    requires IsScalarValue(n)
  {
    if n < 0x1_0000 then HexText(n, upper)
    else
      var m := n - 0x1_0000;
      HexText(0xD800 + m / 1024, upper) + ([BACKSLASH, 'u'] + HexText(0xDC00 + m % 1024, upper / 16))
  }

  /** The escape of a code point, as one number or as a pair of surrogates, is read as the bytes of that code
      point. */
  lemma UnicodeRead(n: nat, upper: nat, rest: string)
    requires IsScalarValue(n) && n != 0
    ensures var r := ParseUnicode(UnicodeText(n, upper) + rest);
            && r.Parsed? && r.rest == rest
            && r.value == Utf8(n) && DecodeUtf8(r.value) == Some((n, ""))
  {
    hide HexText, IsHex4, Hex4, Utf8, DecodeUtf8;
    Utf8Decodes(n, "");
    assert Utf8(n) + "" == Utf8(n);
    if n < 0x1_0000 {
      HexTextValue(n, upper, rest);
    } else {
      var m := n - 0x1_0000;
      var high, low := HexText(0xD800 + m / 1024, upper), HexText(0xDC00 + m % 1024, upper / 16);
      var tail := [BACKSLASH, 'u'] + (low + rest);
      assert UnicodeText(n, upper) + rest == high + tail;
      HexTextValue(0xD800 + m / 1024, upper, tail);
      HexTextValue(0xDC00 + m % 1024, upper / 16, rest);
      assert tail[2..] == low + rest && tail[6..] == (low + rest)[4..];
      assert 0x1_0000 + (m / 1024) * 1024 + m % 1024 == n;
    }
  }

  /** A half without its partner, and the code point 0, are dropped. */
  lemma HalfDropped(n: nat, upper: nat, rest: string)
    requires n == 0 || 0xD800 <= n < 0xE000
    requires 0xD800 <= n < 0xDC00 ==> |rest| < 2 || rest[0] != BACKSLASH || rest[1] != 'u'
    ensures ParseUnicode(HexText(n, upper) + rest) == Parsed("", rest)
  {
    hide HexText, IsHex4, Hex4;
    HexTextValue(n, upper, rest);
  }

  // ----- the other escapes -----

  /** The table of section 7: what stands after the backslash, and the byte it stands for. */
  predicate ShortEscape(letter: char, byte: int) {
    || (letter as int == 0x22 && byte == 0x22) || (letter as int == 0x5C && byte == 0x5C)
    || (letter as int == 0x2F && byte == 0x2F)
    || (letter == 'b' && byte == 0x08) || (letter == 'f' && byte == 0x0C) || (letter == 'n' && byte == 0x0A)
    || (letter == 'r' && byte == 0x0D) || (letter == 't' && byte == 0x09)
  }

  lemma ShortEscapeRead(letter: char, byte: nat, rest: string)
    requires ShortEscape(letter, byte)
    ensures ParseEscape([letter] + rest) == Parsed([byte as char], rest)
  {
    assert ([letter] + rest)[1..] == rest;
  }
}
