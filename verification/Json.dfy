/** The texts of libjl777/cJSON.c: what its printer writes and what its parser reads, as functions on
    strings. A character is a byte and the end of a string is the terminating NUL of the source.
    Numbers are integers below 2^53, where the double arithmetic of the source is exact. */
module Json {
  datatype Json =
    | Null | False | True
    | Number(n: int)
    | String(s: string)
    | Array(items: Items)
    | Object(members: Members)

  /** The chain of children that the source links with next. */
  datatype Items = NoItem | Item(value: Json, next: Items)
  datatype Members = NoMember | Member(name: string, value: Json, next: Members)

  /** Outside stands for texts this model does not cover: fractions, exponents, numbers from 2^53 on,
      and escapes that are cut off or not followed by the hex digits they need. */
  datatype Parsed<T> = Parsed(value: T, rest: string) | Failed | Outside

  const EXACT: int := 0x20_0000_0000_0000

  // ----- printing -----

  function Digit(d: nat): char
    requires d < 10
  {
    '0' + d as char
  }

  function Digits(n: nat): (s: string)
    ensures |s| > 0
  {
    if n < 10 then [Digit(n)] else Digits(n / 10) + [Digit(n % 10)]
  }

  function Decimal(n: int): string { if n < 0 then "-" + Digits(-n) else Digits(n) }

  function HexDigit(d: nat): char
    requires d < 16
  {
    if d < 10 then Digit(d) else 'a' + (d - 10) as char
  }

  const QUOTE: char := '\"'
  const BACKSLASH: char := '\\'
  const BACKSPACE: char := 8 as char
  const FORMFEED: char := 12 as char

  /** How one byte of a string is written. */
  function EscapeChar(c: char): string {
    if c as int > 31 && c != QUOTE && c != BACKSLASH then [c]
    else if c == QUOTE || c == BACKSLASH then [BACKSLASH, c]
    else if c == BACKSPACE then [BACKSLASH, 'b']
    else if c == FORMFEED then [BACKSLASH, 'f']
    else if c == '\n' then [BACKSLASH, 'n']
    else if c == '\r' then [BACKSLASH, 'r']
    else if c == '\t' then [BACKSLASH, 't']
    else [BACKSLASH, 'u', '0', '0', HexDigit(c as int / 16), HexDigit(c as int % 16)]
  }

  function Escape(s: string): string { if s == "" then "" else EscapeChar(s[0]) + Escape(s[1..]) }

  function Quote(s: string): string { [QUOTE] + Escape(s) + [QUOTE] }

  function Tabs(n: int): string
    decreases n
  {
    if n <= 0 then "" else "\t" + Tabs(n - 1)
  }

  /** The text is only there when formatting. */
  function When(fmt: bool, s: string): string { if fmt then s else "" }

  function Text(t: Json, depth: nat, fmt: bool): string {
    match t
    case Null => "null"
    case False => "false"
    case True => "true"
    case Number(n) => Decimal(n)
    case String(s) => Quote(s)
    case Array(items) => if items.NoItem? then "[]" else "[" + ItemsText(items, depth + 1, fmt) + "]"
    case Object(members) =>
      if members.NoMember? then "{" + When(fmt, "\n" + Tabs(depth - 1)) + "}"
      else "{" + When(fmt, "\n") + MembersText(members, depth + 1, fmt) + When(fmt, Tabs(depth)) + "}"
  }

  function ItemsText(items: Items, depth: nat, fmt: bool): string {
    match items
    case NoItem => ""
    case Item(value, next) =>
      if next.NoItem? then Text(value, depth, fmt)
      else Text(value, depth, fmt) + ("," + (When(fmt, " ") + ItemsText(next, depth, fmt)))
  }

  function MembersText(members: Members, depth: nat, fmt: bool): string {
    match members
    case NoMember => ""
    case Member(name, value, next) =>
      When(fmt, Tabs(depth)) + (Quote(name) + (":" + (When(fmt, "\t") + (Text(value, depth, fmt) +
        ((if next.NoMember? then "" else ",") + (When(fmt, "\n") + MembersText(next, depth, fmt)))))))
  }

  // ----- parsing -----

  function Skip(s: string): (r: string)
    ensures |r| <= |s| && (r == "" || r[0] as int > 32)
  {
    if s != "" && s[0] as int <= 32 then Skip(s[1..]) else s
  }

  predicate Starts(s: string, p: string) { |p| <= |s| && s[..|p|] == p }

  predicate IsDigit(c: char) { '0' <= c <= '9' }

  /** Reads digits on top of a value read so far. */
  function DigitRun(s: string, n: nat): (r: (nat, string))
    ensures |r.1| <= |s|
  {
    if s != "" && IsDigit(s[0]) then DigitRun(s[1..], 10 * n + (s[0] as int - '0' as int)) else (n, s)
  }

  function ParseNumber(s: string): (r: Parsed<Json>)
    requires s != "" && (s[0] == '-' || IsDigit(s[0]))
    ensures r.Parsed? ==> |r.rest| < |s|
  {
    var s1 := if s[0] == '-' then s[1..] else s;
    var s2 := if s1 != "" && s1[0] == '0' then s1[1..] else s1;
    var (n, rest) := if s2 != "" && '1' <= s2[0] <= '9' then DigitRun(s2[1..], s2[0] as int - '0' as int) else (0, s2);
    if GoesOn(rest) || n >= EXACT then Outside
    else Parsed(Number(if s[0] == '-' then -n else n), rest)
  }

  /** A fraction or an exponent follows. */
  predicate GoesOn(s: string) {
    s != "" && ((s[0] == '.' && |s| > 1 && IsDigit(s[1])) || s[0] == 'e' || s[0] == 'E')
  }

  function HexValue(c: char): int {
    if '0' <= c <= '9' then c as int - '0' as int
    else if 'A' <= c <= 'F' then 10 + c as int - 'A' as int
    else if 'a' <= c <= 'f' then 10 + c as int - 'a' as int
    else -1
  }

  predicate IsHex4(s: string) {
    |s| >= 4 && HexValue(s[0]) >= 0 && HexValue(s[1]) >= 0 && HexValue(s[2]) >= 0 && HexValue(s[3]) >= 0
  }

  function Hex4(s: string): (r: nat)
    requires IsHex4(s)
    ensures r < 0x10000
  {
    4096 * HexValue(s[0]) + 256 * HexValue(s[1]) + 16 * HexValue(s[2]) + HexValue(s[3])
  }

  /** The bytes of a code point. */
  function Utf8(uc: nat): (r: string)
    requires uc < 0x11_0000
    ensures 1 <= |r| <= 4
  {
    if uc < 0x80 then [uc as char]
    else if uc < 0x800 then [(0xC0 + uc / 64) as char, (0x80 + uc % 64) as char]
    else if uc < 0x10000 then [(0xE0 + uc / 4096) as char, (0x80 + uc / 64 % 64) as char, (0x80 + uc % 64) as char]
    else [(0xF0 + uc / 0x4_0000) as char, (0x80 + uc / 4096 % 64) as char, (0x80 + uc / 64 % 64) as char,
          (0x80 + uc % 64) as char]
  }

  /** One escape, after its backslash: the bytes it stands for. */
  function ParseEscape(s: string): (r: Parsed<string>)
    ensures r.Parsed? ==> |r.rest| < |s|
  {
    if s == "" then Outside
    else
      match s[0]
      case 'b' => Parsed([BACKSPACE], s[1..])
      case 'f' => Parsed([FORMFEED], s[1..])
      case 'n' => Parsed("\n", s[1..])
      case 'r' => Parsed("\r", s[1..])
      case 't' => Parsed("\t", s[1..])
      case 'u' => ParseUnicode(s[1..])
      case c => Parsed([c], s[1..])
  }

  function ParseUnicode(s: string): (r: Parsed<string>)
    ensures r.Parsed? ==> |r.rest| < |s|
  {
    if !IsHex4(s) then Outside
    else
      var uc, rest := Hex4(s), s[4..];
      if 0xDC00 <= uc <= 0xDFFF || uc == 0 then Parsed("", rest)
      else if 0xD800 <= uc <= 0xDBFF then
        if |rest| < 2 || rest[0] != BACKSLASH || rest[1] != 'u' then Parsed("", rest)
        else if !IsHex4(rest[2..]) then Outside
        else
          var uc2 := Hex4(rest[2..]);
          if uc2 < 0xDC00 || uc2 > 0xDFFF then Parsed("", rest[6..])
          else Parsed(Utf8(0x1_0000 + (uc - 0xD800) * 1024 + (uc2 - 0xDC00)), rest[6..])
      else Parsed(Utf8(uc), rest)
  }

  /** The rest of a string after its opening quote; an unterminated string is accepted. */
  function StringBody(s: string): (r: Parsed<string>)
    ensures !r.Failed? && (r.Parsed? ==> |r.rest| <= |s|)
  {
    if s == "" then Parsed("", "")
    else if s[0] == QUOTE then Parsed("", s[1..])
    else if s[0] != BACKSLASH then Prepend([s[0]], StringBody(s[1..]))
    else
      match ParseEscape(s[1..])
      case Parsed(bytes, rest) => Prepend(bytes, StringBody(rest))
      case _ => Outside
  }

  function Prepend(bytes: string, r: Parsed<string>): Parsed<string> {
    if r.Parsed? then Parsed(bytes + r.value, r.rest) else r
  }

  function ParseString(s: string): (r: Parsed<string>)
    ensures r.Parsed? ==> |r.rest| < |s|
  {
    if s == "" || s[0] != QUOTE then Failed else StringBody(s[1..])
  }

  function ParseValue(s: string): (r: Parsed<Json>)
    ensures r.Parsed? ==> |r.rest| < |s|
    decreases |s|, 0
  {
    if Starts(s, "null") then Parsed(Null, s[4..])
    else if Starts(s, "false") then Parsed(False, s[5..])
    else if Starts(s, "true") then Parsed(True, s[4..])
    else if s == "" then Failed
    else if s[0] == QUOTE then
      match ParseString(s)
      case Parsed(v, rest) => Parsed(String(v), rest)
      case Failed => Failed
      case Outside => Outside
    else if s[0] == '-' || IsDigit(s[0]) then ParseNumber(s)
    else if s[0] == '[' then
      var s1 := Skip(s[1..]);
      if s1 != "" && s1[0] == ']' then Parsed(Array(NoItem), s1[1..])
      else
        match ParseItems(s1)
        case Parsed(items, rest) => Parsed(Array(items), rest)
        case Failed => Failed
        case Outside => Outside
    else if s[0] == '{' then
      var s1 := Skip(s[1..]);
      if s1 != "" && s1[0] == '}' then Parsed(Object(NoMember), s1[1..])
      else
        match ParseMembers(s1)
        case Parsed(members, rest) => Parsed(Object(members), rest)
        case Failed => Failed
        case Outside => Outside
    else Failed
  }

  /** The items from here to the closing bracket. */
  function ParseItems(s: string): (r: Parsed<Items>)
    ensures r.Parsed? ==> |r.rest| < |s|
    decreases |s|, 1
  {
    match ParseValue(Skip(s))
    case Failed => Failed
    case Outside => Outside
    case Parsed(v, rest) => WithItem(v, ItemsTail(Skip(rest)))
  }

  /** What follows an item: another one after a comma, or the closing bracket. */
  function ItemsTail(s: string): (r: Parsed<Items>)
    ensures r.Parsed? ==> |r.rest| < |s|
    decreases |s|, 1
  {
    if s == "" then Failed
    else if s[0] == ',' then ParseItems(s[1..])
    else if s[0] == ']' then Parsed(NoItem, s[1..])
    else Failed
  }

  function WithItem(v: Json, r: Parsed<Items>): Parsed<Items> {
    if r.Parsed? then Parsed(Item(v, r.value), r.rest) else r
  }

  function ParseMembers(s: string): (r: Parsed<Members>)
    ensures r.Parsed? ==> |r.rest| < |s|
    decreases |s|, 1
  {
    match ParseString(Skip(s))
    case Failed => Failed
    case Outside => Outside
    case Parsed(name, rest0) =>
      var s0 := Skip(rest0);
      if s0 == "" || s0[0] != ':' then Failed
      else
        match ParseValue(Skip(s0[1..]))
        case Failed => Failed
        case Outside => Outside
        case Parsed(v, rest) => WithMember(name, v, MembersTail(Skip(rest)))
  }

  function MembersTail(s: string): (r: Parsed<Members>)
    ensures r.Parsed? ==> |r.rest| < |s|
    decreases |s|, 1
  {
    if s == "" then Failed
    else if s[0] == ',' then ParseMembers(s[1..])
    else if s[0] == '}' then Parsed(NoMember, s[1..])
    else Failed
  }

  function WithMember(name: string, v: Json, r: Parsed<Members>): Parsed<Members> {
    if r.Parsed? then Parsed(Member(name, v, r.value), r.rest) else r
  }
}
