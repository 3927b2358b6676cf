/** JSON texts by the grammar of RFC 8259, with any white space and any choice of escapes, and the trees they stand
    for. The parser of libjl777/cJSON.c reads every such text as its tree, and what the printer writes is such
    a text of the tree it was given. */
module JsonStandard {
  import opened Json
  import opened JsonRoundTrip
  import opened JsonUnicode

  // ----- the grammar -----

  /** One character of a string: itself, an escape of one letter, or a \u escape. */
  datatype Piece = Plain(c: char) | Short(letter: char, byte: nat) | Unicode(n: nat, upper: nat)

  datatype Cst =
    | CNull | CFalse | CTrue
    | CNumber(negative: bool, digits: string)
    | CString(pieces: seq<Piece>)
    | CArray(blank: string, items: CItems)
    | CObject(blank: string, members: CMembers)

  /** Every token may have white space before and after it. */
  datatype CItems = CNoItem | CItem(before: string, value: Cst, after: string, next: CItems)
  datatype CMembers =
    | CNoMember
    | CMember(before: string, name: seq<Piece>, afterName: string, beforeValue: string, value: Cst, after: string,
              next: CMembers)

  predicate Ws(w: string) { forall i | 0 <= i < |w| :: w[i] as int in {0x20, 0x09, 0x0A, 0x0D} }

  predicate ValidPiece(p: Piece) {
    match p
    case Plain(c) => c as int >= 0x20 && c as int !in {0x22, 0x5C}
    case Short(letter, byte) => ShortEscape(letter, byte)
    case Unicode(n, _) => IsScalarValue(n) && n != 0
  }

  predicate ValidPieces(ps: seq<Piece>) { forall i | 0 <= i < |ps| :: ValidPiece(ps[i]) }

  predicate IsNumeral(s: string) {
    s != "" && (forall i | 0 <= i < |s| :: '0' <= s[i] <= '9') && (|s| > 1 ==> s[0] != '0')
  }

  function Numeral(s: string): int {
    if s == "" then 0 else 10 * Numeral(s[..|s| - 1]) + (s[|s| - 1] as int - '0' as int)
  }

  predicate Valid(c: Cst) {
    match c
    case CNull | CFalse | CTrue => true
    case CNumber(_, digits) => IsNumeral(digits) && Numeral(digits) < 0x20_0000_0000_0000
    case CString(pieces) => ValidPieces(pieces)
    case CArray(blank, items) => Ws(blank) && ValidItems(items)
    case CObject(blank, members) => Ws(blank) && ValidMembers(members)
  }

  predicate ValidItems(items: CItems) {
    match items
    case CNoItem => true
    case CItem(before, value, after, next) => Ws(before) && Valid(value) && Ws(after) && ValidItems(next)
  }

  predicate ValidMembers(members: CMembers) {
    match members
    case CNoMember => true
    case CMember(before, name, afterName, beforeValue, value, after, next) =>
      && Ws(before) && ValidPieces(name) && Ws(afterName) && Ws(beforeValue) && Valid(value) && Ws(after)
      && ValidMembers(next)
  }

  // ----- what is written, in front of a rest -----

  function PieceWritten(p: Piece, rest: string): string {
    match p
    case Plain(c) => [c] + rest
    case Short(letter, _) => "\\" + ([letter] + rest)
    case Unicode(n, upper) => if IsScalarValue(n) then "\\" + ("u" + (UnicodeText(n, upper) + rest)) else rest
  }

  function PiecesWritten(ps: seq<Piece>, rest: string): string {
    if ps == [] then rest else PieceWritten(ps[0], PiecesWritten(ps[1..], rest))
  }

  function StringWritten(ps: seq<Piece>, rest: string): string { "\"" + PiecesWritten(ps, "\"" + rest) }

  function Written(c: Cst, rest: string): string {
    match c
    case CNull => "null" + rest
    case CFalse => "false" + rest
    case CTrue => "true" + rest
    case CNumber(negative, digits) => (if negative then "-" else "") + (digits + rest)
    case CString(pieces) => StringWritten(pieces, rest)
    case CArray(blank, items) =>
      if items.CNoItem? then "[" + (blank + ("]" + rest)) else "[" + ItemsWritten(items, rest)
    case CObject(blank, members) =>
      if members.CNoMember? then "{" + (blank + ("}" + rest)) else "{" + MembersWritten(members, rest)
  }

  function ItemsWritten(items: CItems, rest: string): string {
    match items
    case CNoItem => rest
    case CItem(before, value, after, next) =>
      before + Written(value, after + (if next.CNoItem? then "]" + rest else "," + ItemsWritten(next, rest)))
  }

  function MembersWritten(members: CMembers, rest: string): string {
    match members
    case CNoMember => rest
    case CMember(before, name, afterName, beforeValue, value, after, next) =>
      before + StringWritten(name, afterName + (":" + (beforeValue + Written(value, after +
        (if next.CNoMember? then "}" + rest else "," + MembersWritten(next, rest))))))
  }

  // ----- what is meant -----

  function PieceMeans(p: Piece): string {
    match p
    case Plain(c) => [c]
    case Short(_, byte) => if byte < 256 then [byte as char] else ""
    case Unicode(n, _) => if IsScalarValue(n) then Utf8(n) else ""
  }

  function PiecesMean(ps: seq<Piece>): string { if ps == [] then "" else PieceMeans(ps[0]) + PiecesMean(ps[1..]) }

  function Means(c: Cst): Json {
    match c
    case CNull => Null
    case CFalse => False
    case CTrue => True
    case CNumber(negative, digits) => Number(if negative then -Numeral(digits) else Numeral(digits))
    case CString(pieces) => String(PiecesMean(pieces))
    case CArray(_, items) => Array(ItemsMean(items))
    case CObject(_, members) => Object(MembersMean(members))
  }

  function ItemsMean(items: CItems): Items {
    match items
    case CNoItem => NoItem
    case CItem(_, value, _, next) => Item(Means(value), ItemsMean(next))
  }

  function MembersMean(members: CMembers): Members {
    match members
    case CNoMember => NoMember
    case CMember(_, name, _, _, value, _, next) => Member(PiecesMean(name), Means(value), MembersMean(next))
  }

  // ----- strings -----

  lemma PieceRead(p: Piece, rest: string)
    requires ValidPiece(p)
    ensures StringBody(PieceWritten(p, rest)) == Prepend(PieceMeans(p), StringBody(rest))
  {
    hide ParseEscape, UnicodeText, Utf8;
    var s := PieceWritten(p, rest);
    match p
    case Plain(c) =>
      assert s[1..] == rest;
    case Short(letter, byte) =>
      ShortEscapeRead(letter, byte, rest);
      assert s[1..] == [letter] + rest;
    case Unicode(n, upper) =>
      UnicodeRead(n, upper, rest);
      assert s[1..] == "u" + (UnicodeText(n, upper) + rest);
      EscapeU(UnicodeText(n, upper) + rest);
  }

  lemma EscapeU(s: string)
    ensures ParseEscape("u" + s) == ParseUnicode(s)
  {
    assert ("u" + s)[1..] == s;
  }

  lemma {:induction false} PiecesRead(ps: seq<Piece>, rest: string)
    requires ValidPieces(ps)
    ensures StringBody(PiecesWritten(ps, "\"" + rest)) == Parsed(PiecesMean(ps), rest)
  {
    hide StringBody, PieceWritten, PieceMeans;
    if ps == [] {
      QuoteEnds(rest);
    } else {
      PiecesRead(ps[1..], rest);
      PieceRead(ps[0], PiecesWritten(ps[1..], "\"" + rest));
    }
  }

  lemma QuoteEnds(rest: string)
    ensures StringBody("\"" + rest) == Parsed("", rest)
  {
    assert ("\"" + rest)[1..] == rest;
  }

  lemma StringRead(ps: seq<Piece>, rest: string)
    requires ValidPieces(ps)
    ensures ParseString(StringWritten(ps, rest)) == Parsed(PiecesMean(ps), rest)
    ensures StringWritten(ps, rest)[0] == '\"'
  {
    hide StringBody, PiecesWritten;
    PiecesRead(ps, rest);
    assert StringWritten(ps, rest)[1..] == PiecesWritten(ps, "\"" + rest);
  }

  // ----- numbers -----

  lemma {:induction false} NumeralRead(s: string, rest: string)
    requires forall i | 0 <= i < |s| :: '0' <= s[i] <= '9'
    ensures Numeral(s) >= 0 && DigitRun(s + rest, 0) == DigitRun(rest, Numeral(s))
  {
    if s == "" {
      assert s + rest == rest;
    } else {
      var k := |s| - 1;
      NumeralRead(s[..k], [s[k]] + rest);
      assert s + rest == s[..k] + ([s[k]] + rest);
      assert ([s[k]] + rest)[1..] == rest;
    }
  }

  lemma NumberRead(negative: bool, digits: string, rest: string)
    requires IsNumeral(digits) && Numeral(digits) < 0x20_0000_0000_0000 && Ends(rest)
    ensures var s := (if negative then "-" else "") + (digits + rest);
            && s != "" && (s[0] == '-' || IsDigit(s[0]))
            && ParseNumber(s) == Parsed(Number(if negative then -Numeral(digits) else Numeral(digits)), rest)
  {
    hide DigitRun, Numeral, GoesOn;
    var t := digits + rest;
    var s := (if negative then "-" else "") + t;
    assert if negative then s[0] == '-' && s[1..] == t else s == t;
    NumeralRead(digits, rest);
    EndsRun(rest, Numeral(digits));
    RunStep(t);
    if digits[0] == '0' {
      ZeroNumeral(digits);
      assert t[1..] == rest;
    }
  }

  lemma ZeroNumeral(s: string)
    requires IsNumeral(s) && s[0] == '0'
    ensures Numeral(s) == 0 && |s| == 1
  {
    assert s[..0] == "";
  }

  // ----- values -----

  lemma WsBlank(w: string)
    requires Ws(w)
    ensures Blank(w)
  { }

  lemma WrittenStart(c: Cst, rest: string)
    requires Valid(c)
    ensures Written(c, rest) != "" && Written(c, rest)[0] as int > 32 && Written(c, rest)[0] !in {']', '}'}
    ensures c.CNumber? || c.CString? || c.CArray? || c.CObject? ==> Written(c, rest)[0] !in {'n', 'f', 't'}
  {
    hide ItemsWritten, MembersWritten, PiecesWritten, Numeral;
  }

  /** White space and a closing character after a value. */
  lemma AfterValue(w: string, tail: string)
    requires Ws(w) && tail != "" && tail[0] in {',', ']', '}'}
    ensures Ends(w + tail) && Skip(w + tail) == tail
  {
    SkipBlank(w, tail);
    assert (w + tail)[0] == if w == "" then tail[0] else w[0];
  }

  lemma WordRead(c: Cst, rest: string)
    requires c in {CNull, CFalse, CTrue}
    ensures ParseValue(Written(c, rest)) == Parsed(Means(c), rest)
  {
    hide ParseItems, ParseMembers, ParseNumber, ParseString;
    var s := Written(c, rest);
    match c
    case CNull => assert s[..4] == "null" && s[4..] == rest;
    case CFalse => assert s[..5] == "false" && s[5..] == rest && "null"[0] == 'n' && s[0] == 'f';
    case CTrue => assert s[..4] == "true" && s[4..] == rest && "null"[0] == 'n' && "false"[0] == 'f' && s[0] == 't';
  }

  /** Every text of the grammar is read as the tree it stands for, and nothing after it is touched. */
  lemma {:induction false} ValueRead(c: Cst, rest: string)
    requires Valid(c) && Ends(rest)
    ensures ParseValue(Written(c, rest)) == Parsed(Means(c), rest)
    decreases c, 0
  {
    hide ParseItems, ParseMembers, ParseNumber, ParseString, Skip, ItemsWritten, MembersWritten, StringWritten, Numeral,
        StringBody;
    var s := Written(c, rest);
    match c
    case CNull | CFalse | CTrue => WordRead(c, rest);
    case CNumber(negative, digits) =>
      WrittenStart(c, rest);
      NotWord(s);
      NumberRead(negative, digits, rest);
    case CString(pieces) =>
      WrittenStart(c, rest);
      NotWord(s);
      StringRead(pieces, rest);
    case CArray(blank, items) =>
      WrittenStart(c, rest);
      NotWord(s);
      if items.CNoItem? {
        assert s[1..] == blank + ("]" + rest);
        AfterValue(blank, "]" + rest);
        assert ("]" + rest)[1..] == rest;
      } else {
        assert s[1..] == ItemsWritten(items, rest);
        ItemsRead(items, rest);
      }
    case CObject(blank, members) =>
      WrittenStart(c, rest);
      NotWord(s);
      if members.CNoMember? {
        assert s[1..] == blank + ("}" + rest);
        AfterValue(blank, "}" + rest);
        assert ("}" + rest)[1..] == rest;
      } else {
        assert s[1..] == MembersWritten(members, rest);
        MembersRead(members, rest);
      }
  }

  lemma {:induction false} ItemsRead(items: CItems, rest: string)
    requires items.CItem? && ValidItems(items)
    ensures var s := ItemsWritten(items, rest);
            && Skip(s) != "" && Skip(s)[0] != ']'
            && ParseItems(s) == Parsed(ItemsMean(items), rest) && ParseItems(Skip(s)) == ParseItems(s)
    decreases items, 1
  {
    hide ParseValue, Written, Means;
    var next := items.next;
    var tail := if next.CNoItem? then "]" + rest else "," + ItemsWritten(next, rest);
    var text := Written(items.value, items.after + tail);
    var s := ItemsWritten(items, rest);
    WrittenStart(items.value, items.after + tail);
    SkipBlank(items.before, text);
    SkipBlank("", text);
    assert "" + text == text && s == items.before + text;
    AfterValue(items.after, tail);
    ValueRead(items.value, items.after + tail);
    if next.CItem? {
      ItemsRead(next, rest);
      assert tail[1..] == ItemsWritten(next, rest);
    } else {
      assert tail[1..] == rest;
    }
    hide Skip, ItemsWritten;
  }

  lemma {:induction false} MembersRead(members: CMembers, rest: string)
    requires members.CMember? && ValidMembers(members)
    ensures var s := MembersWritten(members, rest);
            && Skip(s) != "" && Skip(s)[0] != '}'
            && ParseMembers(s) == Parsed(MembersMean(members), rest) && ParseMembers(Skip(s)) == ParseMembers(s)
    decreases members, 1
  {
    hide ParseValue, ParseString, Written, Means, StringWritten, PiecesMean;
    var next := members.next;
    var tail := if next.CNoMember? then "}" + rest else "," + MembersWritten(next, rest);
    var text := Written(members.value, members.after + tail);
    var colon := ":" + (members.beforeValue + text);
    var named := StringWritten(members.name, members.afterName + colon);
    var s := MembersWritten(members, rest);
    assert s == members.before + named;
    StringRead(members.name, members.afterName + colon);
    SkipBlank(members.before, named);
    SkipBlank("", named);
    assert "" + named == named;
    SkipBlank(members.afterName, colon);
    assert colon[1..] == members.beforeValue + text;
    WrittenStart(members.value, members.after + tail);
    SkipBlank(members.beforeValue, text);
    AfterValue(members.after, tail);
    ValueRead(members.value, members.after + tail);
    if next.CMember? {
      MembersRead(next, rest);
      assert tail[1..] == MembersWritten(next, rest);
    } else {
      assert tail[1..] == rest;
    }
    hide Skip, MembersWritten;
  }

  /** A whole text: white space, a value, white space. */
  lemma TextRead(before: string, c: Cst, after: string)
    requires Ws(before) && Valid(c) && Ws(after)
    ensures var r := ParseValue(Skip(before + Written(c, after)));
            r.Parsed? && r.value == Means(c) && Skip(r.rest) == ""
  {
    hide ParseValue, Written;
    WrittenStart(c, after);
    SkipBlank(before, Written(c, after));
    SkipBlank(after, "");
    assert after + "" == after;
    assert Ends(after) by { assert after != "" ==> after[0] as int <= 32; }
    ValueRead(c, after);
  }

  // ----- what the printer writes -----

  /** The escape that the printer chooses. */
  function PieceOf(c: char): Piece {
    if c as int > 31 && c as int !in {0x22, 0x5C} then Plain(c)
    else if c as int in {0x22, 0x5C} then Short(c, c as int)
    else if c as int == 0x08 then Short('b', 0x08)
    else if c as int == 0x0C then Short('f', 0x0C)
    else if c as int == 0x0A then Short('n', 0x0A)
    else if c as int == 0x0D then Short('r', 0x0D)
    else if c as int == 0x09 then Short('t', 0x09)
    else Unicode(c as int, 0)
  }

  function PiecesOf(s: string): seq<Piece> { if s == "" then [] else [PieceOf(s[0])] + PiecesOf(s[1..]) }

  /** The text of the grammar that the printer writes for a tree. */
  function Printed(t: Json, depth: nat, fmt: bool): Cst
    decreases t
  {
    match t
    case Null => CNull
    case False => CFalse
    case True => CTrue
    case Number(n) => CNumber(n < 0, Digits(if n < 0 then -n else n))
    case String(s) => CString(PiecesOf(s))
    case Array(items) => CArray("", PrintedItems("", items, depth + 1, fmt))
    case Object(members) =>
      CObject(When(fmt, "\n" + Tabs(depth - 1)), PrintedMembers(members, depth + 1, fmt, When(fmt, Tabs(depth))))
  }

  function PrintedItems(before: string, items: Items, depth: nat, fmt: bool): CItems
    decreases items
  {
    match items
    case NoItem => CNoItem
    case Item(value, next) =>
      CItem(before, Printed(value, depth, fmt), "", PrintedItems(When(fmt, " "), next, depth, fmt))
  }

  function PrintedMembers(members: Members, depth: nat, fmt: bool, last: string): CMembers
    decreases members
  {
    match members
    case NoMember => CNoMember
    case Member(name, value, next) =>
      CMember(When(fmt, "\n" + Tabs(depth)), PiecesOf(name), "", When(fmt, "\t"), Printed(value, depth, fmt),
              if next.NoMember? then When(fmt, "\n") + last else "", PrintedMembers(next, depth, fmt, last))
  }

  lemma HexSmall(n: nat)
    requires n < 32
    ensures UnicodeText(n, 0) == ['0', '0', HexDigit(n / 16), HexDigit(n % 16)]
  {
    assert n / 4096 == 0 && n / 256 % 16 == 0 && n / 16 % 16 == n / 16;
    hide HexDigit, HexChar;
    HexLower(0);
    HexLower(n / 16);
    HexLower(n % 16);
    ZeroDigit();
  }

  lemma HexLower(d: nat)
    requires d < 16
    ensures HexChar(d, false) == HexDigit(d)
  { }

  lemma ZeroDigit()
    ensures HexDigit(0) == '0'
  { }

  lemma PieceOfChar(c: char, rest: string)
    requires c as int > 0
    ensures ValidPiece(PieceOf(c)) && PieceMeans(PieceOf(c)) == [c]
    ensures PieceWritten(PieceOf(c), rest) == EscapeChar(c) + rest
  {
    hide UnicodeText, HexDigit;
    var n := c as int;
    if PieceOf(c).Unicode? {
      HexSmall(n);
      assert IsScalarValue(n) && Utf8(n) == [c];
      assert EscapeChar(c) + rest == "\\" + ("u" + (UnicodeText(n, 0) + rest));
    } else if PieceOf(c).Short? {
      assert EscapeChar(c) + rest == "\\" + ([PieceOf(c).letter] + rest);
    }
  }

  lemma {:induction false} StringPrinted(v: string, rest: string)
    requires NulFree(v)
    ensures ValidPieces(PiecesOf(v)) && PiecesMean(PiecesOf(v)) == v
    ensures PiecesWritten(PiecesOf(v), rest) == Escape(v) + rest
  {
    hide PieceOf, PieceMeans, PieceWritten, EscapeChar, ValidPiece;
    if v == "" {
      assert Escape(v) + rest == rest;
    } else {
      var ps := PiecesOf(v);
      assert ps[0] == PieceOf(v[0]) && ps[1..] == PiecesOf(v[1..]);
      StringPrinted(v[1..], rest);
      PieceOfChar(v[0], Escape(v[1..]) + rest);
      Concat(EscapeChar(v[0]), Escape(v[1..]), rest);
      assert [v[0]] + v[1..] == v;
    }
  }

  lemma QuotePrinted(v: string, rest: string)
    requires NulFree(v)
    ensures ValidPieces(PiecesOf(v)) && PiecesMean(PiecesOf(v)) == v
    ensures StringWritten(PiecesOf(v), rest) == Quote(v) + rest
  {
    hide PiecesOf, PiecesWritten, Escape;
    StringPrinted(v, "\"" + rest);
  }

  lemma {:induction false} DigitsNumeral(n: nat)
    ensures IsNumeral(Digits(n)) && Numeral(Digits(n)) == n
  {
    DigitsStart(n);
    if n >= 10 {
      DigitsNumeral(n / 10);
      assert Digits(n)[..|Digits(n)| - 1] == Digits(n / 10);
    } else {
      assert Digits(n)[..0] == "";
    }
    hide Numeral;
    if n == 0 {
      DigitsZero();
    } else {
      LeadingDigit(n);
    }
  }

  lemma {:induction false} LeadingDigit(n: nat)
    requires n > 0
    ensures Digits(n)[0] != '0'
  {
    DigitsStart(n);
  }

  lemma {:induction false} WhenWs(fmt: bool, n: int)
    ensures Ws(When(fmt, Tabs(n))) && Ws(When(fmt, "\n" + Tabs(n))) && Ws(When(fmt, "\n")) && Ws(When(fmt, "\t"))
    ensures Ws(When(fmt, " ")) && Ws("")
  {
    TabsWs(n);
  }

  lemma {:induction false} TabsWs(n: int)
    ensures Ws(Tabs(n))
    decreases n
  {
    if n > 0 {
      TabsWs(n - 1);
    }
  }

  lemma {:induction false} PrintedText(t: Json, depth: nat, fmt: bool, rest: string)
    requires Printable(t)
    ensures Valid(Printed(t, depth, fmt)) && Means(Printed(t, depth, fmt)) == t
    ensures Written(Printed(t, depth, fmt), rest) == Text(t, depth, fmt) + rest
    decreases t, 1
  {
    hide Digits, Numeral, PiecesOf, StringWritten, Quote, PiecesMean, Tabs;
    WhenWs(fmt, depth);
    WhenWs(fmt, depth - 1);
    match t
    case Null =>
    case False =>
    case True =>
    case Number(n) =>
      DigitsNumeral(if n < 0 then -n else n);
      assert n < 0 ==> "-" + Digits(-n) + rest == "-" + (Digits(-n) + rest);
      assert n >= 0 ==> "" + (Digits(n) + rest) == Digits(n) + rest;
    case String(v) =>
      QuotePrinted(v, rest);
    case Array(items) =>
      ArrayPrinted(items, depth, fmt, rest);
    case Object(members) =>
      ObjectPrinted(members, depth, fmt, rest);
  }

  lemma {:induction false} ArrayPrinted(items: Items, depth: nat, fmt: bool, rest: string)
    requires PrintableItems(items)
    ensures var c := Printed(Array(items), depth, fmt);
            Valid(c) && Means(c) == Array(items) && Written(c, rest) == Text(Array(items), depth, fmt) + rest
    decreases items, 3
  {
    hide ItemsWritten, ItemsText, PrintedItems, ItemsMean, ValidItems;
    if items.NoItem? {
      NoItemsPrinted(depth, fmt);
      assert "[" + ("" + ("]" + rest)) == "[]" + rest;
    } else {
      ItemsPrinted("", items, depth + 1, fmt, rest);
      var m := ItemsText(items, depth + 1, fmt);
      assert "[" + ("" + (m + ("]" + rest))) == ("[" + m + "]") + rest;
    }
  }

  lemma NoItemsPrinted(depth: nat, fmt: bool)
    ensures PrintedItems("", NoItem, depth + 1, fmt) == CNoItem && ValidItems(CNoItem) && ItemsMean(CNoItem) == NoItem
  { }

  lemma {:induction false} ItemsPrinted(before: string, items: Items, depth: nat, fmt: bool, rest: string)
    requires items.Item? && PrintableItems(items) && Ws(before)
    ensures var p := PrintedItems(before, items, depth, fmt);
            && p.CItem? && ValidItems(p) && ItemsMean(p) == items
            && ItemsWritten(p, rest) == before + (ItemsText(items, depth, fmt) + ("]" + rest))
    decreases items, 2
  {
    hide Written, Text, Printed, Valid, Means;
    var value, next := items.value, items.next;
    var p, v, w := PrintedItems(before, items, depth, fmt), Text(value, depth, fmt), When(fmt, " ");
    WhenWs(fmt, 0);
    if next.NoItem? {
      PrintedText(value, depth, fmt, "]" + rest);
      assert "" + ("]" + rest) == "]" + rest;
    } else {
      ItemsPrinted(w, next, depth, fmt, rest);
      var m := ItemsText(next, depth, fmt);
      var tail := "," + (w + (m + ("]" + rest)));
      assert "" + tail == tail;
      PrintedText(value, depth, fmt, tail);
      assert (v + ("," + (w + m))) + ("]" + rest) == v + tail;
    }
  }

  lemma {:induction false} ObjectPrinted(members: Members, depth: nat, fmt: bool, rest: string)
    requires PrintableMembers(members)
    ensures var c := Printed(Object(members), depth, fmt);
            Valid(c) && Means(c) == Object(members) && Written(c, rest) == Text(Object(members), depth, fmt) + rest
    decreases members, 3
  {
    hide MembersWritten, MembersText, PrintedMembers, MembersMean, ValidMembers, Tabs;
    WhenWs(fmt, depth);
    WhenWs(fmt, depth - 1);
    var last := When(fmt, Tabs(depth));
    if members.NoMember? {
      NoMembersPrinted(depth, fmt, last);
      var w := When(fmt, "\n" + Tabs(depth - 1));
      assert "{" + (w + ("}" + rest)) == ("{" + w + "}") + rest;
    } else {
      MembersPrinted(members, depth + 1, fmt, last, rest);
      var m, w := MembersText(members, depth + 1, fmt), When(fmt, "\n");
      assert "{" + (w + (m + (last + ("}" + rest)))) == ("{" + w + m + last + "}") + rest;
    }
  }

  lemma NoMembersPrinted(depth: nat, fmt: bool, last: string)
    ensures PrintedMembers(NoMember, depth + 1, fmt, last) == CNoMember && ValidMembers(CNoMember)
    ensures MembersMean(CNoMember) == NoMember
  { }

  lemma {:induction false} MembersPrinted(members: Members, depth: nat, fmt: bool, last: string, rest: string)
    requires members.Member? && PrintableMembers(members) && Ws(last)
    ensures var p := PrintedMembers(members, depth, fmt, last);
            && p.CMember? && ValidMembers(p) && MembersMean(p) == members
            && MembersWritten(p, rest) == When(fmt, "\n") + (MembersText(members, depth, fmt) + (last + ("}" + rest)))
    decreases members, 2
  {
    hide Written, Text, Printed, Valid, Means, PiecesOf, PiecesMean, StringWritten, Quote, Tabs;
    var name, value, next := members.name, members.value, members.next;
    var after := AfterMember(next, depth, fmt, last, rest);
    WhenWs(fmt, depth);
    PrintedText(value, depth, fmt, after);
    QuotePrinted(name, ":" + (When(fmt, "\t") + (Text(value, depth, fmt) + after)));
    if next.Member? {
      MembersPrinted(next, depth, fmt, last, rest);
    }
    MemberWritten(members, depth, fmt, last, rest);
  }

  lemma MemberWritten(members: Members, depth: nat, fmt: bool, last: string, rest: string)
    requires members.Member? && Ws(last)
    requires var after := AfterMember(members.next, depth, fmt, last, rest);
             && Written(Printed(members.value, depth, fmt), after) == Text(members.value, depth, fmt) + after
             && var colon := ":" + (When(fmt, "\t") + (Text(members.value, depth, fmt) + after));
                StringWritten(PiecesOf(members.name), colon) == Quote(members.name) + colon
    requires members.next.Member? ==>
               MembersWritten(PrintedMembers(members.next, depth, fmt, last), rest) ==
               When(fmt, "\n") + (MembersText(members.next, depth, fmt) + (last + ("}" + rest)))
    ensures MembersWritten(PrintedMembers(members, depth, fmt, last), rest) ==
            When(fmt, "\n") + (MembersText(members, depth, fmt) + (last + ("}" + rest)))
  {
    hide Written, Text, Printed, PiecesOf, StringWritten, Quote, Tabs;
    var value, next := members.value, members.next;
    var nl, t, tab, sep := When(fmt, "\n"), When(fmt, Tabs(depth)), When(fmt, "\t"), if next.NoMember? then "" else ",";
    var after := AfterMember(next, depth, fmt, last, rest);
    var v := Text(value, depth, fmt);
    var colon := ":" + (tab + (v + after));
    var p := PrintedMembers(members, depth, fmt, last);
    var tail := if p.next.CNoMember? then "}" + rest else "," + MembersWritten(p.next, rest);
    assert p.next == PrintedMembers(next, depth, fmt, last) && (p.next.CNoMember? <==> next.NoMember?);
    if next.NoMember? {
      var m := MembersText(next, depth, fmt);
      assert m == "" && p.after == nl + last && after == sep + (nl + (m + (last + ("}" + rest))));
      assert (nl + last) + ("}" + rest) == sep + (nl + (m + (last + ("}" + rest))));
    } else {
      assert p.after == "" && tail == after && "" + tail == tail;
    }
    assert p.after + tail == after;
    assert "" + colon == colon;
    assert p.before == nl + t by { assert !fmt ==> nl + t == ""; }
    assert MembersWritten(p, rest) == (nl + t) + (Quote(members.name) + colon);
    Reassociate(nl, t, Quote(members.name), tab, v, sep, nl, MembersText(next, depth, fmt), last + ("}" + rest));
  }

  /** What the printer writes is a text of the grammar for the tree it was given. */
  lemma PrintsStandard(t: Json, fmt: bool)
    requires Printable(t)
    ensures exists c: Cst :: Valid(c) && Means(c) == t && Written(c, "") == Text(t, 0, fmt)
  {
    hide Printed, Valid, Means, Written, Text;
    PrintedText(t, 0, fmt, "");
    assert Text(t, 0, fmt) + "" == Text(t, 0, fmt);
  }
}
