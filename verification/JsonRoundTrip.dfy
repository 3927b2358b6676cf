/** Parsing what was printed, in either format, gives back the tree and stops at the end of the text. */
module JsonRoundTrip {
  import opened Json

  // ----- the printable domain -----

  predicate NulFree(s: string) { forall i | 0 <= i < |s| :: s[i] as int > 0 }

  predicate Printable(t: Json) {
    match t
    case Number(n) => -EXACT < n < EXACT
    case String(s) => NulFree(s)
    case Array(items) => PrintableItems(items)
    case Object(members) => PrintableMembers(members)
    case _ => true
  }

  predicate PrintableItems(items: Items) {
    match items
    case NoItem => true
    case Item(value, next) => Printable(value) && PrintableItems(next)
  }

  predicate PrintableMembers(members: Members) {
    match members
    case NoMember => true
    case Member(name, value, next) => NulFree(name) && Printable(value) && PrintableMembers(next)
  }

  // ----- white space -----

  predicate Blank(w: string) { forall i | 0 <= i < |w| :: w[i] as int <= 32 }

  lemma {:induction false} SkipBlank(w: string, s: string)
    requires Blank(w) && (s == "" || s[0] as int > 32)
    ensures Skip(w + s) == s
  {
    if w != "" {
      assert (w + s)[1..] == w[1..] + s;
      SkipBlank(w[1..], s);
    } else {
      assert w + s == s;
    }
  }

  lemma {:induction false} TabsBlank(n: int)
    ensures Blank(Tabs(n))
    decreases n
  {
    if n > 0 {
      TabsBlank(n - 1);
    }
  }

  // ----- numbers -----

  lemma {:induction false} DigitsRead(n: nat, rest: string)
    ensures DigitRun(Digits(n) + rest, 0) == DigitRun(rest, n)
  {
    var d := Digit(n % 10);
    if n < 10 {
      assert ([d] + rest)[1..] == rest;
    } else {
      DigitsRead(n / 10, [d] + rest);
      assert Digits(n) + rest == Digits(n / 10) + ([d] + rest);
      assert ([d] + rest)[1..] == rest;
    }
  }

  lemma {:induction false} DigitsStart(n: nat)
    ensures IsDigit(Digits(n)[0]) && (n > 0 ==> Digits(n)[0] != '0')
    ensures forall i | 0 <= i < |Digits(n)| :: IsDigit(Digits(n)[i])
  {
    if n >= 10 {
      DigitsStart(n / 10);
    }
  }

  /** A printed number may be followed by anything that does not continue a number. */
  predicate Ends(rest: string) { rest == "" || !(IsDigit(rest[0]) || rest[0] in {'.', 'e', 'E'}) }

  lemma DecimalStart(n: int, rest: string)
    ensures Decimal(n) != "" && (Decimal(n)[0] == '-' || IsDigit(Decimal(n)[0]))
  {
    DigitsStart(if n < 0 then -n else n);
  }

  lemma NaturalRoundTrip(n: nat, rest: string)
    requires Ends(rest)
    ensures var s := Digits(n) + rest;
            if n == 0 then s[0] == '0' && s[1..] == rest
            else '1' <= s[0] <= '9' && DigitRun(s[1..], s[0] as int - '0' as int) == (n, rest)
  {
    hide DigitRun, Digits;
    var s := Digits(n) + rest;
    DigitsStart(n);
    DigitsRead(n, rest);
    EndsRun(rest, n);
    if n == 0 {
      DigitsZero();
      assert s[1..] == rest;
    } else {
      RunStep(s);
    }
  }

  lemma DigitsZero()
    ensures Digits(0) == "0"
  { }

  lemma RunStep(s: string)
    requires s != "" && IsDigit(s[0])
    ensures DigitRun(s, 0) == DigitRun(s[1..], s[0] as int - '0' as int)
  { }

  lemma NumberRoundTrip(n: int, rest: string)
    requires -EXACT < n < EXACT && Ends(rest)
    ensures Decimal(n) != "" && (Decimal(n)[0] == '-' || IsDigit(Decimal(n)[0]))
    ensures ParseNumber(Decimal(n) + rest) == Parsed(Number(n), rest)
  {
    hide DigitRun, Digits, GoesOn;
    var m: nat := if n < 0 then -n else n;
    var s := Decimal(n) + rest;
    DecimalStart(n, rest);
    NaturalRoundTrip(m, rest);
    EndsRun(rest, m);
    if n < 0 {
      assert s[0] == '-' && s[1..] == Digits(m) + rest;
    }
  }

  lemma EndsRun(rest: string, n: nat)
    requires Ends(rest)
    ensures DigitRun(rest, n) == (n, rest) && !GoesOn(rest)
  { }

  lemma NotWord(s: string)
    requires s != "" && s[0] !in {'n', 'f', 't'}
    ensures !Starts(s, "null") && !Starts(s, "false") && !Starts(s, "true")
  {
    assert "null"[0] == 'n' && "false"[0] == 'f' && "true"[0] == 't';
  }

  // ----- strings -----

  lemma HexRead(d: nat)
    requires d < 16
    ensures HexValue(HexDigit(d)) == d
  { }

  /** An escaped byte is read back as that byte. */
  lemma EscapeRead(c: char, rest: string)
    requires 0 < c as int
    ensures StringBody(EscapeChar(c) + rest) == Prepend([c], StringBody(rest))
  {
    var e := EscapeChar(c);
    var s := e + rest;
    hide StringBody;
    if |e| == 1 {
      StringPlain(c, rest);
    } else {
      assert ParseEscape(s[1..]) == Parsed([c], rest) by {
        if |e| == 2 {
          assert s[1..] == [e[1]] + rest;
        } else {
          ControlRead(c, rest);
        }
      }
      StringEscape(s, c, rest);
    }
  }

  lemma StringPlain(c: char, rest: string)
    requires c != QUOTE && c != BACKSLASH
    ensures StringBody([c] + rest) == Prepend([c], StringBody(rest))
  {
    assert ([c] + rest)[1..] == rest;
  }

  lemma StringEscape(s: string, c: char, rest: string)
    requires s != "" && s[0] == BACKSLASH && ParseEscape(s[1..]) == Parsed([c], rest)
    ensures StringBody(s) == Prepend([c], StringBody(rest))
  { }

  lemma ControlRead(c: char, rest: string)
    requires 0 < c as int < 32 && |EscapeChar(c)| == 6
    ensures ParseEscape((EscapeChar(c) + rest)[1..]) == Parsed([c], rest)
  {
    var hi, lo := c as int / 16, c as int % 16;
    var h := ['0', '0', HexDigit(hi), HexDigit(lo)];
    var s := h + rest;
    HexRead(hi);
    HexRead(lo);
    assert (EscapeChar(c) + rest)[1..] == ['u'] + s;
    assert (['u'] + s)[1..] == s;
    assert s[0] == '0' && s[1] == '0' && s[2] == HexDigit(hi) && s[3] == HexDigit(lo);
    hide HexDigit, EscapeChar;
    assert HexValue('0') == 0;
    assert IsHex4(s) && Hex4(s) == c as int;
    assert s[4..] == rest;
    assert ParseUnicode(s) == Parsed([c], rest);
  }

  lemma {:induction false} EscapedRoundTrip(v: string, rest: string)
    requires NulFree(v)
    ensures StringBody(Escape(v) + ([QUOTE] + rest)) == Parsed(v, rest)
  {
    hide EscapeChar;
    if v == "" {
      assert Escape(v) + ([QUOTE] + rest) == [QUOTE] + rest;
      assert ([QUOTE] + rest)[1..] == rest;
    } else {
      EscapedRoundTrip(v[1..], rest);
      var tail := Escape(v[1..]) + ([QUOTE] + rest);
      assert Escape(v) + ([QUOTE] + rest) == EscapeChar(v[0]) + tail;
      EscapeRead(v[0], tail);
      hide StringBody;
      assert [v[0]] + v[1..] == v;
    }
  }

  lemma StringRoundTrip(v: string, rest: string)
    requires NulFree(v)
    ensures ParseString(Quote(v) + rest) == Parsed(v, rest)
  {
    hide StringBody, Escape;
    EscapedRoundTrip(v, rest);
    assert (Quote(v) + rest)[1..] == Escape(v) + ([QUOTE] + rest);
  }

  // ----- trees -----

  /** No text starts with white space or a closing bracket. */
  lemma TextStart(t: Json, depth: nat, fmt: bool)
    ensures Text(t, depth, fmt) != "" && Text(t, depth, fmt)[0] as int > 32
    ensures Text(t, depth, fmt)[0] !in {']', '}'}
    ensures t.Number? || t.String? || t.Array? || t.Object? ==> Text(t, depth, fmt)[0] !in {'n', 'f', 't'}
  {
    hide ItemsText, MembersText, Tabs;
    if t.Number? {
      DigitsStart(if t.n < 0 then -t.n else t.n);
      hide Digits;
    }
  }

  lemma ScalarRoundTrip(t: Json, depth: nat, fmt: bool, rest: string)
    requires !t.Array? && !t.Object? && Printable(t) && Ends(rest)
    ensures ParseValue(Text(t, depth, fmt) + rest) == Parsed(t, rest)
  {
    var s := Text(t, depth, fmt) + rest;
    TextStart(t, depth, fmt);
    match t
    case Number(n) =>
      NotWord(s);
      NumberRoundTrip(n, rest);
      hide Decimal, ParseNumber, ParseItems, ParseMembers;
    case String(v) =>
      NotWord(s);
      StringRoundTrip(v, rest);
      hide ParseString, ParseItems, ParseMembers;
    case Null =>
      hide ParseItems, ParseMembers;
      assert s[..4] == "null" && s[4..] == rest;
    case False =>
      hide ParseItems, ParseMembers;
      assert s[..5] == "false" && s[5..] == rest && "null"[0] == 'n' && s[0] == 'f';
    case True =>
      hide ParseItems, ParseMembers;
      assert s[..4] == "true" && s[4..] == rest && "null"[0] == 'n' && "false"[0] == 'f' && s[0] == 't';
  }

  lemma {:induction false} RoundTrip(t: Json, depth: nat, fmt: bool, rest: string)
    requires Printable(t) && Ends(rest)
    ensures ParseValue(Text(t, depth, fmt) + rest) == Parsed(t, rest)
    decreases t, 1
  {
    hide ParseValue, Text, ParseItems, ParseMembers, ItemsText, MembersText;
    match t
    case Array(items) =>
      if items.NoItem? {
        EmptyArray(depth, fmt, rest);
      } else {
        ItemsRoundTrip("", items, depth + 1, fmt, rest);
        ArrayRead(items, depth, fmt, rest);
      }
    case Object(members) =>
      TabsBlank(depth);
      if members.NoMember? {
        EmptyObject(depth, fmt, rest);
      } else {
        MembersRoundTrip(When(fmt, "\n"), members, depth + 1, fmt, When(fmt, Tabs(depth)), rest);
        ObjectRead(members, depth, fmt, rest);
      }
    case _ =>
      ScalarRoundTrip(t, depth, fmt, rest);
  }

  lemma EmptyArray(depth: nat, fmt: bool, rest: string)
    ensures ParseValue(Text(Array(NoItem), depth, fmt) + rest) == Parsed(Array(NoItem), rest)
  {
    var s := "[]" + rest;
    NotWord(s);
    assert s[1..] == "]" + rest;
    hide ParseItems, ParseMembers;
  }

  lemma EmptyObject(depth: nat, fmt: bool, rest: string)
    ensures ParseValue(Text(Object(NoMember), depth, fmt) + rest) == Parsed(Object(NoMember), rest)
  {
    hide Skip, ParseItems, ParseMembers, ParseNumber, ParseString, Tabs;
    var w := When(fmt, "\n" + Tabs(depth - 1));
    var s := "{" + (w + ("}" + rest));
    TabsBlank(depth - 1);
    assert Text(Object(NoMember), depth, fmt) + rest == s;
    NotWord(s);
    assert s[1..] == w + ("}" + rest);
    SkipBlank(w, "}" + rest);
    assert ("}" + rest)[1..] == rest;
  }

  lemma ArrayRead(items: Items, depth: nat, fmt: bool, rest: string)
    requires items.Item? && ParseItems("" + (ItemsText(items, depth + 1, fmt) + ("]" + rest))) == Parsed(items, rest)
    ensures ParseValue(Text(Array(items), depth, fmt) + rest) == Parsed(Array(items), rest)
  {
    hide ParseItems, ParseMembers, Skip;
    var s := Text(Array(items), depth, fmt) + rest;
    var body := ItemsText(items, depth + 1, fmt) + ("]" + rest);
    TextStart(items.value, depth + 1, fmt);
    assert body[0] == Text(items.value, depth + 1, fmt)[0];
    assert s == "[" + body;
    hide Text, ItemsText;
    NotWord(s);
    assert s[1..] == body && "" + body == body;
    SkipBlank("", body);
  }

  lemma ObjectRead(members: Members, depth: nat, fmt: bool, rest: string)
    requires members.Member?
    requires ParseMembers(When(fmt, "\n") + (MembersText(members, depth + 1, fmt)
                                             + (When(fmt, Tabs(depth)) + ("}" + rest)))) == Parsed(members, rest)
    ensures ParseValue(Text(Object(members), depth, fmt) + rest) == Parsed(Object(members), rest)
  {
    hide ParseMembers, ParseValue, Text, MembersText, Tabs, Skip;
    var tail := When(fmt, Tabs(depth)) + ("}" + rest);
    var body := When(fmt, "\n") + (MembersText(members, depth + 1, fmt) + tail);
    MemberStart(members, depth + 1, fmt, When(fmt, "\n"), tail);
    ObjectText(members, depth, fmt, rest);
    ObjectOpens(body, members, rest);
  }

  lemma ObjectText(members: Members, depth: nat, fmt: bool, rest: string)
    requires members.Member?
    ensures Text(Object(members), depth, fmt) + rest ==
            "{" + (When(fmt, "\n") + (MembersText(members, depth + 1, fmt) + (When(fmt, Tabs(depth)) + ("}" + rest))))
  {
    hide MembersText, Tabs, When;
    Surround("{", When(fmt, "\n"), MembersText(members, depth + 1, fmt), When(fmt, Tabs(depth)), "}", rest);
  }

  lemma Surround(a: string, b: string, c: string, d: string, e: string, rest: string)
    ensures a + b + c + d + e + rest == a + (b + (c + (d + (e + rest))))
  {
    Concat(a + b + c + d, e, rest);
    Concat(a + b + c, d, e + rest);
    Concat(a + b, c, d + (e + rest));
    Concat(a, b, c + (d + (e + rest)));
  }

  lemma ObjectOpens(body: string, members: Members, rest: string)
    requires ParseMembers(body) == Parsed(members, rest) && Skip(body) != "" && Skip(body)[0] == QUOTE
    ensures ParseValue("{" + body) == Parsed(Object(members), rest)
  {
    hide Skip, ParseItems;
    NotWord("{" + body);
    assert ("{" + body)[1..] == body;
    SkippedMembers(body);
    hide ParseMembers;
  }

  /** The first member starts with a quote after white space. */
  lemma MemberStart(members: Members, depth: nat, fmt: bool, w: string, tail: string)
    requires members.Member? && Blank(w)
    ensures var s := Skip(w + (MembersText(members, depth, fmt) + tail)); s != "" && s[0] == QUOTE
  {
    var t := When(fmt, Tabs(depth));
    var s := MembersText(members, depth, fmt) + tail;
    TabsBlank(depth);
    hide Text, Tabs;
    assert s == t + s[|t|..] && s[|t|] == QUOTE;
    assert w + s == (w + t) + s[|t|..];
    SkipBlank(w + t, s[|t|..]);
  }

  lemma SkippedMembers(s: string)
    ensures ParseMembers(Skip(s)) == ParseMembers(s)
  {
    SkipBlank("", Skip(s));
    assert "" + Skip(s) == Skip(s);
    hide ParseString, ParseValue, Skip;
  }

  lemma {:induction false} ItemsRoundTrip(w: string, items: Items, depth: nat, fmt: bool, rest: string)
    requires Blank(w) && items.Item? && PrintableItems(items)
    ensures ParseItems(w + (ItemsText(items, depth, fmt) + ("]" + rest))) == Parsed(items, rest)
    decreases items, 0
  {
    hide ParseValue, Skip, Text;
    var value, next := items.value, items.next;
    var text := Text(value, depth, fmt);
    var tail := if next.NoItem? then "]" + rest
                else "," + (When(fmt, " ") + (ItemsText(next, depth, fmt) + ("]" + rest)));
    assert ItemsText(items, depth, fmt) + ("]" + rest) == text + tail by {
      if next.Item? {
        Concat(text, "," + (When(fmt, " ") + ItemsText(next, depth, fmt)), "]" + rest);
        Concat(",", When(fmt, " ") + ItemsText(next, depth, fmt), "]" + rest);
        Concat(When(fmt, " "), ItemsText(next, depth, fmt), "]" + rest);
      }
    }
    TextStart(value, depth, fmt);
    SkipBlank(w, text + tail);
    RoundTrip(value, depth, fmt, tail);
    SkipBlank("", tail);
    assert "" + tail == tail;
    if next.Item? {
      ItemsRoundTrip(When(fmt, " "), next, depth, fmt, rest);
      assert tail[1..] == When(fmt, " ") + (ItemsText(next, depth, fmt) + ("]" + rest));
    } else {
      assert tail[1..] == rest;
    }
  }

  /** What follows the value of a member, up to the end of the object. */
  function AfterMember(next: Members, depth: nat, fmt: bool, e: string, rest: string): string {
    (if next.NoMember? then "" else ",") + (When(fmt, "\n") + (MembersText(next, depth, fmt) + (e + ("}" + rest))))
  }

  lemma {:induction false} MembersRoundTrip(w: string, members: Members, depth: nat, fmt: bool, e: string, rest: string)
    requires Blank(w) && Blank(e) && members.Member? && PrintableMembers(members)
    ensures ParseMembers(w + (MembersText(members, depth, fmt) + (e + ("}" + rest)))) == Parsed(members, rest)
    decreases members, 0
  {
    var name, value, next := members.name, members.value, members.next;
    var after := AfterMember(next, depth, fmt, e, rest);
    var s := w + (MembersText(members, depth, fmt) + (e + ("}" + rest)));
    AfterStart(next, depth, fmt, e, rest);
    RoundTrip(value, depth, fmt, after);
    if next.Member? {
      MembersRoundTrip(When(fmt, "\n"), next, depth, fmt, e, rest);
    }
    MemberRead(w, members, depth, fmt, e, rest);
    hide ParseValue, Text, MembersText, Skip;
    var s1 := Skip(after);
    if next.Member? {
      assert s1[1..] == When(fmt, "\n") + (MembersText(next, depth, fmt) + (e + ("}" + rest)));
    } else {
      assert s1[1..] == rest;
    }
  }

  lemma AfterStart(next: Members, depth: nat, fmt: bool, e: string, rest: string)
    requires Blank(e)
    ensures var after := AfterMember(next, depth, fmt, e, rest); Ends(after)
    ensures Skip(AfterMember(next, depth, fmt, e, rest)) == if next.NoMember? then "}" + rest
            else AfterMember(next, depth, fmt, e, rest)
  {
    var after := AfterMember(next, depth, fmt, e, rest);
    if next.NoMember? {
      var w := When(fmt, "\n") + e;
      assert after == w + ("}" + rest);
      SkipBlank(w, "}" + rest);
      assert w != "" ==> after[0] == w[0];
    } else {
      hide MembersText;
      SkipBlank("", after);
      assert "" + after == after;
    }
  }

  lemma Concat(a: string, b: string, c: string)
    ensures (a + b) + c == a + (b + c)
  { }

  lemma Reassociate(w: string, t: string, q: string, tab: string, v: string, sep: string, nl: string, m: string,
                    tail: string)
    ensures w + ((t + (q + (":" + (tab + (v + (sep + (nl + m))))))) + tail) ==
            (w + t) + (q + (":" + (tab + (v + (sep + (nl + (m + tail)))))))
  {
    Concat(nl, m, tail);
    Concat(sep, nl + m, tail);
    Concat(v, sep + (nl + m), tail);
    Concat(tab, v + (sep + (nl + m)), tail);
    Concat(":", tab + (v + (sep + (nl + m))), tail);
    Concat(q, ":" + (tab + (v + (sep + (nl + m)))), tail);
    Concat(t, q + (":" + (tab + (v + (sep + (nl + m))))), tail);
    Concat(w, t, q + (":" + (tab + (v + (sep + (nl + (m + tail)))))));
  }

  /** One round of the member loop, up to the character after the value. */
  lemma MemberRead(w: string, members: Members, depth: nat, fmt: bool, e: string, rest: string)
    requires Blank(w) && members.Member? && NulFree(members.name)
    ensures var s := w + (MembersText(members, depth, fmt) + (e + ("}" + rest)));
            var after := Text(members.value, depth, fmt) + AfterMember(members.next, depth, fmt, e, rest);
            exists rest0 ::
              && ParseString(Skip(s)) == Parsed(members.name, rest0)
              && Skip(rest0) != "" && Skip(rest0)[0] == ':' && Skip(Skip(rest0)[1..]) == after
  {
    var name, value, next := members.name, members.value, members.next;
    var t := When(fmt, Tabs(depth));
    var s := w + (MembersText(members, depth, fmt) + (e + ("}" + rest)));
    var after := Text(value, depth, fmt) + AfterMember(next, depth, fmt, e, rest);
    var colon := ":" + (When(fmt, "\t") + after);
    TabsBlank(depth);
    assert s == (w + t) + (Quote(name) + colon) by {
      Reassociate(w, t, Quote(name), When(fmt, "\t"), Text(value, depth, fmt), if next.NoMember? then "" else ",",
                  When(fmt, "\n"), MembersText(next, depth, fmt), e + ("}" + rest));
    }
    hide Quote, MembersText, AfterMember, Tabs;
    SkipBlank(w + t, Quote(name) + colon);
    StringRoundTrip(name, colon);
    hide ParseString;
    SkipBlank("", colon);
    assert "" + colon == colon;
    assert colon[1..] == When(fmt, "\t") + after;
    TextStart(value, depth, fmt);
    SkipBlank(When(fmt, "\t"), after);
  }
}
