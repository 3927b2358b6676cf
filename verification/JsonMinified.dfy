/** Minifying text that the parser accepts: the minified text parses to the same tree. The minifier fails on
    accepted text only if that is a single string literal without its closing quote. */
module JsonMinified {
  import opened Json
  import opened JsonRoundTrip
  import opened JsonMinify
  import opened JsonAccepted

  // ----- white space -----

  /** A character that neither opens a literal nor a comment. */
  predicate Token(s: string) { s != "" && s[0] as int > 32 && s[0] != '/' && s[0] != QUOTE }

  lemma TokenMinified(s: string)
    requires Token(s) && Minify(s[1..]).Kept?
    ensures Minify(s).Kept? && Minify(s).text != "" && Minify(s).text[0] == s[0]
    ensures Minify(s).text[1..] == Minify(s[1..]).text
  { }

  /** White space may go before anything but a comment. */
  lemma {:induction false} SkipMinified(s: string)
    requires Skip(s) == "" || Skip(s)[0] != '/'
    ensures Minify(s).Kept? <==> Minify(Skip(s)).Kept?
    ensures Minify(s).Kept? ==> Skip(Minify(s).text) == Minify(Skip(s)).text
  {
    if s != "" && s[0] as int <= 32 {
      SkipMinified(s[1..]);
    } else if s != "" && s[0] == QUOTE {
      hide LiteralLength;
    }
  }

  /** What may follow a value. */
  predicate Follows(s: string) { Skip(s) == "" || Skip(s)[0] in {',', ']', '}'} }

  predicate Stops(s: string) { s == "" || s[0] as int <= 32 || s[0] in {',', ']', '}'} }

  lemma {:induction false} FollowsMinified(s: string)
    requires Follows(s) && Minify(s).Kept?
    ensures Stops(s) && Stops(Minify(s).text)
  {
    if s != "" && IsSpace(s[0]) {
      FollowsMinified(s[1..]);
    }
  }

  // ----- words and numbers -----

  lemma WordMinified(s: string, w: string)
    requires Starts(s, w) && Minify(s[|w|..]).Kept? && forall i | 0 <= i < |w| :: Plain(w[i])
    ensures Minify(s).Kept? && Starts(Minify(s).text, w) && Minify(s).text[|w|..] == Minify(s[|w|..]).text
  {
    hide Minify;
    assert w + s[|w|..] == s;
    MinifyPlain(w, s[|w|..]);
  }

  lemma {:induction false} RunMinified(s: string, n: nat)
    requires Minify(DigitRun(s, n).1).Kept? && Follows(DigitRun(s, n).1)
    ensures Minify(s).Kept?
    ensures DigitRun(Minify(s).text, n) == (DigitRun(s, n).0, Minify(DigitRun(s, n).1).text)
    decreases |s|
  {
    hide Minify, Skip, Follows;
    if s != "" && IsDigit(s[0]) {
      RunMinified(s[1..], 10 * n + (s[0] as int - '0' as int));
      TokenMinified(s);
    } else {
      FollowsMinified(s);
    }
  }

  /** The number behind its sign. */
  function Natural(s: string): (nat, string) {
    var s2 := if s != "" && s[0] == '0' then s[1..] else s;
    if s2 != "" && '1' <= s2[0] <= '9' then DigitRun(s2[1..], s2[0] as int - '0' as int) else (0, s2)
  }

  lemma NaturalMinified(s: string)
    requires Minify(Natural(s).1).Kept? && Follows(Natural(s).1)
    ensures Minify(s).Kept? && Natural(Minify(s).text) == (Natural(s).0, Minify(Natural(s).1).text)
  {
    hide Minify, Skip, Follows, DigitRun;
    var s2 := if s != "" && s[0] == '0' then s[1..] else s;
    if s2 != "" && '1' <= s2[0] <= '9' {
      RunMinified(s2[1..], s2[0] as int - '0' as int);
      TokenMinified(s2);
    } else {
      FollowsMinified(s2);
    }
    if s != "" && s[0] == '0' {
      TokenMinified(s);
    }
  }

  lemma NumberMinified(s: string)
    requires s != "" && (s[0] == '-' || IsDigit(s[0])) && ParseNumber(s).Parsed?
    requires Minify(ParseNumber(s).rest).Kept? && Follows(ParseNumber(s).rest)
    ensures Minify(s).Kept? && Minify(s).text != "" && Minify(s).text[0] == s[0]
    ensures ParseNumber(Minify(s).text) == Parsed(ParseNumber(s).value, Minify(ParseNumber(s).rest).text)
  {
    hide Minify, Skip, Follows, ParseNumber, Natural;
    ByNatural(s);
    FollowsMinified(ParseNumber(s).rest);
    if s[0] == '-' {
      NaturalMinified(s[1..]);
      TokenMinified(s);
    } else {
      NaturalMinified(s);
      NumberHead(s);
    }
    ByNatural(Minify(s).text);
  }

  lemma ByNatural(s: string)
    requires s != "" && (s[0] == '-' || IsDigit(s[0]))
    ensures var (n, rest) := Natural(if s[0] == '-' then s[1..] else s);
            ParseNumber(s) == if GoesOn(rest) || n >= EXACT then Outside
                              else Parsed(Number(if s[0] == '-' then -(n as int) else n as int), rest)
  { }

  lemma NumberHead(s: string)
    requires s != "" && IsDigit(s[0]) && Minify(s).Kept?
    ensures Minify(s).text != "" && Minify(s).text[0] == s[0]
  { }

  // ----- string literals -----

  lemma HexLiteral(s: string)
    requires IsHex4(s)
    ensures LiteralLength(s) == if LiteralLength(s[4..]) == 0 then 0 else 4 + LiteralLength(s[4..])
  {
    PlainStep(s);
    PlainStep(s[1..]);
    PlainStep(s[2..]);
    PlainStep(s[3..]);
    hide LiteralLength;
    assert s[1..][1..] == s[2..] && s[2..][1..] == s[3..] && s[3..][1..] == s[4..];
  }

  lemma PlainStep(s: string)
    requires s != "" && s[0] != QUOTE && s[0] != BACKSLASH
    ensures LiteralLength(s) == if LiteralLength(s[1..]) == 0 then 0 else 1 + LiteralLength(s[1..])
  { }

  lemma EscapeStep(s: string)
    requires |s| > 1 && s[0] == BACKSLASH
    ensures LiteralLength(s) == if LiteralLength(s[2..]) == 0 then 0 else 2 + LiteralLength(s[2..])
  { }

  /** An escape is as long for the minifier as for the parser. */
  lemma EscapeLength(t: string)
    requires ParseEscape(t).Parsed?
    ensures var q := LiteralLength(ParseEscape(t).rest);
            LiteralLength([BACKSLASH] + t) == if q == 0 then 0 else 1 + |t| - |ParseEscape(t).rest| + q
  {
    assert t != "";
    hide LiteralLength, ParseUnicode, ParseEscape;
    EscapeStep([BACKSLASH] + t);
    assert ([BACKSLASH] + t)[2..] == t[1..];
    EscapeKinds(t, t);
    if t[0] == 'u' {
      UnicodeLength(t[1..]);
    }
  }

  lemma UnicodeLength(t: string)
    requires ParseUnicode(t).Parsed?
    ensures var q := LiteralLength(ParseUnicode(t).rest);
            LiteralLength(t) == if q == 0 then 0 else |t| - |ParseUnicode(t).rest| + q
  {
    hide LiteralLength, Hex4, Utf8, HexValue;
    var rest := t[4..];
    HexLiteral(t);
    if |ParseUnicode(t).rest| < |rest| {
      EscapeStep(rest);
      HexLiteral(rest[2..]);
      assert rest[2..][4..] == rest[6..];
    }
  }

  lemma EscapeKinds(t: string, t': string)
    requires t != "" && t' != "" && t'[0] == t[0]
    ensures if t[0] == 'u' then ParseEscape(t) == ParseUnicode(t[1..]) && ParseEscape(t') == ParseUnicode(t'[1..])
            else ParseEscape(t).Parsed? && ParseEscape(t).rest == t[1..]
                 && ParseEscape(t') == Parsed(ParseEscape(t).value, t'[1..])
  {
    hide ParseUnicode;
  }

  predicate AgreeUpTo(n: nat, t: string, t': string) {
    n <= |t| && n <= |t'| && forall i | 0 <= i < n :: t'[i] == t[i]
  }

  /** An escape that ends inside a literal does not depend on what follows the literal. */
  lemma EscapeLocal(t: string, t': string, n: nat, k: nat)
    requires ParseEscape(t).Parsed? && k == |t| - |ParseEscape(t).rest| && k < n && AgreeUpTo(n, t, t')
    requires n == k + 1 ==> t[k] == QUOTE
    ensures ParseEscape(t') == Parsed(ParseEscape(t).value, t'[k..])
  {
    hide ParseEscape, ParseUnicode;
    EscapeKinds(t, t');
    if t[0] == 'u' {
      UnicodeLocal(t[1..], t'[1..], n - 1, k - 1);
    }
  }

  lemma UnicodeLocal(t: string, t': string, n: nat, k: nat)
    requires ParseUnicode(t).Parsed? && k == |t| - |ParseUnicode(t).rest| && k < n && AgreeUpTo(n, t, t')
    requires n == k + 1 ==> t[k] == QUOTE
    ensures ParseUnicode(t') == Parsed(ParseUnicode(t).value, t'[k..])
  {
    hide Utf8, HexValue, Hex4;
    HexSame(t, t');
    if k > 4 {
      assert t[4..][2..] == t[6..] && t'[4..][2..] == t'[6..] && t'[4..][6..] == t'[10..];
      HexSame(t[6..], t'[6..]);
    }
  }

  lemma HexSame(s: string, s': string)
    requires IsHex4(s) && AgreeUpTo(4, s, s')
    ensures IsHex4(s') && Hex4(s') == Hex4(s)
  { }

  /** A literal is as long for the minifier as for the parser, and its value does not depend on what follows. */
  lemma {:induction false} BodyMinified(s: string, u: string)
    requires StringBody(s).Parsed? && Terminated(s)
    ensures LiteralLength(s) > 0 && StringBody(s).rest == s[LiteralLength(s)..]
    ensures StringBody(s[..LiteralLength(s)] + u) == Parsed(StringBody(s).value, u)
    decreases |s|
  {
    hide ParseEscape, LiteralLength;
    if s[0] == QUOTE {
      QuoteStep(s);
      assert (s[..1] + u)[1..] == u;
    } else if s[0] != BACKSLASH {
      BodyMinified(s[1..], u);
      PlainStep(s);
      var n := LiteralLength(s);
      assert (s[..n] + u)[1..] == s[1..][..n - 1] + u && s[n..] == s[1..][n - 1..];
    } else {
      EscapedBody(s, u);
    }
  }

  lemma QuoteStep(s: string)
    requires s != "" && s[0] == QUOTE
    ensures LiteralLength(s) == 1
  { }

  lemma {:induction false} EscapedBody(s: string, u: string)
    requires StringBody(s).Parsed? && Terminated(s) && s[0] == BACKSLASH
    ensures LiteralLength(s) > 0 && StringBody(s).rest == s[LiteralLength(s)..]
    ensures StringBody(s[..LiteralLength(s)] + u) == Parsed(StringBody(s).value, u)
    decreases |s|, 0
  {
    hide ParseEscape, LiteralLength;
    var e := ParseEscape(s[1..]);
    BodyMinified(e.rest, u);
    EscapeLength(s[1..]);
    assert [BACKSLASH] + s[1..] == s;
    EscapeSuffix(s[1..]);
    var n, k := LiteralLength(s), |s[1..]| - |e.rest|;
    if LiteralLength(e.rest) == 1 {
      OneStep(e.rest);
    }
    var s' := s[..n] + u;
    Slices(s, n, k, u);
    hide AgreeUpTo;
    EscapeLocal(s[1..], s'[1..], n - 1, k);
  }

  lemma Slices(s: string, n: nat, k: nat, u: string)
    requires k + 1 < n <= |s|
    ensures var s', rest := s[..n] + u, s[1..][k..];
            AgreeUpTo(n - 1, s[1..], s'[1..]) && s[n..] == rest[n - 1 - k..] && s'[1..][k..] == rest[..n - 1 - k] + u
  { }

  lemma OneStep(s: string)
    requires LiteralLength(s) == 1
    ensures s[0] == QUOTE
  { }

  lemma StringMinified(s: string)
    requires ParseString(s).Parsed? && Terminated(s[1..]) && Minify(ParseString(s).rest).Kept?
    ensures Minify(s).Kept? && Minify(s).text != "" && Minify(s).text[0] == QUOTE
    ensures ParseString(Minify(s).text) == Parsed(ParseString(s).value, Minify(ParseString(s).rest).text)
  {
    hide Minify, LiteralLength, StringBody, Terminated;
    var r := ParseString(s).rest;
    MinifyLiteral(s);
    BodyMinified(s[1..], Minify(r).text);
    var n := LiteralLength(s[1..]);
    assert s[1..][n..] == s[n + 1..];
    assert Minify(s).text[1..] == s[1..][..n] + Minify(r).text;
  }

  // ----- values -----

  /** The value at the start of s is not a literal without its closing quote. */
  predicate Closed(s: string) { s != "" && s[0] == QUOTE ==> Terminated(s[1..]) }

  lemma RestClosed(s: string)
    requires ParseString(s).Parsed? && ParseString(s).rest != ""
    ensures Terminated(s[1..])
  {
    hide StringBody, Terminated;
    TerminatedExactly(s[1..], "");
  }

  lemma ValueStart(s: string)
    requires ParseValue(s).Parsed?
    ensures s != "" && s[0] as int > 32 && s[0] !in {'/', ']', '}'}
    ensures s[0] == QUOTE ==> ParseString(s).Parsed? && ParseValue(s) == Parsed(String(ParseString(s).value),
                                                                               ParseString(s).rest)
  {
    hide ParseString, ParseItems, ParseMembers, ParseNumber;
  }

  lemma ValueClosed(s: string)
    requires ParseValue(s).Parsed? && ParseValue(s).rest != ""
    ensures Closed(s)
  {
    hide ParseValue, ParseString, Terminated;
    ValueStart(s);
    if s[0] == QUOTE {
      RestClosed(s);
    }
  }

  /** The minified text m parses as s does, up to what the rest of s is minified to. */
  ghost predicate Same<T>(p: Parsed<T>, q: Parsed<T>) {
    p.Parsed? && Minify(p.rest).Kept? && q == Parsed(p.value, Minify(p.rest).text)
  }

  lemma WordValue(s: string, w: string)
    requires w in {"null", "false", "true"} && Starts(s, w) && Minify(s[|w|..]).Kept?
    ensures Minify(s).Kept? && Same(ParseValue(s), ParseValue(Minify(s).text))
  {
    hide Minify, Skip, ParseItems, ParseMembers, ParseString, ParseNumber;
    WordMinified(s, w);
    WordRead(s, w);
    WordRead(Minify(s).text, w);
  }

  lemma WordRead(s: string, w: string)
    requires w in {"null", "false", "true"} && Starts(s, w)
    ensures ParseValue(s) == Parsed(if w == "null" then Null else if w == "false" then False else True, s[|w|..])
  {
    hide Skip, ParseItems, ParseMembers, ParseString, ParseNumber;
    assert s[0] == s[..|w|][0] == w[0];
    if w == "false" {
      assert s[0] == 'f' && !Starts(s, "null");
    } else if w == "true" {
      assert s[0] == 't' && !Starts(s, "null") && !Starts(s, "false");
    }
  }

  lemma {:induction false} ValueMinified(s: string)
    requires ParseValue(s).Parsed? && Closed(s)
    requires Minify(ParseValue(s).rest).Kept? && Follows(ParseValue(s).rest)
    ensures Minify(s).Kept? && Same(ParseValue(s), ParseValue(Minify(s).text))
    decreases |s|, 1
  {
    hide Minify, Skip, ParseItems, ParseMembers, ParseString, ParseNumber, Follows, Terminated;
    if Starts(s, "null") {
      WordValue(s, "null");
    } else if Starts(s, "false") {
      WordValue(s, "false");
    } else if Starts(s, "true") {
      WordValue(s, "true");
    } else if s[0] == QUOTE {
      StringMinified(s);
      NotWord(Minify(s).text);
    } else if s[0] == '-' || IsDigit(s[0]) {
      NumberMinified(s);
      NotWord(Minify(s).text);
    } else if s[0] == '[' {
      ArrayMinified(s);
    } else {
      ObjectMinified(s);
    }
  }

  lemma {:induction false} ArrayMinified(s: string)
    requires s != "" && s[0] == '[' && ParseValue(s).Parsed? && Minify(ParseValue(s).rest).Kept?
    ensures Minify(s).Kept? && Same(ParseValue(s), ParseValue(Minify(s).text))
    decreases |s|, 0
  {
    hide Minify, Skip, ParseItems, ParseMembers, ParseString, ParseNumber;
    var s1 := Skip(s[1..]);
    NotWord(s);
    if s1 != "" && s1[0] == ']' {
      TokenMinified(s1);
    } else {
      ItemsStart(s1);
      ItemsMinified(s1);
      SkipMinified(s[1..]);
      ItemsStart(Minify(s1).text);
    }
    SkipMinified(s[1..]);
    TokenMinified(s);
    NotWord(Minify(s).text);
  }

  lemma {:induction false} ObjectMinified(s: string)
    requires s != "" && s[0] == '{' && ParseValue(s).Parsed? && Minify(ParseValue(s).rest).Kept?
    ensures Minify(s).Kept? && Same(ParseValue(s), ParseValue(Minify(s).text))
    decreases |s|, 0
  {
    hide Minify, Skip, ParseItems, ParseMembers, ParseString, ParseNumber;
    var s1 := Skip(s[1..]);
    NotWord(s);
    if s1 != "" && s1[0] == '}' {
      TokenMinified(s1);
    } else {
      MembersStart(s1);
      MembersMinified(s1);
      SkipMinified(s[1..]);
      MembersStart(Minify(s1).text);
    }
    SkipMinified(s[1..]);
    TokenMinified(s);
    NotWord(Minify(s).text);
  }

  /** Items that start without white space do so with a value. */
  lemma ItemsStart(s: string)
    requires ParseItems(s).Parsed? && (s == "" || s[0] as int > 32)
    ensures s != "" && s[0] !in {'/', ']'}
  {
    hide ParseValue;
    ValueStart(Skip(s));
  }

  lemma MembersStart(s: string)
    requires ParseMembers(s).Parsed? && (s == "" || s[0] as int > 32)
    ensures s != "" && s[0] == QUOTE
  {
    hide ParseValue, StringBody;
  }

  lemma {:induction false} ItemsMinified(s: string)
    requires ParseItems(s).Parsed? && Minify(ParseItems(s).rest).Kept?
    ensures Minify(s).Kept? && Same(ParseItems(s), ParseItems(Minify(s).text))
    decreases |s|, 2
  {
    hide Minify, Skip, ParseValue, ItemsTail, Closed;
    var v := ParseValue(Skip(s));
    ValueStart(Skip(s));
    SkipMinified(s);
    ItemsTailMinified(Skip(v.rest));
    SkipMinified(v.rest);
    ValueClosed(Skip(s));
    ValueMinified(Skip(s));
  }

  lemma {:induction false} ItemsTailMinified(s: string)
    requires ItemsTail(s).Parsed? && Minify(ItemsTail(s).rest).Kept?
    ensures s != "" && s[0] in {',', ']'}
    ensures Minify(s).Kept? && Same(ItemsTail(s), ItemsTail(Minify(s).text))
    decreases |s|, 2
  {
    hide Minify, ParseItems;
    if s[0] == ',' {
      ItemsMinified(s[1..]);
    }
    TokenMinified(s);
  }

  lemma {:induction false} MembersMinified(s: string)
    requires ParseMembers(s).Parsed? && Minify(ParseMembers(s).rest).Kept?
    ensures Minify(s).Kept? && Same(ParseMembers(s), ParseMembers(Minify(s).text))
    decreases |s|, 2
  {
    hide Minify, Skip, ParseValue, ParseString, MembersTail, Closed, Terminated;
    var name := ParseString(Skip(s));
    var s0 := Skip(name.rest);
    var v := ParseValue(Skip(s0[1..]));
    ValueStart(Skip(s0[1..]));
    MembersTailMinified(Skip(v.rest));
    SkipMinified(v.rest);
    ValueClosed(Skip(s0[1..]));
    ValueMinified(Skip(s0[1..]));
    SkipMinified(s0[1..]);
    TokenMinified(s0);
    SkipMinified(name.rest);
    RestClosed(Skip(s));
    StringMinified(Skip(s));
    StringStart(Skip(s));
    SkipMinified(s);
  }

  lemma StringStart(s: string)
    requires ParseString(s).Parsed?
    ensures s != "" && s[0] == QUOTE
  { }

  lemma {:induction false} MembersTailMinified(s: string)
    requires MembersTail(s).Parsed? && Minify(MembersTail(s).rest).Kept?
    ensures s != "" && s[0] in {',', '}'}
    ensures Minify(s).Kept? && Same(MembersTail(s), MembersTail(Minify(s).text))
    decreases |s|, 2
  {
    hide Minify, ParseMembers;
    if s[0] == ',' {
      MembersMinified(s[1..]);
    }
    TokenMinified(s);
  }

  // ----- whole texts -----

  /** The text is a value with nothing but white space around it. */
  predicate ParsesTo(s: string, t: Json) {
    var r := ParseValue(Skip(s));
    r.Parsed? && r.value == t && Skip(r.rest) == ""
  }

  lemma MinifyBlank(s: string)
    requires Skip(s) == ""
    ensures Minify(s).Kept?
  {
    SkipMinified(s);
  }

  /** A literal without its closing quote is not closed for the minifier either. */
  lemma {:induction false} UnclosedBody(s: string)
    requires StringBody(s).Parsed? && !Terminated(s)
    ensures LiteralLength(s) == 0
    decreases |s|
  {
    hide ParseEscape;
    if s != "" && s[0] != BACKSLASH {
      UnclosedBody(s[1..]);
    } else if s != "" {
      UnclosedBody(ParseEscape(s[1..]).rest);
      EscapeLength(s[1..]);
      assert [BACKSLASH] + s[1..] == s;
    }
  }

  lemma {:induction false} MinifyNulFree(s: string)
    requires NulFree(s) && Minify(s).Kept?
    ensures NulFree(Minify(s).text)
    decreases |s|
  {
    hide LiteralLength;
    if s != "" {
      if s[0] == QUOTE {
        MinifyNulFree(s[LiteralLength(s[1..]) + 1..]);
      } else if s[0] == '/' && |s| > 1 && s[1] == '/' {
        DropLineNulFree(s[1..]);
        MinifyNulFree(DropLine(s[1..]));
      } else if s[0] == '/' && |s| > 1 && s[1] == '*' {
        DropCommentNulFree(s[1..]);
        MinifyNulFree(DropComment(s[1..])[2..]);
      } else {
        MinifyNulFree(s[1..]);
      }
    }
  }

  lemma {:induction false} DropLineNulFree(s: string)
    requires NulFree(s)
    ensures NulFree(DropLine(s))
  {
    if s != "" {
      DropLineNulFree(s[1..]);
    }
  }

  lemma {:induction false} DropCommentNulFree(s: string)
    requires NulFree(s)
    ensures NulFree(DropComment(s))
  {
    if s != "" {
      DropCommentNulFree(s[1..]);
    }
  }

  /** Text that parses whole can be minified if and only if it is not a literal without its closing quote, and
      then the minified text parses whole to the same tree. */
  lemma MinifyParse(s: string, t: Json)
    requires ParsesTo(s, t)
    ensures Minify(s).Kept? <==> Closed(Skip(s))
    ensures Minify(s).Kept? ==> ParsesTo(Minify(s).text, t)
  {
    hide Minify, Skip, ParseValue, ParseString, Terminated, LiteralLength;
    var s1 := Skip(s);
    var v := ParseValue(s1);
    ValueStart(s1);
    SkipMinified(s);
    MinifyBlank(v.rest);
    SkipMinified(v.rest);
    if Closed(s1) {
      ValueMinified(s1);
      MinifyEmpty();
    } else {
      LiteralUnclosed(s1);
    }
  }

  lemma LiteralUnclosed(s: string)
    requires ParseString(s).Parsed? && s[0] == QUOTE && !Terminated(s[1..])
    ensures !Minify(s).Kept?
  {
    hide Minify, StringBody, Terminated, LiteralLength;
    UnclosedBody(s[1..]);
    MinifyLiteral(s);
  }
}
