/** What the parser of libjl777/cJSON.c accepts: trees that can be printed, and string literals whose
    closing quote is missing. */
module JsonAccepted {
  import opened Json
  import opened JsonRoundTrip

  // ----- unterminated strings -----

  /** The scan of a string body meets a closing quote. */
  predicate Terminated(s: string) {
    if s == "" then false
    else if s[0] == QUOTE then true
    else if s[0] != BACKSLASH then Terminated(s[1..])
    else
      match ParseEscape(s[1..])
      case Parsed(_, rest) => Terminated(rest)
      case _ => false
  }

  /** An escape is read the same whether or not a quote follows the text. */
  lemma EscapeBeforeQuote(s: string, u: string)
    requires ParseEscape(s).Parsed?
    ensures ParseEscape(s + ([QUOTE] + u)) == Parsed(ParseEscape(s).value, ParseEscape(s).rest + ([QUOTE] + u))
  {
    var q := [QUOTE] + u;
    assert (s + q)[1..] == s[1..] + q;
    if s[0] == 'u' {
      UnicodeBeforeQuote(s[1..], u);
    }
    hide ParseUnicode;
  }

  lemma UnicodeBeforeQuote(s: string, u: string)
    requires ParseUnicode(s).Parsed?
    ensures ParseUnicode(s + ([QUOTE] + u)) == Parsed(ParseUnicode(s).value, ParseUnicode(s).rest + ([QUOTE] + u))
  {
    hide Utf8, HexValue;
    var q := [QUOTE] + u;
    HexPrefix(s, q);
    var rest := s[4..];
    assert (s + q)[4..] == rest + q;
    if |rest| >= 6 && rest[0] == BACKSLASH && rest[1] == 'u' && IsHex4(rest[2..]) {
      assert (rest + q)[2..] == rest[2..] + q;
      HexPrefix(rest[2..], q);
      assert (rest + q)[6..] == rest[6..] + q;
    }
  }

  lemma HexPrefix(s: string, q: string)
    requires IsHex4(s)
    ensures IsHex4(s + q) && Hex4(s + q) == Hex4(s)
  {
    assert (s + q)[0] == s[0] && (s + q)[1] == s[1] && (s + q)[2] == s[2] && (s + q)[3] == s[3];
  }

  /** An accepted string body without a closing quote is taken to the end of the text, and read as if the
      quote stood there; one with a closing quote ends right after it. */
  lemma {:induction false} TerminatedExactly(s: string, u: string)
    requires StringBody(s).Parsed?
    ensures !Terminated(s) ==> StringBody(s).rest == ""
    ensures !Terminated(s) ==> StringBody(s + ([QUOTE] + u)) == Parsed(StringBody(s).value, u)
    ensures Terminated(s) ==> |StringBody(s).rest| < |s|
    ensures Terminated(s) ==> s[|s| - |StringBody(s).rest| - 1] == QUOTE
    ensures Terminated(s) ==> StringBody(s).rest == s[|s| - |StringBody(s).rest|..]
    decreases |s|
  {
    hide ParseEscape;
    var q := [QUOTE] + u;
    if s == "" {
      assert s + q == q && q[1..] == u;
    } else if s[0] == QUOTE {
    } else if s[0] != BACKSLASH {
      TerminatedExactly(s[1..], u);
      assert (s + q)[1..] == s[1..] + q;
    } else {
      var e := ParseEscape(s[1..]);
      TerminatedExactly(e.rest, u);
      EscapeBeforeQuote(s[1..], u);
      EscapeSuffix(s[1..]);
      assert (s + q)[1..] == s[1..] + q;
    }
  }

  /** What an escape leaves is the end of the text. */
  lemma EscapeSuffix(s: string)
    requires ParseEscape(s).Parsed?
    ensures |ParseEscape(s).rest| <= |s| && ParseEscape(s).rest == s[|s| - |ParseEscape(s).rest|..]
  {
    hide Hex4, Utf8, HexValue;
    if s[0] == 'u' {
      var rest := s[1..][4..];
      assert rest == s[5..] && (|rest| >= 6 ==> rest[6..] == s[11..]);
    }
  }

  /** A string literal that is accepted without its closing quote. */
  lemma UnterminatedExample()
    ensures !Terminated("a") && ParseString([QUOTE, 'a']) == Parsed("a", "")
    ensures ParseString([QUOTE, 'a', QUOTE]) == Parsed("a", "")
  {
    assert [QUOTE, 'a'][1..] == "a" && "a"[1..] == "";
    assert [QUOTE, 'a', QUOTE][1..] == ['a', QUOTE] && ['a', QUOTE][1..] == [QUOTE] && [QUOTE][1..] == "";
    assert StringBody([QUOTE]) == Parsed("", "");
    assert StringBody(['a', QUOTE]) == Prepend("a", StringBody([QUOTE]));
    assert "a" + "" == "a";
  }

  // ----- everything the parser returns can be printed -----

  lemma {:induction false} BodyNulFree(s: string)
    requires NulFree(s) && StringBody(s).Parsed?
    ensures NulFree(StringBody(s).value) && NulFree(StringBody(s).rest)
    decreases |s|
  {
    hide ParseEscape;
    if s == "" || s[0] == QUOTE {
    } else if s[0] != BACKSLASH {
      BodyNulFree(s[1..]);
    } else {
      EscapeNulFree(s[1..]);
      BodyNulFree(ParseEscape(s[1..]).rest);
    }
  }

  lemma EscapeNulFree(s: string)
    requires NulFree(s) && ParseEscape(s).Parsed?
    ensures NulFree(ParseEscape(s).value) && NulFree(ParseEscape(s).rest)
  {
    EscapeSuffix(s);
    if s[0] == 'u' {
      UnicodeNulFree(s[1..]);
    }
    hide ParseUnicode;
  }

  lemma UnicodeNulFree(s: string)
    requires ParseUnicode(s).Parsed?
    ensures NulFree(ParseUnicode(s).value)
  {
    hide Hex4, IsHex4;
  }

  lemma {:induction false} SkipNulFree(s: string)
    requires NulFree(s)
    ensures NulFree(Skip(s))
  {
    if s != "" {
      SkipNulFree(s[1..]);
    }
  }

  lemma {:induction false} RunNulFree(s: string, n: nat)
    requires NulFree(s)
    ensures NulFree(DigitRun(s, n).1)
    decreases |s|
  {
    if s != "" && IsDigit(s[0]) {
      RunNulFree(s[1..], 10 * n + (s[0] as int - '0' as int));
    }
  }

  lemma NumberPrintable(s: string)
    requires NulFree(s) && s != "" && (s[0] == '-' || IsDigit(s[0])) && ParseNumber(s).Parsed?
    ensures Printable(ParseNumber(s).value) && NulFree(ParseNumber(s).rest)
  {
    hide DigitRun, GoesOn;
    var s1 := if s[0] == '-' then s[1..] else s;
    var s2 := if s1 != "" && s1[0] == '0' then s1[1..] else s1;
    if s2 != "" {
      RunNulFree(s2[1..], if '1' <= s2[0] <= '9' then s2[0] as int - '0' as int else 0);
    }
  }

  /** Every tree the parser returns on NUL-free text is one the printer can print. */
  lemma {:induction false} AcceptedPrintable(s: string)
    requires NulFree(s) && ParseValue(s).Parsed?
    ensures Printable(ParseValue(s).value) && NulFree(ParseValue(s).rest)
    decreases |s|, 0
  {
    hide ParseNumber, ParseString, ParseItems, ParseMembers, Skip;
    if s == "" || Starts(s, "null") || Starts(s, "false") || Starts(s, "true") {
    } else if s[0] == QUOTE {
      StringNulFree(s);
    } else if s[0] == '-' || IsDigit(s[0]) {
      NumberPrintable(s);
    } else {
      SkipNulFree(s[1..]);
      if s[0] == '[' && ParseItems(Skip(s[1..])).Parsed? {
        ItemsPrintable(Skip(s[1..]));
      } else if s[0] == '{' && ParseMembers(Skip(s[1..])).Parsed? {
        MembersPrintable(Skip(s[1..]));
      }
    }
  }

  lemma StringNulFree(s: string)
    requires NulFree(s) && ParseString(s).Parsed?
    ensures NulFree(ParseString(s).value) && NulFree(ParseString(s).rest)
  {
    hide StringBody;
    BodyNulFree(s[1..]);
  }

  lemma {:induction false} ItemsPrintable(s: string)
    requires NulFree(s) && ParseItems(s).Parsed?
    ensures PrintableItems(ParseItems(s).value) && NulFree(ParseItems(s).rest)
    decreases |s|, 1
  {
    hide ParseValue, Skip;
    SkipNulFree(s);
    AcceptedPrintable(Skip(s));
    var rest := ParseValue(Skip(s)).rest;
    SkipNulFree(rest);
    var tail := Skip(rest);
    if tail[0] == ',' {
      ItemsPrintable(tail[1..]);
    }
  }

  lemma {:induction false} MembersPrintable(s: string)
    requires NulFree(s) && ParseMembers(s).Parsed?
    ensures PrintableMembers(ParseMembers(s).value) && NulFree(ParseMembers(s).rest)
    decreases |s|, 1
  {
    hide ParseValue, ParseString, Skip;
    SkipNulFree(s);
    StringNulFree(Skip(s));
    var rest0 := ParseString(Skip(s)).rest;
    SkipNulFree(rest0);
    var s0 := Skip(rest0);
    SkipNulFree(s0[1..]);
    AcceptedPrintable(Skip(s0[1..]));
    var rest := ParseValue(Skip(s0[1..])).rest;
    SkipNulFree(rest);
    var tail := Skip(rest);
    if tail[0] == ',' {
      MembersPrintable(tail[1..]);
    }
  }

  /** Parsing, printing in either format and parsing again is parsing, for all accepted text. */
  lemma ParsePrintParse(s: string, fmt: bool)
    requires NulFree(s) && ParseValue(s).Parsed?
    ensures ParseValue(Text(ParseValue(s).value, 0, fmt)) == Parsed(ParseValue(s).value, "")
  {
    hide ParseValue, Text;
    AcceptedPrintable(s);
    RoundTrip(ParseValue(s).value, 0, fmt, "");
    assert Text(ParseValue(s).value, 0, fmt) + "" == Text(ParseValue(s).value, 0, fmt);
  }
}
