/** The recursive-descent parser of libjl777/cJSON.c over a cursor into the text. Each routine agrees
    with its function on the rest of the text, and what the second pass over a string writes fits the
    length that the first pass counted. */
module JsonParse {
  import opened Json
  import opened JsonRoundTrip
  import opened Basics

  /** Where a routine stopped; NoParse is the null pointer of the source. */
  datatype Cursor<T> = Stop(value: T, at: nat) | NoParse | Unmodelled

  ghost predicate Agrees<T>(r: Cursor<T>, text: string, p: Parsed<T>) {
    match r
    case Stop(v, at) => at <= |text| && p == Parsed(v, text[at..])
    case NoParse => p == Failed
    case Unmodelled => p == Outside
  }

  method SkipAt(text: string, i: nat) returns (j: nat)
    requires i <= |text|
    ensures i <= j <= |text| && text[j..] == Skip(text[i..])
  {
    j := i;
    while j < |text| && text[j] as int <= 32
      invariant i <= j <= |text| && Skip(text[j..]) == Skip(text[i..])
    {
      assert text[j..][1..] == text[j + 1..];
      j := j + 1;
    }
  }

  // ----- numbers -----

  method DigitsAt(text: string, i: nat, start: nat) returns (n: nat, num: nat)
    requires i <= |text|
    ensures i <= num <= |text| && (n, text[num..]) == DigitRun(text[i..], start)
  {
    n, num := start, i;
    while num < |text| && IsDigit(text[num])
      invariant i <= num <= |text| && DigitRun(text[num..], n) == DigitRun(text[i..], start)
    {
      assert text[num..][1..] == text[num + 1..];
      n, num := 10 * n + (text[num] as int - '0' as int), num + 1;
    }
  }

  lemma GoesOnAt(text: string, i: nat)
    requires i <= |text|
    ensures GoesOn(text[i..]) <==>
            i < |text| && ((text[i] == '.' && i + 1 < |text| && IsDigit(text[i + 1])) || text[i] == 'e' ||
                           text[i] == 'E')
  { }

  method ParseNumberAt(text: string, i: nat) returns (r: Cursor<Json>)
    requires i < |text| && (text[i] == '-' || IsDigit(text[i]))
    ensures Agrees(r, text, ParseNumber(text[i..]))
  {
    hide DigitRun, GoesOn;
    var negative, n: nat, num: nat := false, 0, i;
    if text[num] == '-' {
      negative, num := true, num + 1;
    }
    assert text[num..] == if text[i..][0] == '-' then text[i..][1..] else text[i..];
    ghost var s1 := text[num..];
    if num < |text| && text[num] == '0' {
      num := num + 1;
    }
    ghost var s2 := text[num..];
    assert s2 == if s1 != "" && s1[0] == '0' then s1[1..] else s1;
    if num < |text| && '1' <= text[num] <= '9' {
      assert text[num + 1..] == s2[1..];
      n, num := DigitsAt(text, num + 1, text[num] as int - '0' as int);
    }
    GoesOnAt(text, num);
    if num < |text| && ((text[num] == '.' && num + 1 < |text| && IsDigit(text[num + 1])) || text[num] == 'e' ||
                        text[num] == 'E') {
      return Unmodelled;
    }
    if n >= EXACT {
      return Unmodelled;
    }
    var value: int := n;
    if negative {
      value := -value;
    }
    r := Stop(Number(value), num);
  }

  // ----- strings -----

  /** The length the first pass counts, up to the closing quote: an escape counts once. None if it runs
      past the end of the text. */
  function FirstPass(s: string): Option<nat> {
    if s == "" || s[0] == QUOTE then Some(0)
    else if s[0] == BACKSLASH && |s| < 2 then None
    else
      match FirstPass(s[if s[0] == BACKSLASH then 2 else 1..])
      case None => None
      case Some(n) => Some(n + 1)
  }

  lemma {:induction false} HexCounted(s: string, k: nat)
    requires k <= |s| && forall j | 0 <= j < k :: HexValue(s[j]) >= 0
    ensures FirstPass(s) == match FirstPass(s[k..]) case None => None case Some(n) => Some(n + k)
    decreases k
  {
    if k == 0 {
      assert s[0..] == s;
    } else {
      assert s[1..][k - 1..] == s[k..];
      HexCounted(s[1..], k - 1);
    }
  }

  /** An escape writes no more than it is counted for. */
  lemma EscapeFits(s: string)
    requires s != "" && s[0] == BACKSLASH && ParseEscape(s[1..]).Parsed?
    ensures var e := ParseEscape(s[1..]);
            match FirstPass(e.rest)
            case None => FirstPass(s) == None
            case Some(n) => FirstPass(s).Some? && |e.value| + n <= FirstPass(s).value
  {
    hide FirstPass, ParseUnicode;
    assert s[1..][1..] == s[2..];
    EscapeCounted(s);
    if s[1] == 'u' {
      UnicodeFits(s[2..]);
    }
  }

  lemma EscapeCounted(s: string)
    requires |s| >= 2 && s[0] == BACKSLASH
    ensures FirstPass(s) == match FirstPass(s[2..]) case None => None case Some(n) => Some(n + 1)
  { }

  lemma UnicodeFits(s: string)
    requires ParseUnicode(s).Parsed?
    ensures var e := ParseUnicode(s);
            match FirstPass(e.rest)
            case None => FirstPass(s) == None
            case Some(n) => FirstPass(s).Some? && |e.value| + n <= FirstPass(s).value
  {
    hide FirstPass, ParseUnicode, HexValue;
    UnicodeShape(s);
    HexCounted(s, 4);
    var rest, e := s[4..], ParseUnicode(s);
    if e.rest != rest {
      EscapeCounted(rest);
      HexCounted(rest[2..], 4);
      assert rest[2..][4..] == rest[6..];
    }
  }

  /** How much text a unicode escape or a surrogate pair takes, and how many bytes it stands for. */
  lemma UnicodeShape(s: string)
    requires ParseUnicode(s).Parsed?
    ensures IsHex4(s) && |ParseUnicode(s).value| <= 4
    ensures var rest, e := s[4..], ParseUnicode(s);
            e.rest == rest || (|rest| >= 6 && rest[0] == BACKSLASH && IsHex4(rest[2..]) && e.rest == rest[6..])
  {
    hide Hex4, Utf8, HexValue;
  }

  lemma {:induction false} FirstPassRuns(s: string)
    ensures FirstPass(s).None? ==> StringBody(s).Outside?
    decreases |s|
  {
    if s == "" || s[0] == QUOTE {
    } else if s[0] == BACKSLASH {
      var e := ParseEscape(s[1..]);
      if e.Parsed? {
        EscapeFits(s);
        FirstPassRuns(e.rest);
      }
    } else {
      FirstPassRuns(s[1..]);
    }
  }

  /** The first pass of parse_string. */
  method CountString(text: string, i: nat) returns (len: Option<nat>)
    requires i <= |text|
    ensures len == FirstPass(text[i..])
  {
    var ptr, n := i, 0;
    while ptr < |text| && text[ptr] != QUOTE
      invariant i <= ptr <= |text| && n >= 0
      invariant FirstPass(text[i..]) == match FirstPass(text[ptr..]) case None => None case Some(m) => Some(m + n)
    {
      assert text[ptr..][1..] == text[ptr + 1..];
      n := n + 1;
      if text[ptr] == BACKSLASH {
        if ptr + 1 == |text| {
          return None;
        }
        assert text[ptr..][2..] == text[ptr + 2..];
        ptr := ptr + 1;
      }
      ptr := ptr + 1;
    }
    len := Some(n);
  }

  lemma PrependPrepend(a: string, b: string, r: Parsed<string>)
    ensures Prepend(a, Prepend(b, r)) == Prepend(a + b, r)
  {
    if r.Parsed? {
      Concat(a, b, r.value);
    }
  }

  /** Writes decoded bytes. */
  method PutBytes(out: array<char>, ptr2: nat, bytes: string) returns (end: nat)
    requires ptr2 + |bytes| <= out.Length
    modifies out
    ensures end == ptr2 + |bytes| && out[..end] == old(out[..ptr2]) + bytes
  {
    for i := 0 to |bytes|
      invariant out[..ptr2 + i] == old(out[..ptr2]) + bytes[..i]
    {
      out[ptr2 + i] := bytes[i];
    }
    end := ptr2 + |bytes|;
  }

  method UnicodeAt(text: string, i: nat) returns (r: Cursor<string>)
    requires i <= |text|
    ensures Agrees(r, text, ParseUnicode(text[i..]))
  {
    hide Hex4, Utf8, HexValue;
    if !IsHex4(text[i..]) {
      return Unmodelled;
    }
    var uc, ptr := Hex4(text[i..]), i + 4;
    ghost var rest := text[i..][4..];
    assert rest == text[ptr..];
    if 0xDC00 <= uc <= 0xDFFF || uc == 0 {
      return Stop("", ptr);
    }
    if 0xD800 <= uc <= 0xDBFF {
      if ptr + 1 >= |text| || text[ptr] != BACKSLASH || text[ptr + 1] != 'u' {
        return Stop("", ptr);
      }
      assert text[ptr + 2..] == rest[2..];
      if !IsHex4(text[ptr + 2..]) {
        return Unmodelled;
      }
      var uc2 := Hex4(text[ptr + 2..]);
      assert text[ptr + 6..] == rest[6..];
      if uc2 < 0xDC00 || uc2 > 0xDFFF {
        return Stop("", ptr + 6);
      }
      return Stop(Utf8(0x1_0000 + (uc - 0xD800) * 1024 + (uc2 - 0xDC00)), ptr + 6);
    }
    return Stop(Utf8(uc), ptr);
  }

  method EscapeAt(text: string, i: nat) returns (r: Cursor<string>)
    requires i <= |text|
    ensures Agrees(r, text, ParseEscape(text[i..]))
  {
    hide ParseUnicode;
    if i == |text| {
      return Unmodelled;
    }
    assert text[i..][1..] == text[i + 1..];
    match text[i]
    case 'b' => r := Stop([BACKSPACE], i + 1);
    case 'f' => r := Stop([FORMFEED], i + 1);
    case 'n' => r := Stop("\n", i + 1);
    case 'r' => r := Stop("\r", i + 1);
    case 't' => r := Stop("\t", i + 1);
    case 'u' => r := UnicodeAt(text, i + 1);
    case c => r := Stop([c], i + 1);
  }

  lemma BodyStep(text: string, i: nat)
    requires i < |text| && text[i] != QUOTE
    ensures text[i] != BACKSLASH ==> StringBody(text[i..]) == Prepend([text[i]], StringBody(text[i + 1..]))
    ensures text[i] != BACKSLASH ==>
              FirstPass(text[i..]) == match FirstPass(text[i + 1..]) case None => None case Some(n) => Some(n + 1)
    ensures text[i] == BACKSLASH ==>
              StringBody(text[i..]) ==
              match ParseEscape(text[i + 1..])
              case Parsed(bytes, rest) => Prepend(bytes, StringBody(rest))
              case _ => Outside
  {
    assert text[i..][1..] == text[i + 1..];
    hide ParseEscape;
  }

  lemma BodyEnd(text: string, i: nat)
    requires i <= |text| && (i == |text| || text[i] == QUOTE)
    ensures StringBody(text[i..]) == Parsed("", text[if i == |text| then i else i + 1..])
  { }

  method ParseStringAt(text: string, i: nat) returns (r: Cursor<string>)
    requires i <= |text|
    ensures Agrees(r, text, ParseString(text[i..]))
  {
    hide StringBody, FirstPass, ParseEscape;
    if i == |text| || text[i] != QUOTE {
      return NoParse;
    }
    assert text[i..][1..] == text[i + 1..];
    var len := CountString(text, i + 1);
    FirstPassRuns(text[i + 1..]);
    if len.None? {
      return Unmodelled;
    }
    var out := new char[len.value + 1];
    var ptr, ptr2: nat := i + 1, 0;
    ghost var body := StringBody(text[i + 1..]);
    assert Prepend("", body) == body by { assert body.Parsed? ==> "" + body.value == body.value; }
    while ptr < |text| && text[ptr] != QUOTE
      invariant i < ptr <= |text| && ptr2 <= len.value
      invariant FirstPass(text[ptr..]).Some? && ptr2 + FirstPass(text[ptr..]).value <= len.value
      invariant body == Prepend(out[..ptr2], StringBody(text[ptr..]))
      decreases |text| - ptr
    {
      BodyStep(text, ptr);
      ghost var before := out[..ptr2];
      if text[ptr] != BACKSLASH {
        PrependPrepend(before, [text[ptr]], StringBody(text[ptr + 1..]));
        out[ptr2] := text[ptr];
        ptr2, ptr := ptr2 + 1, ptr + 1;
        assert out[..ptr2] == before + [text[ptr - 1]];
      } else {
        assert text[ptr..][1..] == text[ptr + 1..];
        var e := EscapeAt(text, ptr + 1);
        if !e.Stop? {
          return Unmodelled;
        }
        EscapeFits(text[ptr..]);
        PrependPrepend(before, e.value, StringBody(text[e.at..]));
        ptr2 := PutBytes(out, ptr2, e.value);
        ptr := e.at;
      }
    }
    BodyEnd(text, ptr);
    assert out[..ptr2] + "" == out[..ptr2];
    if ptr < |text| {
      ptr := ptr + 1;
    }
    out[ptr2] := 0 as char;
    r := Stop(out[..ptr2], ptr);
  }

  // ----- values -----

  method ParseValueAt(text: string, i: nat) returns (r: Cursor<Json>)
    requires i <= |text|
    ensures Agrees(r, text, ParseValue(text[i..]))
    decreases |text| - i, 1
  {
    hide ParseNumber, ParseString, ParseItems, ParseMembers;
    ghost var s := text[i..];
    if i + 4 <= |text| && text[i..i + 4] == "null" {
      assert s[..4] == "null" && s[4..] == text[i + 4..];
      return Stop(Null, i + 4);
    }
    assert !Starts(s, "null") by { assert |s| >= 4 ==> s[..4] == text[i..i + 4]; }
    if i + 5 <= |text| && text[i..i + 5] == "false" {
      assert s[..5] == "false" && s[5..] == text[i + 5..];
      return Stop(False, i + 5);
    }
    assert !Starts(s, "false") by { assert |s| >= 5 ==> s[..5] == text[i..i + 5]; }
    if i + 4 <= |text| && text[i..i + 4] == "true" {
      assert s[..4] == "true" && s[4..] == text[i + 4..];
      return Stop(True, i + 4);
    }
    assert !Starts(s, "true") by { assert |s| >= 4 ==> s[..4] == text[i..i + 4]; }
    hide Starts;
    if i == |text| {
      return NoParse;
    }
    if text[i] == QUOTE {
      var str := ParseStringAt(text, i);
      match str
      case Stop(v, at) => return Stop(String(v), at);
      case NoParse => return NoParse;
      case Unmodelled => return Unmodelled;
    }
    if text[i] == '-' || IsDigit(text[i]) {
      r := ParseNumberAt(text, i);
    } else if text[i] == '[' {
      r := ParseArrayAt(text, i);
    } else if text[i] == '{' {
      r := ParseObjectAt(text, i);
    } else {
      r := NoParse;
    }
  }

  /** The part of ParseValue that starts at an opening square bracket. */
  function ArrayBody(s: string): Parsed<Json> {
    if s != "" && s[0] == ']' then Parsed(Array(NoItem), s[1..])
    else
      match ParseItems(s)
      case Parsed(items, rest) => Parsed(Array(items), rest)
      case Failed => Failed
      case Outside => Outside
  }

  function ObjectBody(s: string): Parsed<Json> {
    if s != "" && s[0] == '}' then Parsed(Object(NoMember), s[1..])
    else
      match ParseMembers(s)
      case Parsed(members, rest) => Parsed(Object(members), rest)
      case Failed => Failed
      case Outside => Outside
  }

  lemma BracketValue(s: string)
    requires s != "" && (s[0] == '[' || s[0] == '{')
    ensures ParseValue(s) == if s[0] == '[' then ArrayBody(Skip(s[1..])) else ObjectBody(Skip(s[1..]))
  {
    NotWord(s);
    hide ParseItems, ParseMembers;
  }

  /** The chain of the given values, ending in tail. */
  function Chained(values: seq<Json>, tail: Items): Items
    decreases |values|
  {
    if values == [] then tail else Chained(values[..|values| - 1], Item(values[|values| - 1], tail))
  }

  function WithItems(values: seq<Json>, r: Parsed<Items>): Parsed<Items> {
    if r.Parsed? then Parsed(Chained(values, r.value), r.rest) else r
  }

  lemma WithNone(r: Parsed<Items>)
    ensures WithItems([], r) == r
  { }

  lemma WithOneMore(values: seq<Json>, v: Json, r: Parsed<Items>)
    ensures WithItems(values, WithItem(v, r)) == WithItems(values + [v], r)
  {
    assert (values + [v])[..|values|] == values;
  }

  /** One item and the white space around it. */
  method ItemAt(text: string, i: nat) returns (r: Cursor<Json>)
    requires i <= |text|
    ensures r.NoParse? ==> ParseItems(text[i..]) == Failed
    ensures r.Unmodelled? ==> ParseItems(text[i..]) == Outside
    ensures r.Stop? ==> i < r.at <= |text| && ParseItems(text[i..]) == WithItem(r.value, ItemsTail(text[r.at..]))
    decreases |text| - i, 2
  {
    hide ParseValue, ItemsTail;
    var at := SkipAt(text, i);
    r := ParseValueAt(text, at);
    if r.Stop? {
      var after := SkipAt(text, r.at);
      assert |text[r.at..]| < |text[at..]|;
      r := Stop(r.value, after);
    }
  }

  lemma ItemsTailAt(text: string, i: nat)
    requires i <= |text|
    ensures ItemsTail(text[i..]) ==
            if i == |text| then Failed
            else if text[i] == ',' then ParseItems(text[i + 1..])
            else if text[i] == ']' then Parsed(NoItem, text[i + 1..])
            else Failed
  {
    hide ParseItems;
    if i < |text| {
      assert text[i..][1..] == text[i + 1..];
    }
  }

  /** The children up to the closing bracket. */
  method ItemsAt(text: string, i: nat) returns (r: Cursor<Items>)
    requires i <= |text|
    ensures Agrees(r, text, ParseItems(text[i..]))
    decreases |text| - i, 3
  {
    hide ParseItems, ItemsTail, Chained;
    var next := ItemAt(text, i);
    if !next.Stop? {
      return if next.NoParse? then NoParse else Unmodelled;
    }
    var values, value := [next.value], next.at;
    WithNone(WithItem(next.value, ItemsTail(text[next.at..])));
    WithOneMore([], next.value, ItemsTail(text[next.at..]));
    assert [] + [next.value] == [next.value];
    while value < |text| && text[value] == ','
      invariant i < value <= |text| && ParseItems(text[i..]) == WithItems(values, ItemsTail(text[value..]))
      decreases |text| - value
    {
      ItemsTailAt(text, value);
      next := ItemAt(text, value + 1);
      if !next.Stop? {
        return if next.NoParse? then NoParse else Unmodelled;
      }
      WithOneMore(values, next.value, ItemsTail(text[next.at..]));
      values, value := values + [next.value], next.at;
    }
    ItemsTailAt(text, value);
    if value < |text| && text[value] == ']' {
      return Stop(Chained(values, NoItem), value + 1);
    }
    return NoParse;
  }

  method ParseArrayAt(text: string, i: nat) returns (r: Cursor<Json>)
    requires i < |text| && text[i] == '['
    ensures Agrees(r, text, ParseValue(text[i..]))
    decreases |text| - i, 0
  {
    BracketValue(text[i..]);
    assert text[i..][1..] == text[i + 1..];
    hide ParseValue, ParseItems, Skip;
    var value := SkipAt(text, i + 1);
    if value < |text| && text[value] == ']' {
      assert text[value..][1..] == text[value + 1..];
      return Stop(Array(NoItem), value + 1);
    }
    var children := ItemsAt(text, value);
    match children
    case Stop(c, at) => return Stop(Array(c), at);
    case NoParse => return NoParse;
    case Unmodelled => return Unmodelled;
  }

  datatype Named = Named(name: string, value: Json)

  function ChainedMembers(values: seq<Named>, tail: Members): Members
    decreases |values|
  {
    if values == [] then tail
    else
      var last := values[|values| - 1];
      ChainedMembers(values[..|values| - 1], Member(last.name, last.value, tail))
  }

  function WithMembers(values: seq<Named>, r: Parsed<Members>): Parsed<Members> {
    if r.Parsed? then Parsed(ChainedMembers(values, r.value), r.rest) else r
  }

  lemma WithNoMember(r: Parsed<Members>)
    ensures WithMembers([], r) == r
  { }

  lemma WithOneMoreMember(values: seq<Named>, v: Named, r: Parsed<Members>)
    ensures WithMembers(values, WithMember(v.name, v.value, r)) == WithMembers(values + [v], r)
  {
    assert (values + [v])[..|values|] == values;
  }

  /** One name and value with the white space around them. */
  method MemberAt(text: string, i: nat) returns (r: Cursor<Named>)
    requires i <= |text|
    ensures r.NoParse? ==> ParseMembers(text[i..]) == Failed
    ensures r.Unmodelled? ==> ParseMembers(text[i..]) == Outside
    ensures r.Stop? ==> i < r.at <= |text|
    ensures r.Stop? ==>
              ParseMembers(text[i..]) == WithMember(r.value.name, r.value.value, MembersTail(text[r.at..]))
    decreases |text| - i, 2
  {
    hide ParseValue, ParseString, MembersTail;
    var at := SkipAt(text, i);
    var name := ParseStringAt(text, at);
    if !name.Stop? {
      return if name.NoParse? then NoParse else Unmodelled;
    }
    assert |text[name.at..]| < |text[at..]|;
    var colon := SkipAt(text, name.at);
    if colon == |text| || text[colon] != ':' {
      return NoParse;
    }
    assert text[colon..][1..] == text[colon + 1..];
    var begin := SkipAt(text, colon + 1);
    var v := ParseValueAt(text, begin);
    if !v.Stop? {
      return if v.NoParse? then NoParse else Unmodelled;
    }
    assert |text[v.at..]| < |text[begin..]|;
    var after := SkipAt(text, v.at);
    r := Stop(Named(name.value, v.value), after);
  }

  lemma MembersTailAt(text: string, i: nat)
    requires i <= |text|
    ensures MembersTail(text[i..]) ==
            if i == |text| then Failed
            else if text[i] == ',' then ParseMembers(text[i + 1..])
            else if text[i] == '}' then Parsed(NoMember, text[i + 1..])
            else Failed
  {
    hide ParseMembers;
    if i < |text| {
      assert text[i..][1..] == text[i + 1..];
    }
  }

  /** The children up to the closing bracket. */
  method MembersAt(text: string, i: nat) returns (r: Cursor<Members>)
    requires i <= |text|
    ensures Agrees(r, text, ParseMembers(text[i..]))
    decreases |text| - i, 3
  {
    hide ParseMembers, MembersTail, ChainedMembers;
    var next := MemberAt(text, i);
    if !next.Stop? {
      return if next.NoParse? then NoParse else Unmodelled;
    }
    var values, value := [next.value], next.at;
    WithNoMember(WithMember(next.value.name, next.value.value, MembersTail(text[next.at..])));
    WithOneMoreMember([], next.value, MembersTail(text[next.at..]));
    assert [] + [next.value] == [next.value];
    while value < |text| && text[value] == ','
      invariant i < value <= |text| && ParseMembers(text[i..]) == WithMembers(values, MembersTail(text[value..]))
      decreases |text| - value
    {
      MembersTailAt(text, value);
      next := MemberAt(text, value + 1);
      if !next.Stop? {
        return if next.NoParse? then NoParse else Unmodelled;
      }
      WithOneMoreMember(values, next.value, MembersTail(text[next.at..]));
      values, value := values + [next.value], next.at;
    }
    MembersTailAt(text, value);
    if value < |text| && text[value] == '}' {
      return Stop(ChainedMembers(values, NoMember), value + 1);
    }
    return NoParse;
  }

  method ParseObjectAt(text: string, i: nat) returns (r: Cursor<Json>)
    requires i < |text| && text[i] == '{'
    ensures Agrees(r, text, ParseValue(text[i..]))
    decreases |text| - i, 0
  {
    BracketValue(text[i..]);
    assert text[i..][1..] == text[i + 1..];
    hide ParseValue, ParseMembers, Skip;
    var value := SkipAt(text, i + 1);
    if value < |text| && text[value] == '}' {
      assert text[value..][1..] == text[value + 1..];
      return Stop(Object(NoMember), value + 1);
    }
    var children := MembersAt(text, value);
    match children
    case Stop(c, at) => return Stop(Object(c), at);
    case NoParse => return NoParse;
    case Unmodelled => return Unmodelled;
  }

  /** cJSON_ParseWithOpts: leading white space, one value, and on request nothing but white space after it. */
  method ParseWithOpts(text: string, requireNullTerminated: bool) returns (r: Cursor<Json>)
    ensures
      match ParseValue(Skip(text))
      case Failed => r == NoParse
      case Outside => r == Unmodelled
      case Parsed(v, rest) =>
        if requireNullTerminated && Skip(rest) != "" then r == NoParse
        else r.Stop? && r.value == v && r.at <= |text| && text[r.at..] == (if requireNullTerminated then "" else rest)
  {
    hide ParseValue;
    assert text[0..] == text;
    var i := SkipAt(text, 0);
    r := ParseValueAt(text, i);
    if r.Stop? && requireNullTerminated {
      var end := SkipAt(text, r.at);
      r := if end < |text| then NoParse else Stop(r.value, end);
    }
  }
}
