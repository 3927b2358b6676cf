/** cJSON_Minify of libjl777/cJSON.c: strips white space and comments outside of string literals, in
    place. On what the formatting printer wrote it leaves what the plain printer writes. */
module JsonMinify {
  import opened Json
  import opened JsonRoundTrip

  /** Unclosed: a string literal or a comment does not end before the text does, and the source would
      read past the end. */
  datatype Kept = Kept(text: string) | Unclosed

  function Cat(p: string, r: Kept): Kept { if r.Kept? then Kept(p + r.text) else r }

  predicate IsSpace(c: char) { c in {' ', '\t', '\r', '\n'} }

  /** The rest after a comment to the end of the line, starting at its line end. */
  function DropLine(s: string): (r: string)
    ensures |r| <= |s| && (r == "" || r[0] == '\n')
  {
    if s == "" || s[0] == '\n' then s else DropLine(s[1..])
  }

  predicate ClosesComment(s: string) { |s| > 1 && s[0] == '*' && s[1] == '/' }

  /** The rest from the end of a comment on. */
  function DropComment(s: string): (r: string)
    ensures |r| <= |s| && (r == "" || ClosesComment(r))
  {
    if s == "" || ClosesComment(s) then s else DropComment(s[1..])
  }

  /** The length of a string literal after its opening quote, closing quote included; 0 if it is unclosed. */
  function LiteralLength(s: string): (n: nat)
    ensures n <= |s|
  {
    if s == "" then 0
    else if s[0] == QUOTE then 1
    else
      var k := if s[0] == BACKSLASH then 2 else 1;
      if |s| < k then 0
      else
        var m := LiteralLength(s[k..]);
        if m == 0 then 0 else k + m
  }

  function Minify(s: string): Kept
    decreases |s|
  {
    if s == "" then Kept("")
    else if IsSpace(s[0]) then Minify(s[1..])
    else if s[0] == '/' && |s| > 1 && s[1] == '/' then Minify(DropLine(s[1..]))
    else if s[0] == '/' && |s| > 1 && s[1] == '*' then
      var r := DropComment(s[1..]);
      if r == "" then Unclosed else Minify(r[2..])
    else if s[0] == QUOTE then
      var n := LiteralLength(s[1..]);
      if n == 0 then Unclosed else Cat(s[..n + 1], Minify(s[n + 1..]))
    else Cat([s[0]], Minify(s[1..]))
  }

  // ----- minifying what was printed -----

  lemma CatCat(p: string, q: string, r: Kept)
    ensures Cat(p, Cat(q, r)) == Cat(p + q, r)
  {
    if r.Kept? {
      Concat(p, q, r.text);
    }
  }

  predicate Plain(c: char) { !IsSpace(c) && c != '/' && c != QUOTE }

  lemma {:induction false} MinifyPlain(p: string, rest: string)
    requires forall i | 0 <= i < |p| :: Plain(p[i])
    ensures Minify(p + rest) == Cat(p, Minify(rest))
  {
    if p == "" {
      assert p + rest == rest;
      assert Cat("", Minify(rest)) == Minify(rest) by {
        if Minify(rest).Kept? {
          assert "" + Minify(rest).text == Minify(rest).text;
        }
      }
    } else {
      assert (p + rest)[1..] == p[1..] + rest;
      MinifyPlain(p[1..], rest);
      assert Minify(p + rest) == Cat([p[0]], Minify(p[1..] + rest));
      hide Minify;
      CatCat([p[0]], p[1..], Minify(rest));
      assert [p[0]] + p[1..] == p;
    }
  }

  lemma {:induction false} MinifySpace(w: string, rest: string)
    requires forall i | 0 <= i < |w| :: IsSpace(w[i])
    ensures Minify(w + rest) == Minify(rest)
  {
    if w == "" {
      assert w + rest == rest;
    } else {
      assert (w + rest)[1..] == w[1..] + rest;
      MinifySpace(w[1..], rest);
    }
  }

  lemma {:induction false} TabsSpace(n: int)
    ensures forall i | 0 <= i < |Tabs(n)| :: IsSpace(Tabs(n)[i])
    decreases n
  {
    if n > 0 {
      TabsSpace(n - 1);
    }
  }

  lemma EscapedChar(c: char, rest: string)
    requires LiteralLength(rest) > 0
    ensures LiteralLength(EscapeChar(c) + rest) == |EscapeChar(c)| + LiteralLength(rest)
  {
    var e := EscapeChar(c);
    if |e| == 1 {
      assert (e + rest)[1..] == rest;
    } else if |e| == 2 {
      assert (e + rest)[2..] == rest;
    } else {
      var hex := e[2..];
      assert (e + rest)[2..] == hex + rest;
      PlainLiteral(hex, rest);
    }
  }

  lemma {:induction false} PlainLiteral(p: string, rest: string)
    requires LiteralLength(rest) > 0 && forall i | 0 <= i < |p| :: p[i] != QUOTE && p[i] != BACKSLASH
    ensures LiteralLength(p + rest) == |p| + LiteralLength(rest)
  {
    if p == "" {
      assert p + rest == rest;
    } else {
      assert (p + rest)[1..] == p[1..] + rest;
      PlainLiteral(p[1..], rest);
    }
  }

  lemma {:induction false} EscapedLength(v: string, rest: string)
    ensures LiteralLength(Escape(v) + ([QUOTE] + rest)) == |Escape(v)| + 1
  {
    if v == "" {
      assert Escape(v) + ([QUOTE] + rest) == [QUOTE] + rest;
    } else {
      var tail := Escape(v[1..]) + ([QUOTE] + rest);
      EscapedLength(v[1..], rest);
      EscapedChar(v[0], tail);
      Concat(EscapeChar(v[0]), Escape(v[1..]), [QUOTE] + rest);
    }
  }

  lemma MinifyQuote(v: string, rest: string)
    ensures Minify(Quote(v) + rest) == Cat(Quote(v), Minify(rest))
  {
    EscapedLength(v, rest);
    var q, s := Quote(v), Quote(v) + rest;
    assert s[1..] == Escape(v) + ([QUOTE] + rest);
    hide Escape, LiteralLength;
    assert s[..|q|] == q && s[|q|..] == rest;
  }

  /** Wherever a stands, minifying leaves b. */
  ghost predicate Minifies(a: string, b: string) { forall rest: string :: Minify(a + rest) == Cat(b, Minify(rest)) }

  lemma Compose(a: string, b: string, c: string, d: string)
    requires Minifies(a, b) && Minifies(c, d)
    ensures Minifies(a + c, b + d)
  {
    hide Minify, Cat;
    forall rest: string ensures Minify((a + c) + rest) == Cat(b + d, Minify(rest)) {
      Concat(a, c, rest);
      CatCat(b, d, Minify(rest));
    }
  }

  lemma PlainStays(p: string)
    requires forall i | 0 <= i < |p| :: Plain(p[i])
    ensures Minifies(p, p)
  {
    hide Minify;
    forall rest: string ensures Minify(p + rest) == Cat(p, Minify(rest)) {
      MinifyPlain(p, rest);
    }
  }

  lemma SpaceGoes(fmt: string)
    requires forall i | 0 <= i < |fmt| :: IsSpace(fmt[i])
    ensures Minifies(fmt, "")
  {
    hide Minify;
    forall rest: string ensures Minify(fmt + rest) == Cat("", Minify(rest)) {
      MinifySpace(fmt, rest);
      MinifyPlain("", rest);
      assert "" + rest == rest;
    }
  }

  lemma QuoteStays(v: string)
    ensures Minifies(Quote(v), Quote(v))
  {
    hide Minify, Quote;
    forall rest: string ensures Minify(Quote(v) + rest) == Cat(Quote(v), Minify(rest)) {
      MinifyQuote(v, rest);
    }
  }

  lemma ScalarStays(t: Json, depth: nat)
    requires !t.Array? && !t.Object?
    ensures Minifies(Text(t, depth, true), Text(t, depth, false))
  {
    hide Minifies;
    if t.String? {
      QuoteStays(t.s);
    } else {
      if t.Number? {
        DigitsStart(if t.n < 0 then -t.n else t.n);
      }
      PlainStays(Text(t, depth, true));
    }
  }

  lemma {:induction false} TextMinifies(t: Json, depth: nat)
    ensures Minifies(Text(t, depth, true), Text(t, depth, false))
    decreases t, 1
  {
    hide Minifies;
    match t
    case Array(items) =>
      if items.NoItem? {
        PlainStays("[]");
      } else {
        ItemsMinify(items, depth + 1);
        PlainStays("[");
        PlainStays("]");
        hide ItemsText;
        var m, m' := ItemsText(items, depth + 1, true), ItemsText(items, depth + 1, false);
        Compose("[", "[", m, m');
        Compose("[" + m, "[" + m', "]", "]");
      }
    case Object(members) =>
      PlainStays("{");
      PlainStays("}");
      SpaceGoes("\n");
      TabsSpace(depth);
      TabsSpace(depth - 1);
      SpaceGoes(Tabs(depth));
      SpaceGoes(Tabs(depth - 1));
      if members.NoMember? {
        assert "" + "" == "";
        Compose("\n", "", Tabs(depth - 1), "");
        Compose("{", "{", "\n" + Tabs(depth - 1), "" + "");
        Compose("{" + ("\n" + Tabs(depth - 1)), "{" + ("" + ""), "}", "}");
      } else {
        MembersMinify(members, depth + 1);
        hide MembersText;
        var m, m' := MembersText(members, depth + 1, true), MembersText(members, depth + 1, false);
        Compose("{", "{", "\n", "");
        Compose("{" + "\n", "{" + "", m, m');
        Compose("{" + "\n" + m, "{" + "" + m', Tabs(depth), "");
        Compose("{" + "\n" + m + Tabs(depth), "{" + "" + m' + "", "}", "}");
      }
    case _ => ScalarStays(t, depth);
  }

  lemma {:induction false} ItemsMinify(items: Items, depth: nat)
    ensures Minifies(ItemsText(items, depth, true), ItemsText(items, depth, false))
    decreases items, 0
  {
    hide Minifies, Text;
    match items
    case NoItem => PlainStays("");
    case Item(value, next) =>
      TextMinifies(value, depth);
      if next.Item? {
        ItemsMinify(next, depth);
        PlainStays(",");
        SpaceGoes(" ");
        var m, m' := ItemsText(next, depth, true), ItemsText(next, depth, false);
        Compose(" ", "", m, m');
        Compose(",", ",", " " + m, "" + m');
        Compose(Text(value, depth, true), Text(value, depth, false), "," + (" " + m), "," + ("" + m'));
      }
  }

  lemma {:induction false} MembersMinify(members: Members, depth: nat)
    ensures Minifies(MembersText(members, depth, true), MembersText(members, depth, false))
    decreases members, 0
  {
    hide Minifies, Text, Quote, Tabs;
    match members
    case NoMember => PlainStays("");
    case Member(name, value, next) =>
      TextMinifies(value, depth);
      MembersMinify(next, depth);
      MemberMinifies(members, depth);
  }

  lemma MemberMinifies(members: Members, depth: nat)
    requires members.Member? && Minifies(Text(members.value, depth, true), Text(members.value, depth, false))
    requires Minifies(MembersText(members.next, depth, true), MembersText(members.next, depth, false))
    ensures Minifies(MembersText(members, depth, true), MembersText(members, depth, false))
  {
    hide Minifies, Text, Quote, Tabs;
    var m, m' := MembersText(members.next, depth, true), MembersText(members.next, depth, false);
    var v, v', q, sep := Text(members.value, depth, true), Text(members.value, depth, false), Quote(members.name),
        if members.next.NoMember? then "" else ",";
    TabsSpace(depth);
    SpaceGoes(Tabs(depth));
    SpaceGoes("\n");
    SpaceGoes("\t");
    PlainStays(sep);
    PlainStays(":");
    QuoteStays(members.name);
    Compose("\n", "", m, m');
    Compose(sep, sep, "\n" + m, "" + m');
    Compose(v, v', sep + ("\n" + m), sep + ("" + m'));
    Compose("\t", "", v + (sep + ("\n" + m)), v' + (sep + ("" + m')));
    Compose(":", ":", "\t" + (v + (sep + ("\n" + m))), "" + (v' + (sep + ("" + m'))));
    Compose(q, q, ":" + ("\t" + (v + (sep + ("\n" + m)))), ":" + ("" + (v' + (sep + ("" + m')))));
    Compose(Tabs(depth), "", q + (":" + ("\t" + (v + (sep + ("\n" + m))))),
            q + (":" + ("" + (v' + (sep + ("" + m'))))));
  }

  /** Minifying the formatted print of any tree gives the unformatted print. */
  lemma MinifyPrinted(t: Json)
    ensures Minify(Text(t, 0, true)) == Kept(Text(t, 0, false))
  {
    TextMinifies(t, 0);
    hide Text;
    assert Minify(Text(t, 0, true) + "") == Cat(Text(t, 0, false), Minify(""));
    assert Text(t, 0, true) + "" == Text(t, 0, true) && Text(t, 0, false) + "" == Text(t, 0, false);
  }

  // ----- the in-place algorithm -----

  const NUL: char := 0 as char

  /** The C string held at the start of a buffer. */
  predicate HoldsString(buffer: seq<char>, s: string) {
    |s| < |buffer| && buffer[..|s|] == s && buffer[|s|] == NUL
  }

  /** The text still to read, which no write has reached yet. */
  ghost predicate Unread(json: array<char>, s: string, j: nat)
    reads json
  {
    && NulFree(s) && j <= |s| < json.Length && json[|s|] == NUL
    && forall k | j <= k < |s| :: json[k] == s[k]
  }

  lemma StepSpace(s: string, j: nat)
    requires j < |s| && IsSpace(s[j])
    ensures Minify(s[j..]) == Minify(s[j + 1..])
  {
    assert s[j..][1..] == s[j + 1..];
  }

  lemma StepLine(s: string, j: nat)
    requires j + 1 < |s| && s[j] == '/' && s[j + 1] == '/'
    ensures Minify(s[j..]) == Minify(DropLine(s[j..]))
  { }

  lemma StepComment(s: string, j: nat)
    requires j + 1 < |s| && s[j] == '/' && s[j + 1] == '*'
    ensures var r := DropComment(s[j..]); Minify(s[j..]) == if r == "" then Unclosed else Minify(r[2..])
  { }

  lemma StepLiteral(s: string, j: nat)
    requires j < |s| && s[j] == QUOTE
    ensures var n := LiteralLength(s[j + 1..]);
            Minify(s[j..]) == if n == 0 then Unclosed else Cat(s[j..j + 1 + n], Minify(s[j + 1 + n..]))
  {
    hide Minify, LiteralLength, Cat;
    var n := LiteralLength(s[j + 1..]);
    MinifyLiteral(s[j..]);
    assert s[j..][1..] == s[j + 1..];
    assert s[j..][..n + 1] == s[j..j + 1 + n] && s[j..][n + 1..] == s[j + 1 + n..];
  }

  lemma MinifyLiteral(t: string)
    requires t != "" && t[0] == QUOTE
    ensures var n := LiteralLength(t[1..]);
            Minify(t) == if n == 0 then Unclosed else Cat(t[..n + 1], Minify(t[n + 1..]))
  {
    hide LiteralLength, Cat;
  }

  lemma StepOther(s: string, j: nat)
    requires j < |s| && !IsSpace(s[j]) && s[j] != QUOTE
    requires s[j] == '/' && j + 1 < |s| ==> s[j + 1] != '/' && s[j + 1] != '*'
    ensures Minify(s[j..]) == Cat([s[j]], Minify(s[j + 1..]))
  {
    assert s[j..][1..] == s[j + 1..];
  }

  /** Runs to the end of the line. */
  method SkipLine(json: array<char>, ghost s: string, start: nat) returns (j: nat)
    requires Unread(json, s, start)
    ensures start <= j <= |s| && s[j..] == DropLine(s[start..])
  {
    j := start;
    while json[j] != NUL && json[j] != '\n'
      invariant start <= j <= |s| && DropLine(s[j..]) == DropLine(s[start..])
      decreases |s| - j
    {
      assert s[j..][1..] == s[j + 1..];
      j := j + 1;
    }
  }

  /** Runs to the end of a comment. */
  method SkipComment(json: array<char>, ghost s: string, start: nat) returns (j: nat)
    requires Unread(json, s, start) && DropComment(s[start..]) != ""
    ensures start + 2 <= j <= |s| && s[j..] == DropComment(s[start..])[2..]
  {
    j := start;
    while json[j] != NUL && !(json[j] == '*' && json[j + 1] == '/')
      invariant start <= j <= |s| && DropComment(s[j..]) == DropComment(s[start..])
      decreases |s| - j
    {
      assert s[j..][1..] == s[j + 1..];
      j := j + 1;
    }
    assert s[j..][2..] == s[j + 2..];
    j := j + 2;
  }

  /** Moves one character from the read cursor to the write cursor. */
  method CopyDown(json: array<char>, ghost s: string, into: nat, j: nat)
    requires Unread(json, s, j) && into <= j < |s|
    modifies json
    ensures Unread(json, s, j + 1)
    ensures json[..into + 1] == old(json[..into]) + [s[j]]
  {
    json[into] := json[j];
  }

  lemma LiteralStep(s: string, j: nat)
    requires j < |s| && LiteralLength(s[j..]) > 0
    ensures s[j] == QUOTE ==> LiteralLength(s[j..]) == 1
    ensures s[j] == BACKSLASH ==>
              j + 1 < |s| && LiteralLength(s[j + 2..]) > 0 && LiteralLength(s[j..]) == 2 + LiteralLength(s[j + 2..])
    ensures s[j] != QUOTE && s[j] != BACKSLASH ==>
              LiteralLength(s[j + 1..]) > 0 && LiteralLength(s[j..]) == 1 + LiteralLength(s[j + 1..])
  {
    assert s[j..][1..] == s[j + 1..];
    if j + 1 < |s| {
      assert s[j..][2..] == s[j + 2..];
    }
  }

  /** Copies the rest of a string literal down. */
  method CopyLiteral(json: array<char>, ghost s: string, to: nat, start: nat) returns (into: nat, j: nat)
    requires Unread(json, s, start) && to <= start && LiteralLength(s[start..]) > 0
    modifies json
    ensures j == start + LiteralLength(s[start..]) && into == to + (j - start) && Unread(json, s, j)
    ensures json[..into] == old(json[..to]) + s[start..j]
  {
    hide LiteralLength;
    into, j := to, start;
    ghost var n := LiteralLength(s[start..]);
    while json[j] != NUL && json[j] != QUOTE
      invariant start <= j && into == to + (j - start) && Unread(json, s, j)
      invariant LiteralLength(s[j..]) > 0 && j + LiteralLength(s[j..]) == start + n
      invariant json[..into] == old(json[..to]) + s[start..j]
      decreases |s| - j
    {
      LiteralStep(s, j);
      if json[j] == BACKSLASH {
        into, j := Move(json, s, into, j, start, old(json[..to]));
      }
      into, j := Move(json, s, into, j, start, old(json[..to]));
    }
    if j < |s| {
      LiteralStep(s, j);
    }
    into, j := Move(json, s, into, j, start, old(json[..to]));
  }

  /** One copy inside a literal that began at start, when the text before it was kept as p. */
  method Move(json: array<char>, ghost s: string, into: nat, j: nat, ghost start: nat, ghost p: string)
      returns (into': nat, j': nat)
    requires Unread(json, s, j) && start <= j && into == |p| + (j - start) && into <= j < |s|
             && json[..into] == p + s[start..j]
    modifies json
    ensures into' == into + 1 && j' == j + 1 && Unread(json, s, j') && json[..into'] == p + s[start..j']
  {
    assert s[start..j + 1] == s[start..j] + [s[j]];
    CopyDown(json, s, into, j);
    into', j' := into + 1, j + 1;
  }

  lemma MinifyEmpty()
    ensures Minify("") == Kept("")
  { }

  /** What was kept so far, and minifying the rest, is minifying the whole. */
  ghost predicate Halfway(json: array<char>, s: string, into: nat, j: nat)
    reads json
  {
    into <= j && Unread(json, s, j) && Cat(json[..into], Minify(s[j..])) == Minify(s)
  }

  /** A string literal, from its opening quote on. */
  method TakeLiteral(json: array<char>, ghost s: string, into: nat, j: nat) returns (into': nat, j': nat)
    requires Halfway(json, s, into, j) && Minify(s).Kept? && json[j] == QUOTE
    modifies json
    ensures j < j' && Halfway(json, s, into', j')
  {
    hide Minify, LiteralLength;
    StepLiteral(s, j);
    ghost var before := json[..into];
    CopyDown(json, s, into, j);
    into', j' := CopyLiteral(json, s, into + 1, j + 1);
    CatCat(before, s[j..j'], Minify(s[j'..]));
    assert json[..into'] == before + s[j..j'];
  }

  /** One character that is kept. */
  method TakeOther(json: array<char>, ghost s: string, into: nat, j: nat) returns (into': nat, j': nat)
    requires Halfway(json, s, into, j) && j < |s| && !IsSpace(s[j]) && s[j] != QUOTE
    requires s[j] == '/' && j + 1 < |s| ==> s[j + 1] != '/' && s[j + 1] != '*'
    modifies json
    ensures j < j' && Halfway(json, s, into', j')
  {
    hide Minify;
    StepOther(s, j);
    CatCat(json[..into], [s[j]], Minify(s[j + 1..]));
    CopyDown(json, s, into, j);
    into', j' := into + 1, j + 1;
  }

  method MinifyInPlace(json: array<char>, ghost s: string) returns (into: nat)
    requires NulFree(s) && HoldsString(json[..], s) && Minify(s).Kept?
    modifies json
    ensures HoldsString(json[..], Minify(s).text) && into == |Minify(s).text| <= |s|
  {
    hide Minify, LiteralLength, DropLine, DropComment;
    into := 0;
    var j := 0;
    assert s[0..] == s;
    assert Cat("", Minify(s)) == Minify(s) by { assert "" + Minify(s).text == Minify(s).text; }
    while json[j] != NUL
      invariant Halfway(json, s, into, j)
      decreases |s| - j
    {
      var c := json[j];
      if IsSpace(c) {
        StepSpace(s, j);
        j := j + 1;
      } else if c == '/' && json[j + 1] == '/' {
        StepLine(s, j);
        j := SkipLine(json, s, j);
      } else if c == '/' && json[j + 1] == '*' {
        StepComment(s, j);
        j := SkipComment(json, s, j);
      } else if c == QUOTE {
        into, j := TakeLiteral(json, s, into, j);
      } else {
        into, j := TakeOther(json, s, into, j);
      }
    }
    assert s[j..] == "";
    MinifyEmpty();
    assert json[..into] + "" == json[..into];
    ghost var kept := json[..into];
    json[into] := NUL;
    assert json[..into] == kept;
  }
}
