/** The two-pass printer of libjl777/cJSON.c: a first pass adds up the length of the output, then a
    buffer of that length is filled. Every write lands inside the buffer, and the buffer holds the text. */
module JsonPrint {
  import opened Json
  import opened JsonRoundTrip
  import opened JsonMinify

  // ----- writing into a buffer -----

  /** Copies a C string, terminator included. */
  method StrCpy(out: array<char>, ptr: nat, s: string) returns (end: nat)
    requires ptr + |s| < out.Length
    modifies out
    ensures end == ptr + |s| && out[..end] == old(out[..ptr]) + s && out[end] == NUL
  {
    for i := 0 to |s|
      invariant out[..ptr + i] == old(out[..ptr]) + s[..i]
    {
      out[ptr + i] := s[i];
    }
    end := ptr + |s|;
    out[end] := NUL;
  }

  method PutChar(out: array<char>, ptr: nat, c: char) returns (end: nat)
    requires ptr < out.Length
    modifies out
    ensures end == ptr + 1 && out[..end] == old(out[..ptr]) + [c]
  {
    out[ptr] := c;
    end := ptr + 1;
  }

  /** Writes the closing character and the terminator. */
  method Close(out: array<char>, ptr: nat, c: char, ghost s: string)
    requires ptr + 1 < out.Length && ptr == |s| && out[..ptr] == s
    modifies out
    ensures HoldsString(out[..], s + [c])
  {
    out[ptr] := c;
    out[ptr + 1] := NUL;
  }

  method PutTabs(out: array<char>, ptr: nat, n: int) returns (end: nat)
    requires ptr + |Tabs(n)| <= out.Length
    modifies out
    ensures end == ptr + |Tabs(n)| && out[..end] == old(out[..ptr]) + Tabs(n)
  {
    end := ptr;
    var j := 0;
    while j < n
      invariant 0 <= j && (n >= 0 ==> j <= n) && (n < 0 ==> j == 0)
      invariant end + |Tabs(n - j)| == ptr + |Tabs(n)|
      invariant out[..end] + Tabs(n - j) == old(out[..ptr]) + Tabs(n)
    {
      end := PutChar(out, end, '\t');
      j := j + 1;
    }
  }

  lemma {:induction false} TabsLength(n: int)
    ensures |Tabs(n)| == if n <= 0 then 0 else n
    decreases n
  {
    if n > 0 {
      TabsLength(n - 1);
    }
  }

  // ----- strings -----

  lemma {:induction false} EscapeAppend(s: string, i: nat)
    requires i < |s|
    ensures Escape(s[i..]) == EscapeChar(s[i]) + Escape(s[i + 1..])
  {
    assert s[i..][1..] == s[i + 1..];
  }

  method PrintStringPtr(str: string) returns (out: array<char>)
    requires NulFree(str)
    ensures fresh(out) && HoldsString(out[..], Quote(str))
  {
    hide Escape;
    var len: nat := 0;
    assert str[0..] == str;
    for i := 0 to |str|
      invariant len + |Escape(str[i..])| == |Escape(str)|
    {
      EscapeAppend(str, i);
      len := len + 1;
      var token := str[i];
      if token in {QUOTE, BACKSLASH, BACKSPACE, FORMFEED, '\n', '\r', '\t'} {
        len := len + 1;
      } else if token as int < 32 {
        len := len + 5;
      }
    }
    assert str[|str|..] == "";
    EscapeEmpty();
    out := new char[len + 3];
    var ptr2: nat := PutChar(out, 0, QUOTE);
    for i := 0 to |str|
      invariant ptr2 <= out.Length && ptr2 + |Escape(str[i..])| == len + 1
      invariant out[..ptr2] + Escape(str[i..]) == [QUOTE] + Escape(str)
    {
      EscapeAppend(str, i);
      ptr2 := PutEscaped(out, ptr2, str[i]);
    }
    ptr2 := PutChar(out, ptr2, QUOTE);
    ptr2 := PutChar(out, ptr2, NUL);
  }

  lemma EscapeEmpty()
    ensures Escape("") == ""
  { }

  method PutEscaped(out: array<char>, ptr: nat, c: char) returns (end: nat)
    requires c != NUL && ptr + |EscapeChar(c)| < out.Length
    modifies out
    ensures end == ptr + |EscapeChar(c)| && out[..end] == old(out[..ptr]) + EscapeChar(c)
  {
    if c as int > 31 && c != QUOTE && c != BACKSLASH {
      end := PutChar(out, ptr, c);
    } else {
      end := PutChar(out, ptr, BACKSLASH);
      if c == BACKSLASH || c == QUOTE {
        end := PutChar(out, end, c);
      } else if c == BACKSPACE {
        end := PutChar(out, end, 'b');
      } else if c == FORMFEED {
        end := PutChar(out, end, 'f');
      } else if c == '\n' {
        end := PutChar(out, end, 'n');
      } else if c == '\r' {
        end := PutChar(out, end, 'r');
      } else if c == '\t' {
        end := PutChar(out, end, 't');
      } else {
        end := StrCpy(out, end, ['u', '0', '0', HexDigit(c as int / 16), HexDigit(c as int % 16)]);
      }
    }
  }

  // ----- numbers -----

  lemma {:induction false} DigitsLength(n: nat, k: nat, bound: nat)
    requires n < bound && PowerOfTen(k, bound) && k > 0
    ensures |Digits(n)| <= k
  {
    if n >= 10 {
      DigitsLength(n / 10, k - 1, bound / 10);
    }
  }

  predicate PowerOfTen(k: nat, b: nat)
    decreases k
  {
    if k == 0 then b == 1 else b % 10 == 0 && PowerOfTen(k - 1, b / 10)
  }

  lemma DecimalLength(n: int)
    requires -EXACT < n < EXACT
    ensures |Decimal(n)| <= 17
  {
    assert PowerOfTen(16, 10_000_000_000_000_000) by {
      assert PowerOfTen(0, 1) && PowerOfTen(1, 10) && PowerOfTen(2, 100) && PowerOfTen(3, 1000);
      assert PowerOfTen(4, 10_000) && PowerOfTen(5, 100_000) && PowerOfTen(6, 1_000_000) && PowerOfTen(7, 10_000_000);
      assert PowerOfTen(8, 100_000_000) && PowerOfTen(9, 1_000_000_000) && PowerOfTen(10, 10_000_000_000);
      assert PowerOfTen(11, 100_000_000_000) && PowerOfTen(12, 1_000_000_000_000) && PowerOfTen(13, 10_000_000_000_000);
      assert PowerOfTen(14, 100_000_000_000_000) && PowerOfTen(15, 1_000_000_000_000_000);
    }
    DigitsLength(if n < 0 then -n else n, 16, 10_000_000_000_000_000);
  }

  method PrintNumber(n: int) returns (out: array<char>)
    requires -EXACT < n < EXACT
    ensures fresh(out) && HoldsString(out[..], Decimal(n))
  {
    DecimalLength(n);
    out := new char[if n >= 1 then 24 else 64];
    var end := StrCpy(out, 0, Decimal(n));
  }

  // ----- arrays -----

  function Size(t: Json): nat {
    match t
    case Array(items) => 1 + ItemsSize(items)
    case Object(members) => 1 + MembersSize(members)
    case _ => 0
  }

  function ItemsSize(items: Items): nat { if items.NoItem? then 0 else 1 + Size(items.value) + ItemsSize(items.next) }
  function MembersSize(members: Members): nat {
    if members.NoMember? then 0 else 1 + Size(members.value) + MembersSize(members.next)
  }

  /** The printed entries, before they are put together. */
  function Entries(items: Items, depth: nat, fmt: bool): seq<string> {
    if items.NoItem? then [] else [Text(items.value, depth, fmt)] + Entries(items.next, depth, fmt)
  }

  function Separator(last: bool, fmt: bool): string { if last then "" else "," + When(fmt, " ") }

  /** The entries from i on, put together. */
  function Joined(entries: seq<string>, i: nat, fmt: bool): string
    requires i <= |entries|
    decreases |entries| - i
  {
    if i == |entries| then ""
    else entries[i] + (Separator(i == |entries| - 1, fmt) + Joined(entries, i + 1, fmt))
  }

  /** What the first pass adds for the entries from i on. */
  function Budget(entries: seq<string>, i: nat, fmt: bool): nat
    requires i <= |entries|
    decreases |entries| - i
  {
    if i == |entries| then 0 else |entries[i]| + 2 + (if fmt then 1 else 0) + Budget(entries, i + 1, fmt)
  }

  lemma {:induction false} BudgetAppend(entries: seq<string>, e: string, i: nat, fmt: bool)
    requires i <= |entries|
    ensures Budget(entries + [e], i, fmt) == Budget(entries, i, fmt) + |e| + 2 + (if fmt then 1 else 0)
    decreases |entries| - i
  {
    if i < |entries| {
      BudgetAppend(entries, e, i + 1, fmt);
    } else {
      assert (entries + [e])[i] == e;
      assert Budget(entries + [e], i + 1, fmt) == 0;
    }
  }

  lemma {:induction false} JoinedShift(e: string, entries: seq<string>, i: nat, fmt: bool)
    requires i <= |entries|
    ensures Joined([e] + entries, i + 1, fmt) == Joined(entries, i, fmt)
    decreases |entries| - i
  {
    if i < |entries| {
      JoinedShift(e, entries, i + 1, fmt);
    }
  }

  lemma {:induction false} JoinedEntries(items: Items, depth: nat, fmt: bool)
    ensures Joined(Entries(items, depth, fmt), 0, fmt) == ItemsText(items, depth, fmt)
    ensures |Entries(items, depth, fmt)| == 0 <==> items.NoItem?
  {
    hide Text;
    if items.Item? {
      var e, es := Text(items.value, depth, fmt), Entries(items.next, depth, fmt);
      JoinedEntries(items.next, depth, fmt);
      JoinedShift(e, es, 0, fmt);
      assert Joined([e] + es, 0, fmt) == e + (Separator(es == [], fmt) + Joined(es, 0, fmt));
      hide Joined, Entries;
    }
  }

  /** The C string of a buffer, as strlen and strcpy see it. */
  method CString(buffer: array<char>, ghost s: string) returns (r: string)
    requires NulFree(s) && HoldsString(buffer[..], s)
    ensures r == s
  {
    assert forall k | 0 <= k < |s| :: buffer[k] == s[k] && s[k] != NUL;
    var n := 0;
    while buffer[n] != NUL
      invariant n <= |s|
      decreases |s| - n
    {
      n := n + 1;
    }
    r := buffer[..n];
  }

  method PutEntry(out: array<char>, ptr: nat, entry: string, last: bool, fmt: bool) returns (end: nat)
    requires ptr + |entry| + 2 < out.Length
    modifies out
    ensures end == ptr + |entry| + |Separator(last, fmt)|
            && out[..end] == old(out[..ptr]) + (entry + Separator(last, fmt))
  {
    end := StrCpy(out, ptr, entry);
    if !last {
      end := PutChar(out, end, ',');
      if fmt {
        end := PutChar(out, end, ' ');
      }
    }
  }

  lemma Insert(text: string, entry: string, sep: string, rest: string)
    ensures (text + (entry + sep)) + rest == text + (entry + (sep + rest))
  {
    Concat(text, entry + sep, rest);
    Concat(entry, sep, rest);
  }

  method ComposeArray(entries: seq<string>, len: nat, fmt: bool) returns (out: array<char>)
    requires |entries| > 0 && len == 5 + Budget(entries, 0, fmt)
    ensures fresh(out) && HoldsString(out[..], "[" + Joined(entries, 0, fmt) + "]")
  {
    hide Joined, Budget, Separator;
    out := new char[len];
    var ptr: nat := PutChar(out, 0, '[');
    for i := 0 to |entries|
      invariant ptr <= out.Length && ptr + Budget(entries, i, fmt) + 4 <= len
      invariant out[..ptr] + Joined(entries, i, fmt) == "[" + Joined(entries, 0, fmt)
    {
      JoinStep(entries, i, fmt);
      ghost var text := out[..ptr];
      ptr := PutEntry(out, ptr, entries[i], i == |entries| - 1, fmt);
      Insert(text, entries[i], Separator(i == |entries| - 1, fmt), Joined(entries, i + 1, fmt));
    }
    JoinEnd(entries, fmt);
    Close(out, ptr, ']', "[" + Joined(entries, 0, fmt));
  }

  lemma JoinStep(entries: seq<string>, i: nat, fmt: bool)
    requires i < |entries|
    ensures Joined(entries, i, fmt) == entries[i] + (Separator(i == |entries| - 1, fmt) + Joined(entries, i + 1, fmt))
    ensures Budget(entries, i, fmt) == |entries[i]| + 2 + (if fmt then 1 else 0) + Budget(entries, i + 1, fmt)
    ensures |Separator(i == |entries| - 1, fmt)| <= 1 + (if fmt then 1 else 0)
  { }

  lemma JoinEnd(entries: seq<string>, fmt: bool)
    ensures Joined(entries, |entries|, fmt) == "" && Budget(entries, |entries|, fmt) == 0
  { }

  // ----- objects -----

  datatype Pair = Pair(name: string, entry: string)

  function Pairs(members: Members, depth: nat, fmt: bool): seq<Pair> {
    if members.NoMember? then []
    else [Pair(Quote(members.name), Text(members.value, depth, fmt))] + Pairs(members.next, depth, fmt)
  }

  /** One line of an object. */
  function Line(pair: Pair, last: bool, depth: nat, fmt: bool): string {
    When(fmt, Tabs(depth))
        + (pair.name + (":" + (When(fmt, "\t") + (pair.entry + ((if last then "" else ",") + When(fmt, "\n"))))))
  }

  function Lines(pairs: seq<Pair>, i: nat, depth: nat, fmt: bool): string
    requires i <= |pairs|
    decreases |pairs| - i
  {
    if i == |pairs| then "" else Line(pairs[i], i == |pairs| - 1, depth, fmt) + Lines(pairs, i + 1, depth, fmt)
  }

  function LineBudget(pair: Pair, depth: nat, fmt: bool): nat {
    |pair.entry| + |pair.name| + 2 + (if fmt then 2 + depth else 0)
  }

  function LinesBudget(pairs: seq<Pair>, i: nat, depth: nat, fmt: bool): nat
    requires i <= |pairs|
    decreases |pairs| - i
  {
    if i == |pairs| then 0 else LineBudget(pairs[i], depth, fmt) + LinesBudget(pairs, i + 1, depth, fmt)
  }

  lemma LineFits(pair: Pair, last: bool, depth: nat, fmt: bool)
    ensures |Line(pair, last, depth, fmt)| <= LineBudget(pair, depth, fmt)
  {
    TabsLength(depth);
  }

  lemma {:induction false} LinesBudgetAppend(pairs: seq<Pair>, p: Pair, i: nat, depth: nat, fmt: bool)
    requires i <= |pairs|
    ensures LinesBudget(pairs + [p], i, depth, fmt) == LinesBudget(pairs, i, depth, fmt) + LineBudget(p, depth, fmt)
    decreases |pairs| - i
  {
    hide LineBudget;
    if i < |pairs| {
      LinesBudgetAppend(pairs, p, i + 1, depth, fmt);
    } else {
      assert (pairs + [p])[i] == p;
      assert LinesBudget(pairs + [p], i + 1, depth, fmt) == 0;
    }
  }

  lemma {:induction false} LinesShift(p: Pair, pairs: seq<Pair>, i: nat, depth: nat, fmt: bool)
    requires i <= |pairs|
    ensures Lines([p] + pairs, i + 1, depth, fmt) == Lines(pairs, i, depth, fmt)
    decreases |pairs| - i
  {
    hide Line;
    if i < |pairs| {
      LinesShift(p, pairs, i + 1, depth, fmt);
    }
  }

  lemma {:induction false} LinesOfPairs(members: Members, depth: nat, fmt: bool)
    ensures Lines(Pairs(members, depth, fmt), 0, depth, fmt) == MembersText(members, depth, fmt)
    ensures |Pairs(members, depth, fmt)| == 0 <==> members.NoMember?
  {
    hide Text, Quote, Tabs;
    if members.Member? {
      var p, ps := Pair(Quote(members.name), Text(members.value, depth, fmt)), Pairs(members.next, depth, fmt);
      LinesOfPairs(members.next, depth, fmt);
      LinesShift(p, ps, 0, depth, fmt);
      assert Lines([p] + ps, 0, depth, fmt) == Line(p, ps == [], depth, fmt) + Lines(ps, 0, depth, fmt);
      hide Lines, Pairs;
      var sep, nl, m := if members.next.NoMember? then "" else ",", When(fmt, "\n"),
          MembersText(members.next, depth, fmt);
      LineThen(When(fmt, Tabs(depth)), p.name, When(fmt, "\t"), p.entry, sep, nl, m);
    }
  }

  lemma LineThen(t: string, q: string, tab: string, v: string, sep: string, nl: string, m: string)
    ensures (t + (q + (":" + (tab + (v + (sep + nl)))))) + m == t + (q + (":" + (tab + (v + (sep + (nl + m))))))
  {
    Concat(t, q + (":" + (tab + (v + (sep + nl)))), m);
    Concat(q, ":" + (tab + (v + (sep + nl))), m);
    Concat(":", tab + (v + (sep + nl)), m);
    Concat(tab, v + (sep + nl), m);
    Concat(v, sep + nl, m);
    Concat(sep, nl, m);
  }

  /** Appends s, if at all, to a line x that was begun after p. */
  method PutIf(out: array<char>, ptr: nat, cond: bool, s: string, ghost p: string, ghost x: string) returns (end: nat)
    requires ptr + |When(cond, s)| < out.Length && ptr == |p| + |x| && out[..ptr] == p + x
    modifies out
    ensures end == ptr + |When(cond, s)| && out[..end] == p + (x + When(cond, s))
  {
    if cond {
      end := StrCpy(out, ptr, s);
      Concat(p, x, s);
    } else {
      end := ptr;
      assert x + "" == x;
    }
  }

  method PutLine(out: array<char>, ptr: nat, pair: Pair, last: bool, depth: nat, fmt: bool) returns (end: nat)
    requires ptr + LineBudget(pair, depth, fmt) < out.Length
    modifies out
    ensures end == ptr + |Line(pair, last, depth, fmt)| && end <= out.Length
            && out[..end] == old(out[..ptr]) + Line(pair, last, depth, fmt)
  {
    ghost var p, t := out[..ptr], When(fmt, Tabs(depth));
    TabsLength(depth);
    LeftToRight(t, pair.name, When(fmt, "\t"), pair.entry, When(!last, ","), When(fmt, "\n"));
    hide Tabs;
    end := ptr;
    if fmt {
      end := PutTabs(out, end, depth);
    }
    assert out[..end] == p + t;
    end := PutIf(out, end, true, pair.name, p, t);
    end := PutIf(out, end, true, ":", p, t + pair.name);
    end := PutIf(out, end, fmt, "\t", p, t + pair.name + ":");
    end := PutIf(out, end, true, pair.entry, p, t + pair.name + ":" + When(fmt, "\t"));
    end := PutIf(out, end, !last, ",", p, t + pair.name + ":" + When(fmt, "\t") + pair.entry);
    end := PutIf(out, end, fmt, "\n", p, t + pair.name + ":" + When(fmt, "\t") + pair.entry + When(!last, ","));
  }

  lemma LeftToRight(t: string, q: string, tab: string, v: string, sep: string, nl: string)
    ensures t + q + ":" + tab + v + sep + nl == t + (q + (":" + (tab + (v + (sep + nl)))))
  {
    Concat(t + q + ":" + tab + v, sep, nl);
    Concat(t + q + ":" + tab, v, sep + nl);
    Concat(t + q + ":", tab, v + (sep + nl));
    Concat(t + q, ":", tab + (v + (sep + nl)));
    Concat(t, q, ":" + (tab + (v + (sep + nl))));
  }

  lemma LinesStep(pairs: seq<Pair>, i: nat, depth: nat, fmt: bool)
    requires i < |pairs|
    ensures Lines(pairs, i, depth, fmt) == Line(pairs[i], i == |pairs| - 1, depth, fmt)
            + Lines(pairs, i + 1, depth, fmt)
    ensures LinesBudget(pairs, i, depth, fmt) == LineBudget(pairs[i], depth, fmt)
            + LinesBudget(pairs, i + 1, depth, fmt)
    ensures |Line(pairs[i], i == |pairs| - 1, depth, fmt)| <= LineBudget(pairs[i], depth, fmt)
  {
    LineFits(pairs[i], i == |pairs| - 1, depth, fmt);
  }

  lemma LinesEnd(pairs: seq<Pair>, depth: nat, fmt: bool)
    ensures Lines(pairs, |pairs|, depth, fmt) == "" && LinesBudget(pairs, |pairs|, depth, fmt) == 0
  { }

  method ComposeObject(pairs: seq<Pair>, len: nat, depth: nat, fmt: bool) returns (out: array<char>)
    requires depth > 0 && len == 7 + (if fmt then depth else 0) + LinesBudget(pairs, 0, depth, fmt)
    ensures fresh(out)
    ensures HoldsString(out[..], "{" + When(fmt, "\n") + Lines(pairs, 0, depth, fmt) + When(fmt, Tabs(depth - 1)) + "}")
  {
    hide Lines, LinesBudget, Line, LineBudget;
    out := new char[len];
    var ptr: nat := PutChar(out, 0, '{');
    if fmt {
      ptr := PutChar(out, ptr, '\n');
    }
    ghost var head := "{" + When(fmt, "\n");
    assert out[..ptr] == head;
    for i := 0 to |pairs|
      invariant ptr <= out.Length && ptr + LinesBudget(pairs, i, depth, fmt) + 5 + (if fmt then depth else 0) <= len
      invariant out[..ptr] + Lines(pairs, i, depth, fmt) == head + Lines(pairs, 0, depth, fmt)
    {
      LinesStep(pairs, i, depth, fmt);
      ghost var text := out[..ptr];
      ptr := PutLine(out, ptr, pairs[i], i == |pairs| - 1, depth, fmt);
      Concat(text, Line(pairs[i], i == |pairs| - 1, depth, fmt), Lines(pairs, i + 1, depth, fmt));
    }
    LinesEnd(pairs, depth, fmt);
    ghost var body := head + Lines(pairs, 0, depth, fmt);
    assert out[..ptr] == body;
    if fmt {
      TabsLength(depth - 1);
      ptr := PutTabs(out, ptr, depth - 1);
    }
    Close(out, ptr, '}', body + When(fmt, Tabs(depth - 1)));
  }

  // ----- the whole printer -----

  method PrintValue(t: Json, depth: nat, fmt: bool) returns (out: array<char>)
    requires Printable(t)
    ensures fresh(out) && HoldsString(out[..], Text(t, depth, fmt))
    decreases Size(t), 1
  {
    match t
    case Null => out := StrDup("null");
    case False => out := StrDup("false");
    case True => out := StrDup("true");
    case Number(n) => out := PrintNumber(n);
    case String(s) => out := PrintStringPtr(s);
    case Array(items) => out := PrintArray(items, depth, fmt);
    case Object(members) => out := PrintObject(members, depth, fmt);
  }

  method StrDup(s: string) returns (out: array<char>)
    ensures fresh(out) && HoldsString(out[..], s)
  {
    out := new char[|s| + 1];
    var end := StrCpy(out, 0, s);
  }

  method PrintArray(items: Items, depth: nat, fmt: bool) returns (out: array<char>)
    requires PrintableItems(items)
    ensures fresh(out) && HoldsString(out[..], Text(Array(items), depth, fmt))
    decreases ItemsSize(items), 0
  {
    if items.NoItem? {
      out := StrDup("[]");
      return;
    }
    var entries, len, child := [], 5, items;
    while child.Item?
      invariant PrintableItems(child) && ItemsSize(child) <= ItemsSize(items)
      invariant entries + Entries(child, depth + 1, fmt) == Entries(items, depth + 1, fmt)
      invariant len == 5 + Budget(entries, 0, fmt)
      decreases ItemsSize(child)
    {
      var ret := PrintValue(child.value, depth + 1, fmt);
      TextNulFree(child.value, depth + 1, fmt);
      var text := CString(ret, Text(child.value, depth + 1, fmt));
      assert (entries + [text]) + Entries(child.next, depth + 1, fmt) == entries + Entries(child, depth + 1, fmt);
      BudgetAppend(entries, text, 0, fmt);
      entries, len := entries + [text], len + |text| + 2 + (if fmt then 1 else 0);
      child := child.next;
    }
    assert entries == Entries(items, depth + 1, fmt) by { assert entries + [] == entries; }
    JoinedEntries(items, depth + 1, fmt);
    hide Entries, Joined, Budget;
    out := ComposeArray(entries, len, fmt);
  }

  method PrintEmptyObject(depth: nat, fmt: bool) returns (out: array<char>)
    ensures fresh(out) && HoldsString(out[..], Text(Object(NoMember), depth, fmt))
  {
    TabsLength(depth - 1);
    out := new char[if fmt then depth + 4 else 3];
    var ptr := PutChar(out, 0, '{');
    if fmt {
      ptr := PutChar(out, ptr, '\n');
      ptr := PutTabs(out, ptr, depth - 1);
    }
    Close(out, ptr, '}', "{" + When(fmt, "\n" + Tabs(depth - 1)));
  }

  method PrintPair(name: string, value: Json, depth: nat, fmt: bool) returns (pair: Pair)
    requires NulFree(name) && Printable(value)
    ensures pair == Pair(Quote(name), Text(value, depth, fmt))
    decreases Size(value), 2
  {
    var str := PrintStringPtr(name);
    QuoteNulFree(name);
    var n := CString(str, Quote(name));
    var ret := PrintValue(value, depth, fmt);
    TextNulFree(value, depth, fmt);
    var entry := CString(ret, Text(value, depth, fmt));
    pair := Pair(n, entry);
  }

  /** The first pass over the members. */
  method CollectPairs(members: Members, depth: nat, fmt: bool) returns (pairs: seq<Pair>, len: nat)
    requires PrintableMembers(members)
    ensures pairs == Pairs(members, depth, fmt)
    ensures len == 7 + (if fmt then depth else 0) + LinesBudget(pairs, 0, depth, fmt)
    decreases MembersSize(members), 0
  {
    hide Text, Quote;
    var child := members;
    pairs, len := [], 7;
    if fmt {
      len := len + depth;
    }
    while child.Member?
      invariant PrintableMembers(child) && MembersSize(child) <= MembersSize(members)
      invariant pairs + Pairs(child, depth, fmt) == Pairs(members, depth, fmt)
      invariant len == 7 + (if fmt then depth else 0) + LinesBudget(pairs, 0, depth, fmt)
      decreases MembersSize(child)
    {
      var pair := PrintPair(child.name, child.value, depth, fmt);
      assert (pairs + [pair]) + Pairs(child.next, depth, fmt) == pairs + Pairs(child, depth, fmt);
      LinesBudgetAppend(pairs, pair, 0, depth, fmt);
      len := len + |pair.entry| + |pair.name| + 2 + (if fmt then 2 + depth else 0);
      pairs := pairs + [pair];
      child := child.next;
    }
    assert pairs + [] == pairs;
  }

  method PrintObject(members: Members, depth: nat, fmt: bool) returns (out: array<char>)
    requires PrintableMembers(members)
    ensures fresh(out) && HoldsString(out[..], Text(Object(members), depth, fmt))
    decreases MembersSize(members), 1
  {
    if members.NoMember? {
      out := PrintEmptyObject(depth, fmt);
      return;
    }
    var pairs, len := CollectPairs(members, depth + 1, fmt);
    LinesOfPairs(members, depth + 1, fmt);
    hide Pairs, Lines, LinesBudget, MembersText;
    out := ComposeObject(pairs, len, depth + 1, fmt);
  }

  // ----- printed text has no terminator inside -----

  lemma {:induction false} QuoteNulFree(s: string)
    requires NulFree(s)
    ensures NulFree(Quote(s)) && NulFree(Escape(s))
  {
    if s != "" {
      QuoteNulFree(s[1..]);
    }
  }

  lemma {:induction false} TabsNulFree(n: int)
    ensures NulFree(Tabs(n))
    decreases n
  {
    if n > 0 {
      TabsNulFree(n - 1);
    }
  }

  lemma {:induction false} TextNulFree(t: Json, depth: nat, fmt: bool)
    requires Printable(t)
    ensures NulFree(Text(t, depth, fmt))
    decreases t, 1
  {
    match t
    case Number(n) => DigitsStart(if n < 0 then -n else n);
    case String(s) => QuoteNulFree(s);
    case Array(items) =>
      ItemsNulFree(items, depth + 1, fmt);
      hide ItemsText;
    case Object(members) =>
      TabsNulFree(depth);
      TabsNulFree(depth - 1);
      MembersNulFree(members, depth + 1, fmt);
      hide Tabs, MembersText;
      SurroundNulFree(When(fmt, "\n"), MembersText(members, depth + 1, fmt), When(fmt, Tabs(depth)));
    case _ =>
  }

  lemma SurroundNulFree(nl: string, m: string, e: string)
    requires NulFree(nl) && NulFree(m) && NulFree(e)
    ensures NulFree("{" + nl + m + e + "}")
  {
    ConcatNulFree("{", nl);
    ConcatNulFree("{" + nl, m);
    ConcatNulFree("{" + nl + m, e);
  }

  lemma ConcatNulFree(a: string, b: string)
    requires NulFree(a) && NulFree(b)
    ensures NulFree(a + b)
  { }

  lemma {:induction false} ItemsNulFree(items: Items, depth: nat, fmt: bool)
    requires PrintableItems(items)
    ensures NulFree(ItemsText(items, depth, fmt))
    decreases items, 0
  {
    hide Text;
    if items.Item? {
      TextNulFree(items.value, depth, fmt);
      ItemsNulFree(items.next, depth, fmt);
    }
  }

  lemma {:induction false} MembersNulFree(members: Members, depth: nat, fmt: bool)
    requires PrintableMembers(members)
    ensures NulFree(MembersText(members, depth, fmt))
    decreases members, 0
  {
    hide Text, Quote, Tabs;
    if members.Member? {
      TextNulFree(members.value, depth, fmt);
      MembersNulFree(members.next, depth, fmt);
      QuoteNulFree(members.name);
      TabsNulFree(depth);
    }
  }
}
