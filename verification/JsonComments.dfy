/** What cJSON_Minify of libjl777/cJSON.c takes out of a text: white space and comments between the tokens, and
    nothing else. */
module JsonComments {
  import opened Json
  import opened JsonRoundTrip
  import opened JsonMinify

  /** The pieces of a text: white space, a comment in slashes and stars, a comment to the end of the line, characters
      other than white space, slashes and quotes, and a string literal. */
  datatype Piece = Space(w: string) | Block(body: string) | Line(body: string) | Word(p: string) | Literal(body: string)

  function PieceText(p: Piece): string {
    match p
    case Space(w) => w
    case Block(body) => "/*" + body + "*/"
    case Line(body) => "//" + body + "\n"
    case Word(w) => w
    case Literal(body) => "\"" + body + "\""
  }

  /** Words and literals stay as they are. */
  function PieceKept(p: Piece): string { if p.Word? || p.Literal? then PieceText(p) else "" }

  /** In the body of a literal a quote comes only after a backslash that is not itself escaped. */
  predicate Escaped(s: string) {
    if s == "" then true
    else if s[0] as int == 0x5C then |s| > 1 && Escaped(s[2..])
    else s[0] as int != 0x22 && Escaped(s[1..])
  }

  /** The first star and slash after the opening slash are the last ones. The source looks for them from the opening
      star on, so that a slash right after it already closes the comment. */
  predicate EndsAtEnd(body: string) {
    var t := "*" + body + "*/";
    forall i | 0 <= i < |t| - 2 :: !(t[i] == '*' && t[i + 1] == '/')
  }

  predicate ValidPiece(p: Piece) {
    match p
    case Space(w) => forall i | 0 <= i < |w| :: w[i] as int in {0x20, 0x09, 0x0A, 0x0D}
    case Block(body) => EndsAtEnd(body)
    case Line(body) => forall i | 0 <= i < |body| :: body[i] as int != 0x0A
    case Word(w) => forall i | 0 <= i < |w| :: w[i] as int !in {0x20, 0x09, 0x0A, 0x0D, 0x2F, 0x22}
    case Literal(body) => Escaped(body)
  }

  lemma {:induction false} EscapedLiteral(body: string, rest: string)
    requires Escaped(body)
    ensures LiteralLength(body + ("\"" + rest)) == |body| + 1
    decreases |body|
  {
    var s := body + ("\"" + rest);
    if body == "" {
      assert s == "\"" + rest;
    } else if body[0] as int == 0x5C {
      assert s[2..] == body[2..] + ("\"" + rest);
      EscapedLiteral(body[2..], rest);
    } else {
      assert s[1..] == body[1..] + ("\"" + rest);
      EscapedLiteral(body[1..], rest);
    }
  }

  lemma LiteralStays(body: string, rest: string)
    requires Escaped(body)
    ensures Minify(PieceText(Literal(body)) + rest) == Cat(PieceText(Literal(body)), Minify(rest))
  {
    hide LiteralLength, Escaped;
    var q := PieceText(Literal(body));
    var s := q + rest;
    assert s[1..] == body + ("\"" + rest);
    EscapedLiteral(body, rest);
    MinifyLiteral(s);
    assert s[..|q|] == q && s[|q|..] == rest;
  }

  lemma {:induction false} DropsLine(body: string, rest: string)
    requires forall i | 0 <= i < |body| :: body[i] as int != 0x0A
    ensures DropLine(body + ("\n" + rest)) == "\n" + rest
  {
    var s := body + ("\n" + rest);
    if body == "" {
      assert s == "\n" + rest;
    } else {
      assert s[1..] == body[1..] + ("\n" + rest);
      DropsLine(body[1..], rest);
    }
  }

  lemma LineGoes(body: string, rest: string)
    requires forall i | 0 <= i < |body| :: body[i] as int != 0x0A
    ensures Minify(PieceText(Line(body)) + rest) == Minify(rest)
  {
    hide DropLine;
    var s := PieceText(Line(body)) + rest;
    assert s[1..] == ("/" + body) + ("\n" + rest);
    DropsLine("/" + body, rest);
    assert ("\n" + rest)[1..] == rest;
    assert Minify(s) == Minify("\n" + rest);
  }

  /** t is closed by its last two characters and not before. */
  lemma {:induction false} DropsComment(t: string, rest: string)
    requires |t| >= 2 && t[|t| - 2] == '*' && t[|t| - 1] == '/'
    requires forall i | 0 <= i < |t| - 2 :: !(t[i] == '*' && t[i + 1] == '/')
    ensures DropComment(t + rest) == "*/" + rest
  {
    var s := t + rest;
    if |t| == 2 {
      assert s == "*/" + rest;
    } else {
      assert s[1..] == t[1..] + rest;
      assert !(s[0] == '*' && s[1] == '/');
      DropsComment(t[1..], rest);
    }
  }

  lemma BlockGoes(body: string, rest: string)
    requires EndsAtEnd(body)
    ensures Minify(PieceText(Block(body)) + rest) == Minify(rest)
  {
    hide DropComment;
    var s, t := PieceText(Block(body)) + rest, "*" + body + "*/";
    assert s[1..] == t + rest;
    DropsComment(t, rest);
    assert ("*/" + rest)[2..] == rest;
  }

  lemma PieceMinifies(p: Piece)
    requires ValidPiece(p)
    ensures Minifies(PieceText(p), PieceKept(p))
  {
    hide Minify;
    match p
    case Space(w) => SpaceGoes(w);
    case Word(w) => PlainStays(w);
    case Literal(body) =>
      forall rest: string ensures Minify(PieceText(p) + rest) == Cat(PieceText(p), Minify(rest)) {
        LiteralStays(body, rest);
      }
    case Line(body) =>
      forall rest: string ensures Minify(PieceText(p) + rest) == Cat("", Minify(rest)) {
        LineGoes(body, rest);
        NothingBefore(rest);
      }
    case Block(body) =>
      forall rest: string ensures Minify(PieceText(p) + rest) == Cat("", Minify(rest)) {
        BlockGoes(body, rest);
        NothingBefore(rest);
      }
  }

  lemma NothingBefore(rest: string)
    ensures Cat("", Minify(rest)) == Minify(rest)
  {
    hide Minify;
    if Minify(rest).Kept? {
      assert "" + Minify(rest).text == Minify(rest).text;
    }
  }

  function TextOf(ps: seq<Piece>): string { if ps == [] then "" else PieceText(ps[0]) + TextOf(ps[1..]) }
  function KeptOf(ps: seq<Piece>): string { if ps == [] then "" else PieceKept(ps[0]) + KeptOf(ps[1..]) }

  lemma {:induction false} PiecesMinify(ps: seq<Piece>)
    requires forall i | 0 <= i < |ps| :: ValidPiece(ps[i])
    ensures Minifies(TextOf(ps), KeptOf(ps))
  {
    hide Minifies, PieceText, PieceKept;
    if ps == [] {
      PlainStays("");
    } else {
      PieceMinifies(ps[0]);
      PiecesMinify(ps[1..]);
      Compose(PieceText(ps[0]), PieceKept(ps[0]), TextOf(ps[1..]), KeptOf(ps[1..]));
    }
  }

  /** Minifying a text keeps its words and literals, in order and unchanged, and nothing else. */
  lemma MinifyKeeps(ps: seq<Piece>)
    requires forall i | 0 <= i < |ps| :: ValidPiece(ps[i])
    ensures Minify(TextOf(ps)) == Kept(KeptOf(ps))
  {
    PiecesMinify(ps);
    hide TextOf, KeptOf;
    assert Minify(TextOf(ps) + "") == Cat(KeptOf(ps), Minify(""));
    assert TextOf(ps) + "" == TextOf(ps) && KeptOf(ps) + "" == KeptOf(ps);
  }
}
