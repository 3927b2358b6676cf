/** Printer, minifier and parser of libjl777/cJSON.c together. */
module JsonAgreement {
  import opened Json
  import opened JsonRoundTrip
  import opened JsonMinify
  import opened JsonMinified
  import JsonStandard
  import opened JsonPrint
  import opened JsonParse

  /** Reads the C string in a buffer back, demanding that nothing follows the value. */
  method ParseBuffer(out: array<char>, ghost t: Json, ghost fmt: bool) returns (r: Cursor<Json>)
    requires Printable(t) && HoldsString(out[..], Text(t, 0, fmt))
    ensures r == Stop(t, |Text(t, 0, fmt)|)
  {
    hide Text, ParseValue;
    TextNulFree(t, 0, fmt);
    var text := CString(out, Text(t, 0, fmt));
    RoundTrip(t, 0, fmt, "");
    TextStart(t, 0, fmt);
    assert text + "" == text && "" + text == text;
    SkipBlank("", text);
    SkipBlank("", "");
    r := ParseWithOpts(text, true);
  }

  /** For every printable tree and either format, printing and parsing gives the tree back and uses up
      exactly the printed text. */
  method PrintThenParse(t: Json, fmt: bool) returns (r: Cursor<Json>)
    requires Printable(t)
    ensures r == Stop(t, |Text(t, 0, fmt)|)
  {
    var out := PrintValue(t, 0, fmt);
    r := ParseBuffer(out, t, fmt);
  }

  /** Minifying the formatted print in place leaves the unformatted print, which parses to the tree. */
  method PrintMinifyParse(t: Json) returns (r: Cursor<Json>)
    requires Printable(t)
    ensures r == Stop(t, |Text(t, 0, false)|)
  {
    var out := PrintValue(t, 0, true);
    TextNulFree(t, 0, true);
    MinifyPrinted(t);
    hide Minify, Text;
    var into := MinifyInPlace(out, Text(t, 0, true));
    r := ParseBuffer(out, t, false);
  }

  /** Minifying any accepted text in place and parsing it gives the tree that the text itself parses to. */
  method MinifyThenParse(json: array<char>, ghost s: string, ghost t: Json) returns (r: Cursor<Json>)
    requires NulFree(s) && HoldsString(json[..], s) && ParsesTo(s, t) && Closed(Skip(s))
    modifies json
    ensures r.Stop? && r.value == t
    ensures Minify(s).Kept? && HoldsString(json[..], Minify(s).text) && r.at == |Minify(s).text|
  {
    hide Minify, ParseValue, Skip, Closed;
    MinifyParse(s, t);
    MinifyNulFree(s);
    var into := MinifyInPlace(json, s);
    var text := CString(json, Minify(s).text);
    r := ParseWithOpts(text, true);
  }

  /** Any text of RFC 8259 with integers below 2^53, whatever its white space and escapes, is read as its tree, to the
      end. */
  method ParseStandard(text: string, ghost before: string, ghost c: JsonStandard.Cst, ghost after: string)
      returns (r: Cursor<Json>)
    requires JsonStandard.Ws(before) && JsonStandard.Valid(c) && JsonStandard.Ws(after)
    requires text == before + JsonStandard.Written(c, after)
    ensures r == Stop(JsonStandard.Means(c), |text|)
  {
    hide ParseValue, Skip;
    JsonStandard.TextRead(before, c, after);
    r := ParseWithOpts(text, true);
  }

  /** Different trees are printed differently. */
  lemma PrintInjective(a: Json, b: Json, fmt: bool)
    requires Printable(a) && Printable(b) && Text(a, 0, fmt) == Text(b, 0, fmt)
    ensures a == b
  {
    RoundTrip(a, 0, fmt, "");
    RoundTrip(b, 0, fmt, "");
  }
}
