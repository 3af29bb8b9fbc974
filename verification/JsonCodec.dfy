// What the printers, the parser and the minifier do together.
module JsonCodec {
  import opened CText
  import opened JsonValue
  import opened JsonParse
  import opened JsonRoundTrip
  import opened JsonMinify
  import opened JsonNode
  import opened JsonEdit
  import opened JsonParser
  import opened JsonWriter
  import opened JsonPrint
  import opened JsonPrintBuffered
  import Grammar = JsonGrammar

  /** A printed tree, parsed again, is an equal tree made of new nodes. */
  method PrintThenParse(item: Node, fmt: bool, ghost t: Tree) returns (copy: Node?, ghost t': Tree)
    requires TreeAt(item, t) && Printable(Value(t))
    ensures copy != null && TreeAt(copy, t') && fresh(Nodes(t')) && Value(t') == old(Value(t))
  {
    hide TreeAt, Nodes, Value, Text, Printable, ParseValue, Skip, Holds;
    ghost var v := Value(t);
    var out := PrintValue(item, 0, fmt, t);
    ghost var text := Text(v, 0, fmt);
    TextNulFree(v, 0, fmt);
    TextParses(v, fmt);
    var len := StrLen(out, 0, text);
    HeldText(out[..], text);
    var end;
    copy, end, t' := ParseWithOpts(out[..len], true);
  }

  lemma TextParses(v: Json, fmt: bool)
    requires Printable(v)
    ensures var text := Text(v, 0, fmt); ParseValue(Skip(text)) == Ok(v, []) && Skip([]) == []
  {
    hide ParseValue, Text, Printable;
    var text := Text(v, 0, fmt);
    RoundTrip(v, 0, fmt, []);
    assert text + [] == text;
    TextHead(v, 0, fmt);
  }

  /** A JSON text in any spelling, with blanks around it, is parsed to a tree of what it means. */
  method ParseSpelled(s: seq<byte>, ghost before: Grammar.Blanks, ghost d: Grammar.Doc, ghost after: Grammar.Blanks)
    returns (c: Node?, ghost t: Tree)
    requires NulFree(s) && Grammar.Good(d) && s == before + (Grammar.DocText(d) + after)
    ensures c != null && TreeAt(c, t) && fresh(Nodes(t)) && Value(t) == Grammar.Meaning(d)
  {
    hide TreeAt, Nodes, Value, ParseValue, Skip, Grammar.DocText, Grammar.Meaning;
    Grammar.SkipToDoc(before, d, after);
    BlanksEnd(d, after);
    Grammar.DocRead(d, after);
    var end;
    c, end, t := ParseWithOpts(s, true);
  }

  lemma BlanksEnd(d: Grammar.Doc, w: Grammar.Blanks)
    ensures Grammar.Separate(d, w) && Skip(w) == []
  {
    SkipBlank(w, []);
    assert w + [] == w;
    assert w != [] ==> IsSpace(w[0]);
  }

  lemma HeldText(out: seq<byte>, text: seq<byte>)
    requires Holds(out, 0, text)
    ensures |text| < |out| && out[..|text|] == text && out[|text|] == 0
  {
  }

  /** Minifying the formatted text gives the text that is printed without format. */
  method PrintThenMinify(item: Node, ghost t: Tree) returns (out: array<byte>)
    requires TreeAt(item, t) && Printable(Value(t))
    ensures fresh(out) && Holds(out[..], 0, Text(old(Value(t)), 0, false))
  {
    hide TreeAt, Nodes, Value, Text, Printable, Holds, Closed, Minified;
    ghost var v := Value(t);
    out := PrintValue(item, 0, true, t);
    TextNulFree(v, 0, true);
    MinifyPrint(v);
    HeldText(out[..], Text(v, 0, true));
    ghost var len := Minify(out, |Text(v, 0, true)|);
  }
}
