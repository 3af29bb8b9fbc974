// Whole JSON texts in all their spellings (section 2 of RFC 8259): blanks between
// any two tokens, any spelling of strings and numbers. What such a text means
// does not mention the parser.
module JsonGrammar {
  import opened CText
  import opened JsonValue
  import opened JsonParse
  import opened JsonRoundTrip
  import Strings = JsonSpelling
  import Numbers = JsonNumeral

  type Blanks = w: seq<byte> | Blank(w)
    witness []

  datatype Doc =
    | NullDoc
    | FalseDoc
    | TrueDoc
    | NumberDoc(number: Numbers.Numeral)
    | StringDoc(pieces: seq<Strings.Piece>)
    | ArrayDoc(inside: Blanks, items: seq<Element>)
    | ObjectDoc(inside: Blanks, entries: seq<Entry>)

  /** A value with the blanks around it. */
  datatype Element = Element(before: Blanks, value: Doc, after: Blanks)

  /** A name and a value with the blanks around both. */
  datatype Entry = Entry(before: Blanks, name: seq<Strings.Piece>, between: Blanks, element: Element)

  predicate Good(d: Doc)
    decreases d
  {
    match d
    case NumberDoc(m) => Numbers.Proper(m)
    case StringDoc(ps) => Strings.AllSpelled(ps)
    case ArrayDoc(_, items) => GoodItems(items)
    case ObjectDoc(_, entries) => GoodEntries(entries)
    case _ => true
  }

  predicate GoodItems(items: seq<Element>)
    decreases items
  {
    items == [] || (Good(items[0].value) && GoodItems(items[1..]))
  }

  predicate GoodEntries(entries: seq<Entry>)
    decreases entries
  {
    entries == [] ||
    (Strings.AllSpelled(entries[0].name) && Good(entries[0].element.value) && GoodEntries(entries[1..]))
  }

  // ----- what is written

  function Quoted(ps: seq<Strings.Piece>): seq<byte>
    requires Strings.AllSpelled(ps)
  {
    [QUOTE] + (Strings.SpellingOf(ps) + [QUOTE])
  }

  function DocText(d: Doc): seq<byte>
    requires Good(d)
    decreases d
  {
    match d
    case NullDoc => NULL_TEXT
    case FalseDoc => FALSE_TEXT
    case TrueDoc => TRUE_TEXT
    case NumberDoc(m) => Numbers.NumeralText(m)
    case StringDoc(ps) => Quoted(ps)
    case ArrayDoc(w, items) => [LBRACKET] + (if items == [] then w + [RBRACKET] else ItemsText(items))
    case ObjectDoc(w, entries) => [LBRACE] + (if entries == [] then w + [RBRACE] else EntriesText(entries))
  }

  function ElementText(e: Element): seq<byte>
    requires Good(e.value)
    decreases e
  {
    e.before + (DocText(e.value) + e.after)
  }

  /** The items with the commas between them, and the closing bracket. */
  function ItemsText(items: seq<Element>): seq<byte>
    requires GoodItems(items)
    decreases items
  {
    if items == [] then []
    else ElementText(items[0]) + (if |items| == 1 then [RBRACKET] else [COMMA] + ItemsText(items[1..]))
  }

  function EntryText(e: Entry): seq<byte>
    requires Strings.AllSpelled(e.name) && Good(e.element.value)
    decreases e
  {
    e.before + (Quoted(e.name) + (e.between + ([COLON] + ElementText(e.element))))
  }

  function EntriesText(entries: seq<Entry>): seq<byte>
    requires GoodEntries(entries)
    decreases entries
  {
    if entries == [] then []
    else EntryText(entries[0]) + (if |entries| == 1 then [RBRACE] else [COMMA] + EntriesText(entries[1..]))
  }

  // ----- what it means

  function Meaning(d: Doc): Json
    requires Good(d)
    decreases d
  {
    match d
    case NullDoc => Null
    case FalseDoc => False
    case TrueDoc => True
    case NumberDoc(m) => Number(Numbers.Worth(m), Numbers.Whole(m))
    case StringDoc(ps) => String(Strings.StandsOf(ps))
    case ArrayDoc(_, items) => Array(ItemsMeaning(items))
    case ObjectDoc(_, entries) => Object(EntriesMeaning(entries))
  }

  function ItemsMeaning(items: seq<Element>): seq<Json>
    requires GoodItems(items)
    decreases items
  {
    if items == [] then [] else [Meaning(items[0].value)] + ItemsMeaning(items[1..])
  }

  function EntriesMeaning(entries: seq<Entry>): seq<Member>
    requires GoodEntries(entries)
    decreases entries
  {
    if entries == [] then []
    else [Member(Strings.StandsOf(entries[0].name), Meaning(entries[0].element.value))]
         + EntriesMeaning(entries[1..])
  }

  // ----- reading it

  /** A number needs something behind it that does not continue it. */
  predicate Separate(d: Doc, tail: seq<byte>) {
    d.NumberDoc? ==> Numbers.Ends(d.number, tail)
  }

  /** Blanks and then a byte that is neither a blank nor a part of a number. */
  lemma SeparateByMark(d: Doc, w: Blanks, mark: byte, rest: seq<byte>)
    requires mark == COMMA || mark == RBRACKET || mark == RBRACE
    ensures Separate(d, w + ([mark] + rest))
  {
    var t := w + ([mark] + rest);
    if w == [] {
      assert t[0] == mark;
    } else {
      assert t[0] == w[0] && IsSpace(w[0]);
    }
  }

  lemma SkipToMark(w: Blanks, mark: byte, rest: seq<byte>)
    requires mark > 32
    ensures Skip(w + ([mark] + rest)) == [mark] + rest
  {
    SkipBlank(w, [mark] + rest);
  }

  /** A value starts with a byte that is neither a blank nor a mark. */
  lemma DocHead(d: Doc, tail: seq<byte>)
    requires Good(d)
    ensures var s := DocText(d) + tail; s != [] && Starts(s[0])
  {
    hide Strings.SpellingOf, ItemsText, EntriesText;
    if d.NumberDoc? {
      NumeralHead(d.number, tail);
    }
  }

  lemma NumeralHead(m: Numbers.Numeral, tail: seq<byte>)
    requires Numbers.Proper(m)
    ensures var s := Numbers.NumeralText(m) + tail; s != [] && (s[0] == MINUS || IsDigit(s[0]))
  {
    hide Numbers.FractionText, Numbers.PowerText;
  }

  lemma SkipToDoc(w: Blanks, d: Doc, tail: seq<byte>)
    requires Good(d)
    ensures Skip(w + (DocText(d) + tail)) == DocText(d) + tail
  {
    hide DocText;
    SkipBlank(w, DocText(d) + tail);
    DocHead(d, tail);
  }

  lemma QuotedRead(ps: seq<Strings.Piece>, tail: seq<byte>)
    requires Strings.AllSpelled(ps)
    ensures ParseString(Quoted(ps) + tail) == Ok(Strings.StandsOf(ps), tail)
    ensures Hd(Quoted(ps) + tail) == QUOTE
  {
    hide ParseString, Strings.SpellingOf;
    Strings.StringRead(ps, tail);
    Assoc([QUOTE], Strings.SpellingOf(ps) + [QUOTE], tail);
    Assoc(Strings.SpellingOf(ps), [QUOTE], tail);
  }

  /** Every JSON text, however it is spelled and wherever it has blanks, is read as what it means. */
  lemma {:induction false} DocRead(d: Doc, tail: seq<byte>)
    requires Good(d) && Separate(d, tail)
    ensures ParseValue(DocText(d) + tail) == Ok(Meaning(d), tail)
    decreases d, 0
  {
    var s := DocText(d) + tail;
    match d
    case NullDoc => assert s[4..] == tail;
    case FalseDoc => assert s[0] == 102 && s[5..] == tail;
    case TrueDoc => assert s[0] == 116 && s[4..] == tail;
    case NumberDoc(m) => Numbers.NumeralRead(m, tail);
    case StringDoc(ps) => StringDocRead(ps, tail);
    case ArrayDoc(w, items) => ArrayRead(w, items, tail);
    case ObjectDoc(w, entries) => ObjectRead(w, entries, tail);
  }

  lemma StringDocRead(ps: seq<Strings.Piece>, tail: seq<byte>)
    requires Strings.AllSpelled(ps)
    ensures ParseValue(Quoted(ps) + tail) == Ok(String(Strings.StandsOf(ps)), tail)
  {
    hide ParseString, Quoted;
    QuotedRead(ps, tail);
  }

  lemma {:induction false} ArrayRead(w: Blanks, items: seq<Element>, tail: seq<byte>)
    requires GoodItems(items)
    ensures ParseValue(DocText(ArrayDoc(w, items)) + tail) == Ok(Array(ItemsMeaning(items)), tail)
    decreases items, 3
  {
    hide ParseValue, ParseItems, ItemsText;
    var s := DocText(ArrayDoc(w, items)) + tail;
    if items == [] {
      Assoc([LBRACKET], w + [RBRACKET], tail);
      Assoc(w, [RBRACKET], tail);
      SkipToMark(w, RBRACKET, tail);
      ArrayParts(s, w + ([RBRACKET] + tail), [RBRACKET] + tail, [], tail);
    } else {
      var t := ItemsText(items) + tail;
      Assoc([LBRACKET], ItemsText(items), tail);
      ItemsRead(items, tail);
      ItemsStart(items, tail);
      ItemsSkip(t);
      ArrayParts(s, t, Skip(t), ItemsMeaning(items), tail);
    }
  }

  lemma ArrayParts(s: seq<byte>, t: seq<byte>, u: seq<byte>, items: seq<Json>, tail: seq<byte>)
    requires s == [LBRACKET] + t && Skip(t) == u
    requires if items == [] then u == [RBRACKET] + tail
             else Hd(u) != RBRACKET && ParseItems(u) == Ok(items, tail)
    ensures ParseValue(s) == Ok(Array(items), tail)
  {
    hide ParseItems, ParseString;
    assert s[1..] == t;
    assert items == [] ==> u[1..] == tail;
  }

  lemma ItemsSkip(t: seq<byte>)
    ensures ParseItems(Skip(t)) == ParseItems(t)
  {
    SkipTwice(t);
  }

  lemma {:induction false} SkipTwice(t: seq<byte>)
    ensures Skip(Skip(t)) == Skip(t)
  {
    if t != [] && 0 < t[0] <= 32 {
      SkipTwice(t[1..]);
    }
  }

  lemma ItemsStart(items: seq<Element>, tail: seq<byte>)
    requires items != [] && GoodItems(items)
    ensures var t := Skip(ItemsText(items) + tail); t != [] && Starts(t[0])
  {
    hide DocText, Skip;
    var rest := (if |items| == 1 then [RBRACKET] else [COMMA] + ItemsText(items[1..])) + tail;
    ElementShape(items[0], rest);
    Assoc(ElementText(items[0]), if |items| == 1 then [RBRACKET] else [COMMA] + ItemsText(items[1..]), tail);
    SkipToDoc(items[0].before, items[0].value, items[0].after + rest);
    DocHead(items[0].value, items[0].after + rest);
  }

  lemma ElementShape(e: Element, rest: seq<byte>)
    requires Good(e.value)
    ensures ElementText(e) + rest == e.before + (DocText(e.value) + (e.after + rest))
  {
    hide DocText;
    Assoc(e.before, DocText(e.value) + e.after, rest);
    Assoc(DocText(e.value), e.after, rest);
  }

  /** A value with its blanks, up to the mark behind it. */
  lemma {:induction false} ElementRead(e: Element, mark: byte, rest: seq<byte>)
    requires Good(e.value) && (mark == COMMA || mark == RBRACKET || mark == RBRACE)
    ensures ParseValue(Skip(ElementText(e) + ([mark] + rest))) == Ok(Meaning(e.value), e.after + ([mark] + rest))
    ensures Skip(e.after + ([mark] + rest)) == [mark] + rest
    decreases e, 1
  {
    hide ParseValue, DocText, Separate, Skip;
    var tail := e.after + ([mark] + rest);
    ElementShape(e, [mark] + rest);
    SkipToDoc(e.before, e.value, tail);
    SeparateByMark(e.value, e.after, mark, rest);
    DocRead(e.value, tail);
    SkipToMark(e.after, mark, rest);
  }

  lemma {:induction false} ItemsRead(items: seq<Element>, tail: seq<byte>)
    requires items != [] && GoodItems(items)
    ensures ParseItems(ItemsText(items) + tail) == Ok(ItemsMeaning(items), tail)
    decreases items, 2
  {
    hide ParseValue, DocText, Skip, ElementText, Meaning;
    var e := items[0];
    if |items| == 1 {
      ElementRead(e, RBRACKET, tail);
      Assoc(ElementText(e), [RBRACKET], tail);
      LastItem(ItemsText(items) + tail, Meaning(e.value), e.after + ([RBRACKET] + tail), tail);
      assert items[1..] == [] && ItemsMeaning([]) == [] && [Meaning(e.value)] + [] == [Meaning(e.value)];
    } else {
      var more := ItemsText(items[1..]) + tail;
      ElementRead(e, COMMA, more);
      Assoc(ElementText(e), [COMMA] + ItemsText(items[1..]), tail);
      Assoc([COMMA], ItemsText(items[1..]), tail);
      ItemsRead(items[1..], tail);
      NextItem(ItemsText(items) + tail, Meaning(e.value), e.after + ([COMMA] + more), more,
               ItemsMeaning(items[1..]), tail);
    }
  }

  lemma LastItem(s: seq<byte>, v: Json, rest: seq<byte>, tail: seq<byte>)
    requires ParseValue(Skip(s)) == Ok(v, rest) && Skip(rest) == [RBRACKET] + tail
    ensures ParseItems(s) == Ok([v], tail)
  {
    hide ParseValue, Skip;
    assert ([RBRACKET] + tail)[1..] == tail;
  }

  lemma NextItem(s: seq<byte>, v: Json, rest: seq<byte>, more: seq<byte>, vs: seq<Json>, tail: seq<byte>)
    requires ParseValue(Skip(s)) == Ok(v, rest) && Skip(rest) == [COMMA] + more
    requires ParseItems(more) == Ok(vs, tail)
    ensures ParseItems(s) == Ok([v] + vs, tail)
  {
    hide ParseValue, Skip;
    assert ([COMMA] + more)[1..] == more;
  }

  // ----- objects

  lemma EntryShape(e: Entry, rest: seq<byte>)
    requires Strings.AllSpelled(e.name) && Good(e.element.value)
    ensures EntryText(e) + rest ==
            e.before + (Quoted(e.name) + (e.between + ([COLON] + (ElementText(e.element) + rest))))
  {
    hide Quoted, ElementText;
    var t := [COLON] + ElementText(e.element);
    Assoc(e.before, Quoted(e.name) + (e.between + t), rest);
    Assoc(Quoted(e.name), e.between + t, rest);
    Assoc(e.between, t, rest);
    Assoc([COLON], ElementText(e.element), rest);
  }

  lemma SkipToName(w: Blanks, ps: seq<Strings.Piece>, rest: seq<byte>)
    requires Strings.AllSpelled(ps)
    ensures Skip(w + (Quoted(ps) + rest)) == Quoted(ps) + rest
  {
    hide Quoted;
    SkipBlank(w, Quoted(ps) + rest);
    QuotedRead(ps, rest);
  }

  lemma {:induction false} EntryRead(e: Entry, mark: byte, rest: seq<byte>)
    requires Strings.AllSpelled(e.name) && Good(e.element.value) && (mark == COMMA || mark == RBRACE)
    ensures ParseMember(EntryText(e) + ([mark] + rest)) ==
            Ok(Member(Strings.StandsOf(e.name), Meaning(e.element.value)), e.element.after + ([mark] + rest))
    decreases e, 2
  {
    hide ParseValue, ParseString, Skip, Quoted, ElementText, EntryText, Meaning;
    var value := ElementText(e.element) + ([mark] + rest);
    var colon := e.between + ([COLON] + value);
    EntryShape(e, [mark] + rest);
    SkipToName(e.before, e.name, colon);
    QuotedRead(e.name, colon);
    SkipToMark(e.between, COLON, value);
    ElementRead(e.element, mark, rest);
    MemberParts(EntryText(e) + ([mark] + rest), Quoted(e.name) + colon, Strings.StandsOf(e.name), colon, value,
                Meaning(e.element.value), e.element.after + ([mark] + rest));
  }

  lemma MemberParts(s: seq<byte>, q: seq<byte>, name: seq<byte>, colon: seq<byte>, value: seq<byte>, v: Json,
                    rest: seq<byte>)
    requires Skip(s) == q && ParseString(q) == Ok(name, colon)
    requires Skip(colon) == [COLON] + value && ParseValue(Skip(value)) == Ok(v, rest)
    ensures ParseMember(s) == Ok(Member(name, v), rest)
  {
    hide ParseValue, ParseString, Skip;
    assert ([COLON] + value)[1..] == value;
  }

  lemma {:induction false} EntriesRead(entries: seq<Entry>, tail: seq<byte>)
    requires entries != [] && GoodEntries(entries)
    ensures ParseMembers(EntriesText(entries) + tail) == Ok(EntriesMeaning(entries), tail)
    decreases entries, 3
  {
    hide ParseMember, Skip, EntryText, Meaning;
    var e := entries[0];
    var m := Member(Strings.StandsOf(e.name), Meaning(e.element.value));
    if |entries| == 1 {
      EntryRead(e, RBRACE, tail);
      SkipToMark(e.element.after, RBRACE, tail);
      Assoc(EntryText(e), [RBRACE], tail);
      LastEntry(EntriesText(entries) + tail, m, e.element.after + ([RBRACE] + tail), tail);
      assert entries[1..] == [] && EntriesMeaning([]) == [] && [m] + [] == [m];
    } else {
      var more := EntriesText(entries[1..]) + tail;
      EntryRead(e, COMMA, more);
      SkipToMark(e.element.after, COMMA, more);
      Assoc(EntryText(e), [COMMA] + EntriesText(entries[1..]), tail);
      Assoc([COMMA], EntriesText(entries[1..]), tail);
      EntriesRead(entries[1..], tail);
      NextEntry(EntriesText(entries) + tail, m, e.element.after + ([COMMA] + more), more,
                EntriesMeaning(entries[1..]), tail);
    }
  }

  lemma LastEntry(s: seq<byte>, m: Member, rest: seq<byte>, tail: seq<byte>)
    requires ParseMember(s) == Ok(m, rest) && Skip(rest) == [RBRACE] + tail
    ensures ParseMembers(s) == Ok([m], tail)
  {
    hide ParseMember, Skip;
    assert ([RBRACE] + tail)[1..] == tail;
  }

  lemma NextEntry(s: seq<byte>, m: Member, rest: seq<byte>, more: seq<byte>, ms: seq<Member>, tail: seq<byte>)
    requires ParseMember(s) == Ok(m, rest) && Skip(rest) == [COMMA] + more
    requires ParseMembers(more) == Ok(ms, tail)
    ensures ParseMembers(s) == Ok([m] + ms, tail)
  {
    hide ParseMember, Skip;
    assert ([COMMA] + more)[1..] == more;
  }

  lemma EntriesStart(entries: seq<Entry>, tail: seq<byte>)
    requires entries != [] && GoodEntries(entries)
    ensures Hd(Skip(EntriesText(entries) + tail)) == QUOTE
  {
    hide Quoted, Skip, ElementText, EntryText;
    var e := entries[0];
    var end := if |entries| == 1 then [RBRACE] else [COMMA] + EntriesText(entries[1..]);
    Assoc(EntryText(e), end, tail);
    EntryShape(e, end + tail);
    var rest := e.between + ([COLON] + (ElementText(e.element) + (end + tail)));
    SkipToName(e.before, e.name, rest);
    QuotedRead(e.name, rest);
  }

  lemma EntriesSkip(t: seq<byte>)
    ensures ParseMembers(Skip(t)) == ParseMembers(t)
  {
    SkipTwice(t);
    assert ParseMember(Skip(t)) == ParseMember(t);
  }

  lemma {:induction false} ObjectRead(w: Blanks, entries: seq<Entry>, tail: seq<byte>)
    requires GoodEntries(entries)
    ensures ParseValue(DocText(ObjectDoc(w, entries)) + tail) == Ok(Object(EntriesMeaning(entries)), tail)
    decreases entries, 4
  {
    hide ParseValue, ParseMembers, EntriesText, Skip;
    var s := DocText(ObjectDoc(w, entries)) + tail;
    if entries == [] {
      Assoc([LBRACE], w + [RBRACE], tail);
      Assoc(w, [RBRACE], tail);
      SkipToMark(w, RBRACE, tail);
      ObjectParts(s, w + ([RBRACE] + tail), [RBRACE] + tail, [], tail);
    } else {
      var t := EntriesText(entries) + tail;
      Assoc([LBRACE], EntriesText(entries), tail);
      EntriesRead(entries, tail);
      EntriesStart(entries, tail);
      EntriesSkip(t);
      ObjectParts(s, t, Skip(t), EntriesMeaning(entries), tail);
    }
  }

  lemma ObjectParts(s: seq<byte>, t: seq<byte>, u: seq<byte>, members: seq<Member>, tail: seq<byte>)
    requires s == [LBRACE] + t && Skip(t) == u
    requires if members == [] then u == [RBRACE] + tail
             else Hd(u) != RBRACE && ParseMembers(u) == Ok(members, tail)
    ensures ParseValue(s) == Ok(Object(members), tail)
  {
    hide ParseMembers, ParseString, ParseNumber, Skip;
    assert s[0] == LBRACE && s[1..] == t;
    assert members == [] ==> u[1..] == tail;
  }
}
