// JSON values and the text the printer gives for them. As in the library, a
// number has a double value and the integer made of it.
module JsonValue {
  import opened CText

  datatype Json =
    | Null
    | False
    | True
    | Number(d: real, n: int)
    | String(s: seq<byte>)
    | Array(items: seq<Json>)
    | Object(members: seq<Member>)

  datatype Member = Member(name: seq<byte>, value: Json)

  const NULL_TEXT: seq<byte> := [110, 117, 108, 108]
  const FALSE_TEXT: seq<byte> := [102, 97, 108, 115, 101]
  const TRUE_TEXT: seq<byte> := [116, 114, 117, 101]

  /** A number that the printer writes with "%d". */
  predicate IsInt32(d: real) {
    d.Floor as real == d && -0x8000_0000 <= d.Floor <= 0x7fff_ffff
  }

  /** Values whose strings are C strings and whose numbers are 32-bit integers. */
  predicate Printable(j: Json)
    decreases j
  {
    match j
    case Number(d, n) => IsInt32(d) && n == d.Floor
    case String(s) => NulFree(s)
    case Array(items) => PrintableItems(items)
    case Object(members) => PrintableMembers(members)
    case _ => true
  }

  predicate PrintableItems(items: seq<Json>)
    decreases items
  {
    items == [] || (Printable(items[0]) && PrintableItems(items[1..]))
  }

  predicate PrintableMembers(members: seq<Member>)
    decreases members
  {
    members == [] ||
    (NulFree(members[0].name) && Printable(members[0].value) && PrintableMembers(members[1..]))
  }

  // ----- numbers

  function Decimal(n: nat): seq<byte> {
    if n < 10 then [ZERO + n] else Decimal(n / 10) + [ZERO + n % 10]
  }

  function IntText(n: int): seq<byte> {
    if n < 0 then [MINUS] + Decimal(-n) else Decimal(n)
  }

  /** The text of a number with the double value d and the integer value n. */
  function NumberText(d: real, n: int): seq<byte> {
    if d == 0.0 then [ZERO] else IntText(n)
  }

  // ----- strings

  function HexDigit(v: nat): byte
    requires v < 16
  {
    if v < 10 then 48 + v else 97 + (v - 10)
  }

  /** The text of one byte of a string. */
  function EscapeByte(c: byte): seq<byte> {
    if c > 31 && c != QUOTE && c != BACKSLASH then [c]
    else if c == BACKSLASH then [BACKSLASH, BACKSLASH]
    else if c == QUOTE then [BACKSLASH, QUOTE]
    else if c == 8 then [BACKSLASH, 98]
    else if c == 12 then [BACKSLASH, 102]
    else if c == 10 then [BACKSLASH, 110]
    else if c == 13 then [BACKSLASH, 114]
    else if c == 9 then [BACKSLASH, 116]
    else [BACKSLASH, 117, 48, 48, HexDigit(c / 16), HexDigit(c % 16)]
  }

  function Escape(s: seq<byte>): seq<byte> {
    if s == [] then [] else EscapeByte(s[0]) + Escape(s[1..])
  }

  function StringText(s: seq<byte>): seq<byte> {
    [QUOTE] + Escape(s) + [QUOTE]
  }

  // ----- values

  function Tabs(n: nat): (t: seq<byte>)
    ensures |t| == n
  {
    if n == 0 then [] else [TAB] + Tabs(n - 1)
  }

  function Indent(depth: nat, fmt: bool): seq<byte> {
    if fmt then Tabs(depth) else []
  }

  function Open(fmt: bool): seq<byte> {
    if fmt then [LBRACE, LF] else [LBRACE]
  }

  function Colon(fmt: bool): seq<byte> {
    if fmt then [COLON, TAB] else [COLON]
  }

  function ItemSep(fmt: bool): seq<byte> {
    if fmt then [COMMA, SPACE] else [COMMA]
  }

  /** What print_value writes for j at the given depth. */
  function Text(j: Json, depth: nat, fmt: bool): seq<byte>
    decreases j
  {
    match j
    case Null => NULL_TEXT
    case False => FALSE_TEXT
    case True => TRUE_TEXT
    case Number(d, n) => NumberText(d, n)
    case String(s) => StringText(s)
    case Array(items) => [LBRACKET] + (ItemsText(items, depth + 1, fmt) + [RBRACKET])
    case Object(members) =>
      Open(fmt) + (MembersText(members, depth + 1, fmt) + (Indent(depth, fmt) + [RBRACE]))
  }

  function ItemsText(items: seq<Json>, depth: nat, fmt: bool): seq<byte>
    decreases items
  {
    if items == [] then []
    else if |items| == 1 then Text(items[0], depth, fmt)
    else Text(items[0], depth, fmt) + (ItemSep(fmt) + ItemsText(items[1..], depth, fmt))
  }

  function MemberText(m: Member, depth: nat, fmt: bool): seq<byte>
    decreases m
  {
    Indent(depth, fmt) + (StringText(m.name) + (Colon(fmt) + Text(m.value, depth, fmt)))
  }

  /** What follows a member: the comma unless it is the last one, and the line end. */
  function MemberEnd(last: bool, fmt: bool): seq<byte> {
    (if last then [] else [COMMA]) + (if fmt then [LF] else [])
  }

  function MembersText(members: seq<Member>, depth: nat, fmt: bool): seq<byte>
    decreases members
  {
    if members == [] then []
    else MemberText(members[0], depth, fmt)
         + (MemberEnd(|members| == 1, fmt) + MembersText(members[1..], depth, fmt))
  }
}
