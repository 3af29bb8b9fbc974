// The unbuffered printer: every value is printed into a text of its own, and
// the texts are copied together. The lengths allocated are the original ones.
module JsonPrint {
  import opened CText
  import opened JsonValue
  import opened JsonNode
  import opened JsonEdit
  import opened JsonWriter

  // ----- what is printed has no NUL

  lemma NulFreeConcat(a: seq<byte>, b: seq<byte>)
    requires NulFree(a) && NulFree(b)
    ensures NulFree(a + b)
  {
  }

  lemma {:induction false} EscapeNulFree(s: seq<byte>)
    requires NulFree(s)
    ensures NulFree(Escape(s))
  {
    if s != [] {
      EscapeNulFree(s[1..]);
      NulFreeConcat(EscapeByte(s[0]), Escape(s[1..]));
    }
  }

  lemma StringNulFree(s: seq<byte>)
    requires NulFree(s)
    ensures NulFree(StringText(s))
  {
    EscapeNulFree(s);
  }

  lemma {:induction false} DecimalNulFree(n: nat)
    ensures NulFree(Decimal(n))
  {
    if n >= 10 {
      DecimalNulFree(n / 10);
    }
  }

  lemma {:induction false} TabsNulFree(n: nat)
    ensures NulFree(Tabs(n))
  {
    if n > 0 {
      TabsNulFree(n - 1);
    }
  }

  lemma {:induction false} TextNulFree(j: Json, depth: nat, fmt: bool)
    requires Printable(j)
    ensures NulFree(Text(j, depth, fmt))
    decreases j, 0
  {
    hide ItemsText, MembersText, Tabs, StringText;
    match j
    case Number(d, n) => DecimalNulFree(if n < 0 then -n else n);
    case String(s) => StringNulFree(s);
    case Array(items) =>
      ItemsNulFree(items, depth + 1, fmt);
      NulFreeConcat(ItemsText(items, depth + 1, fmt), [RBRACKET]);
    case Object(members) =>
      MembersNulFree(members, depth + 1, fmt);
      TabsNulFree(depth);
      NulFreeConcat(MembersText(members, depth + 1, fmt), Indent(depth, fmt) + [RBRACE]);
    case _ =>
  }

  lemma {:induction false} ItemsNulFree(items: seq<Json>, depth: nat, fmt: bool)
    requires PrintableItems(items)
    ensures NulFree(ItemsText(items, depth, fmt))
    decreases items, 1
  {
    if items != [] {
      TextNulFree(items[0], depth, fmt);
      if |items| > 1 {
        ItemsNulFree(items[1..], depth, fmt);
        NulFreeConcat(ItemSep(fmt), ItemsText(items[1..], depth, fmt));
      }
    }
  }

  lemma {:induction false} MembersNulFree(members: seq<Member>, depth: nat, fmt: bool)
    requires PrintableMembers(members)
    ensures NulFree(MembersText(members, depth, fmt))
    decreases members, 1
  {
    if members != [] {
      var m := members[0];
      TextNulFree(m.value, depth, fmt);
      StringNulFree(m.name);
      TabsNulFree(depth);
      MemberNulFree(m, depth, fmt);
      MembersNulFree(members[1..], depth, fmt);
      NulFreeConcat(MemberEnd(|members| == 1, fmt), MembersText(members[1..], depth, fmt));
    }
  }

  lemma MemberNulFree(m: Member, depth: nat, fmt: bool)
    requires NulFree(Text(m.value, depth, fmt)) && NulFree(StringText(m.name)) && NulFree(Tabs(depth))
    ensures NulFree(MemberText(m, depth, fmt))
  {
    hide Text, StringText, Tabs;
    NulFreeConcat(Colon(fmt), Text(m.value, depth, fmt));
    NulFreeConcat(StringText(m.name), Colon(fmt) + Text(m.value, depth, fmt));
  }

  // ----- how much is allocated

  /** What the array printer adds up over its items. */
  function ItemsRoom(vs: seq<Json>, depth: nat, fmt: bool): nat {
    if vs == [] then 0
    else |Text(vs[0], depth, fmt)| + 2 + (if fmt then 1 else 0) + ItemsRoom(vs[1..], depth, fmt)
  }

  lemma {:induction false} ItemsFit(vs: seq<Json>, depth: nat, fmt: bool)
    ensures |ItemsText(vs, depth, fmt)| <= ItemsRoom(vs, depth, fmt)
  {
    hide Text;
    if vs != [] {
      ItemsFit(vs[1..], depth, fmt);
    }
  }

  /** What the object printer adds up over its members. */
  function MembersRoom(ms: seq<Member>, depth: nat, fmt: bool): nat {
    if ms == [] then 0
    else |Text(ms[0].value, depth, fmt)| + |StringText(ms[0].name)| + 2 + (if fmt then 2 + depth else 0)
         + MembersRoom(ms[1..], depth, fmt)
  }

  lemma {:induction false} MembersFit(ms: seq<Member>, depth: nat, fmt: bool)
    ensures |MembersText(ms, depth, fmt)| <= MembersRoom(ms, depth, fmt)
  {
    hide Text, StringText, Tabs;
    if ms != [] {
      MembersFit(ms[1..], depth, fmt);
      assert |MemberText(ms[0], depth, fmt)|
          == |Indent(depth, fmt)| + |StringText(ms[0].name)| + |Colon(fmt)| + |Text(ms[0].value, depth, fmt)|;
    }
  }

  // ----- scalars

  method StrDup(w: seq<byte>) returns (out: array<byte>)
    ensures fresh(out) && Holds(out[..], 0, w)
  {
    out := new byte[|w| + 1];
    WritingStart(out[..], 0, w);
    assert out[..0] + w == w && w + [] == w;
    var ptr := PutAll(out, 0, w, [], w);
    Finish(out, ptr, w);
  }

  method PrintNumber(d: real, n: int) returns (out: array<byte>)
    requires IsInt32(d) && n == d.Floor
    ensures fresh(out) && Holds(out[..], 0, NumberText(d, n))
  {
    ghost var text := NumberText(d, n);
    assert text + [] == text;
    if d == 0.0 {
      out := new byte[2];
      WritingStart(out[..], 0, text);
      assert out[..0] + text == text;
      var ptr := PutAll(out, 0, [ZERO], [], text);
      Finish(out, ptr, text);
    } else {
      IntFits(n);
      out := new byte[21];
      WritingStart(out[..], 0, text);
      assert out[..0] + text == text;
      var ptr := PutAll(out, 0, IntText(n), [], text);
      Finish(out, ptr, text);
    }
  }

  /** print_string_ptr */
  method PrintString(str: Option<seq<byte>>) returns (out: array<byte>)
    requires NulFree(TextOf(str))
    ensures fresh(out) && Holds(out[..], 0, StringText(TextOf(str)))
  {
    hide Writing;
    ghost var text := StringText(TextOf(str));
    var room, flag := StringRoom(str);
    out := new byte[room];
    WritingStart(out[..], 0, text);
    assert out[..0] + text == text;
    var ptr;
    if str == None {
      assert text == [QUOTE, QUOTE] + [];
      ptr := PutAll(out, 0, [QUOTE, QUOTE], [], text);
    } else {
      ptr := PutString(out, 0, str.value, flag, text);
    }
    Finish(out, ptr, text);
  }

  // ----- arrays

  lemma {:induction false} PrintableAt(vs: seq<Json>, i: nat)
    requires PrintableItems(vs) && i < |vs|
    ensures Printable(vs[i])
  {
    if i > 0 {
      PrintableAt(vs[1..], i - 1);
    }
  }

  lemma {:induction false} PrintableMemberAt(ms: seq<Member>, i: nat)
    requires PrintableMembers(ms) && i < |ms|
    ensures Printable(ms[i].value) && NulFree(ms[i].name)
  {
    if i > 0 {
      PrintableMemberAt(ms[1..], i - 1);
    }
  }

  /** The number of children. */
  method Count(first: Node?, ghost ts: seq<Tree>, ghost vs: seq<Json>, ghost ms: seq<Member>) returns (n: nat)
    requires Source(ts, vs, ms) && first == Nth(Roots(ts), 0)
    ensures Source(ts, vs, ms) && n == |ts|
  {
    hide Source, Roots, Chain;
    SourceChain(ts, vs, ms);
    Allocated(ts);
    n := CountChain(first, Roots(ts));
  }

  method CountChain(first: Node?, ghost rs: seq<Node>) returns (n: nat)
    requires Chain(rs) && first == Nth(rs, 0)
    ensures n == |rs|
  {
    var child := first;
    n := 0;
    while child != null
      invariant n <= |rs| && child == Nth(rs, n)
      decreases |rs| - n
    {
      child := child.next;
      n := n + 1;
    }
  }

  lemma SourceChain(ts: seq<Tree>, vs: seq<Json>, ms: seq<Member>)
    requires Source(ts, vs, ms)
    ensures Chain(Roots(ts))
  {
  }

  /** Every entry holds the text of its value. */
  ghost predicate Rendered(entries: seq<array<byte>>, vs: seq<Json>, depth: nat, fmt: bool)
    reads set e | e in entries
  {
    && |entries| == |vs|
    && forall k :: 0 <= k < |vs| ==> Holds(entries[k][..], 0, Text(vs[k], depth, fmt))
  }

  lemma RenderedMore(entries: seq<array<byte>>, e: array<byte>, vs: seq<Json>, v: Json, depth: nat, fmt: bool)
    requires Rendered(entries, vs, depth, fmt) && Holds(e[..], 0, Text(v, depth, fmt))
    ensures Rendered(entries + [e], vs + [v], depth, fmt)
  {
    hide Text, Holds;
  }

  /** Print child number i. */
  method PrintChild(c: Node, depth: nat, fmt: bool, ghost ts: seq<Tree>, ghost i: nat,
                    ghost vs: seq<Json>, ghost ms: seq<Member>)
    returns (ret: array<byte>, len: nat)
    requires Source(ts, vs, ms) && i < |ts| && c == ts[i].root && |vs| == |ms| == |ts| && Printable(vs[i])
    ensures Source(ts, vs, ms) && c.next == Nth(Roots(ts), i + 1) && TextOf(c.name) == ms[i].name
    ensures fresh(ret) && Holds(ret[..], 0, Text(vs[i], depth, fmt)) && len == |Text(vs[i], depth, fmt)|
    decreases ts, 0
  {
    hide Source, TreeAt, Value, Text, Forest, Nodes, Holds, Values, Members, Printable;
    SourceAt(ts, vs, ms, i);
    Allocated(ts);
    ret := PrintValue(c, depth, fmt, ts[i]);
    Allocated(ts);
    TextNulFree(vs[i], depth, fmt);
    len := StrLen(ret, 0, Text(vs[i], depth, fmt));
    SourceAt(ts, vs, ms, i);
  }

  /** Print the items one after the other and add up what their texts need. */
  method PrintItems(first: Node?, depth: nat, fmt: bool, ghost ts: seq<Tree>, ghost vs: seq<Json>,
                    ghost ms: seq<Member>)
    returns (entries: seq<array<byte>>, len: nat)
    requires Source(ts, vs, ms) && first == Nth(Roots(ts), 0) && PrintableItems(vs) && |vs| == |ms| == |ts|
    ensures Rendered(entries, vs, depth, fmt) && len == 5 + ItemsRoom(vs, depth, fmt)
    decreases ts, 1
  {
    hide Source, Text, Forest, Holds, Rendered, ItemsRoom;
    var child := first;
    entries, len := [], 5;
    ghost var i := 0;
    assert vs[0..] == vs;
    RenderedNone(vs, depth, fmt);
    while child != null
      invariant i <= |ts| && child == Nth(Roots(ts), i) && Source(ts, vs, ms)
      invariant Rendered(entries, vs[..i], depth, fmt)
      invariant len + ItemsRoom(vs[i..], depth, fmt) == 5 + ItemsRoom(vs, depth, fmt)
      decreases |ts| - i
    {
      PrintableAt(vs, i);
      ItemsRoomStep(vs, i, depth, fmt);
      var ret, n := PrintChild(child, depth, fmt, ts, i, vs, ms);
      RenderedMore(entries, ret, vs[..i], vs[i], depth, fmt);
      assert vs[..i + 1] == vs[..i] + [vs[i]];
      entries := entries + [ret];
      len := len + n + 2 + (if fmt then 1 else 0);
      child := child.next;
      i := i + 1;
    }
    assert vs[..i] == vs && vs[i..] == [];
    ItemsRoomNone(depth, fmt);
  }

  lemma RenderedNone(vs: seq<Json>, depth: nat, fmt: bool)
    ensures Rendered([], vs[..0], depth, fmt)
  {
  }

  lemma ItemsRoomNone(depth: nat, fmt: bool)
    ensures ItemsRoom([], depth, fmt) == 0
  {
  }

  lemma ItemsRoomStep(vs: seq<Json>, i: nat, depth: nat, fmt: bool)
    requires i < |vs|
    ensures ItemsRoom(vs[i..], depth, fmt)
         == |Text(vs[i], depth, fmt)| + 2 + (if fmt then 1 else 0) + ItemsRoom(vs[i + 1..], depth, fmt)
  {
    assert vs[i..][1..] == vs[i + 1..];
  }

  lemma ItemsTextStep(vs: seq<Json>, i: nat, depth: nat, fmt: bool, rest: seq<byte>)
    requires i < |vs|
    ensures ItemsText(vs[i..], depth, fmt) + rest ==
            Text(vs[i], depth, fmt)
            + ((if i + 1 == |vs| then [] else ItemSep(fmt)) + (ItemsText(vs[i + 1..], depth, fmt) + rest))
  {
    hide Text;
    assert vs[i..][1..] == vs[i + 1..];
  }

  lemma ItemsTextNone(vs: seq<Json>, depth: nat, fmt: bool, rest: seq<byte>)
    ensures ItemsText(vs[|vs|..], depth, fmt) + rest == rest
  {
  }

  /** Copy one item and the separator behind it. */
  method JoinItem(out: array<byte>, ptr: nat, entry: array<byte>, last: bool, fmt: bool,
                  ghost text: seq<byte>, ghost rest: seq<byte>, ghost goal: seq<byte>)
    returns (next: nat)
    requires out != entry && Holds(entry[..], 0, text) && NulFree(text)
    requires Writing(out[..], ptr, text + ((if last then [] else ItemSep(fmt)) + rest), goal) && |goal| < out.Length
    modifies out
    ensures Writing(out[..], next, rest, goal)
  {
    hide Writing;
    ghost var sep := if last then [] else ItemSep(fmt);
    var tmplen := StrLen(entry, 0, text);
    next := PutText(out, ptr, entry, tmplen, text, sep + rest, goal);
    if last {
      assert sep + rest == rest;
    } else {
      ghost var space: seq<byte> := if fmt then [SPACE] else [];
      assert sep + rest == [COMMA] + (space + rest);
      next := Put(out, next, COMMA, space + rest, goal);
      if fmt {
        next := Put(out, next, SPACE, rest, goal);
      } else {
        assert space + rest == rest;
      }
      WritingBound(out[..], next, rest, goal);
      Zero(out, next, rest, goal);
    }
  }

  lemma WritingBound(out: seq<byte>, ptr: nat, rest: seq<byte>, goal: seq<byte>)
    requires Writing(out, ptr, rest, goal)
    ensures ptr <= |goal|
  {
  }

  lemma RenderedAt(entries: seq<array<byte>>, vs: seq<Json>, i: nat, depth: nat, fmt: bool)
    requires Rendered(entries, vs, depth, fmt) && PrintableItems(vs) && i < |vs|
    ensures |entries| == |vs| && Holds(entries[i][..], 0, Text(vs[i], depth, fmt)) && NulFree(Text(vs[i], depth, fmt))
  {
    PrintableAt(vs, i);
    TextNulFree(vs[i], depth, fmt);
  }

  /** Copy the items with their separators. */
  method JoinItems(out: array<byte>, ptr: nat, entries: seq<array<byte>>, depth: nat, fmt: bool,
                   ghost vs: seq<Json>, ghost rest: seq<byte>, ghost goal: seq<byte>)
    returns (next: nat)
    requires Rendered(entries, vs, depth, fmt) && PrintableItems(vs) && out !in entries && |entries| == |vs|
    requires Writing(out[..], ptr, ItemsText(vs, depth, fmt) + rest, goal) && |goal| < out.Length
    modifies out
    ensures Writing(out[..], next, rest, goal)
  {
    hide Writing, Rendered, Text, ItemsText, Holds;
    next := ptr;
    var i := 0;
    assert vs[0..] == vs;
    while i < |entries|
      invariant 0 <= i <= |entries| && Rendered(entries, vs, depth, fmt)
      invariant Writing(out[..], next, ItemsText(vs[i..], depth, fmt) + rest, goal)
    {
      RenderedAt(entries, vs, i, depth, fmt);
      ItemsTextStep(vs, i, depth, fmt, rest);
      next := JoinItem(out, next, entries[i], i + 1 == |entries|, fmt, Text(vs[i], depth, fmt),
                       ItemsText(vs[i + 1..], depth, fmt) + rest, goal);
      i := i + 1;
    }
    ItemsTextNone(vs, depth, fmt, rest);
  }

  lemma ArrayText(vs: seq<Json>, depth: nat, fmt: bool)
    ensures Text(Array(vs), depth, fmt) == [LBRACKET] + (ItemsText(vs, depth + 1, fmt) + [RBRACKET])
    ensures vs == [] ==> Text(Array(vs), depth, fmt) == [LBRACKET, RBRACKET]
    ensures |Text(Array(vs), depth, fmt)| < 5 + ItemsRoom(vs, depth + 1, fmt)
  {
    ItemsFit(vs, depth + 1, fmt);
  }

  /** Compose the text of an array in a new block of the given length. */
  method ComposeArray(entries: seq<array<byte>>, len: nat, depth: nat, fmt: bool, ghost vs: seq<Json>)
    returns (out: array<byte>)
    requires Rendered(entries, vs, depth + 1, fmt) && PrintableItems(vs) && |entries| == |vs|
    requires len == 5 + ItemsRoom(vs, depth + 1, fmt)
    ensures fresh(out) && Holds(out[..], 0, Text(Array(vs), depth, fmt))
  {
    hide Writing, Rendered, Text, ItemsText, Holds, ItemsRoom;
    ArrayText(vs, depth, fmt);
    ghost var goal := Text(Array(vs), depth, fmt);
    ghost var rest := ItemsText(vs, depth + 1, fmt) + [RBRACKET];
    out := new byte[len];
    WritingStart(out[..], 0, goal);
    assert out[..0] + goal == goal;
    var ptr := Put(out, 0, LBRACKET, rest, goal);
    WritingBound(out[..], ptr, rest, goal);
    Zero(out, ptr, rest, goal);
    ptr := JoinItems(out, ptr, entries, depth + 1, fmt, vs, [RBRACKET], goal);
    assert [RBRACKET] + [] == [RBRACKET];
    ptr := Put(out, ptr, RBRACKET, [], goal);
    Finish(out, ptr, goal);
  }

  /** print_array */
  method PrintArray(item: Node, depth: nat, fmt: bool, ghost t: Tree) returns (out: array<byte>)
    requires TreeAt(item, t) && item.kind == KArray && Printable(Value(t))
    ensures fresh(out) && Holds(out[..], 0, Text(old(Value(t)), depth, fmt))
    decreases t, 1
  {
    hide Source, Rendered, Text, Holds, ItemsRoom, TreeAt, Values, Members, Printable, Value;
    PrintableNode(item, t);
    ghost var vs, ms := Values(t.kids), Members(t.kids);
    SourceOf(item, t);
    Allocated(t.kids);
    var numentries := Count(item.child, t.kids, vs, ms);
    if numentries == 0 {
      ArrayText(vs, depth, fmt);
      out := StrDup([LBRACKET, RBRACKET]);
    } else {
      var entries, len := PrintItems(item.child, depth + 1, fmt, t.kids, vs, ms);
      RenderedCount(entries, vs, depth + 1, fmt);
      out := ComposeArray(entries, len, depth, fmt, vs);
    }
  }

  lemma RenderedCount(entries: seq<array<byte>>, vs: seq<Json>, depth: nat, fmt: bool)
    requires Rendered(entries, vs, depth, fmt)
    ensures |entries| == |vs|
  {
  }

  // ----- objects

  /** Names and entries hold the texts of the members. */
  ghost predicate RenderedMembers(names: seq<array<byte>>, entries: seq<array<byte>>, ms: seq<Member>,
                                  depth: nat, fmt: bool)
    reads set e | e in names, set e | e in entries
  {
    && |names| == |entries| == |ms|
    && (forall k :: 0 <= k < |ms| ==> Holds(names[k][..], 0, StringText(ms[k].name)))
    && (forall k :: 0 <= k < |ms| ==> Holds(entries[k][..], 0, Text(ms[k].value, depth, fmt)))
  }

  lemma RenderedMembersMore(names: seq<array<byte>>, entries: seq<array<byte>>, name: array<byte>, e: array<byte>,
                            ms: seq<Member>, m: Member, depth: nat, fmt: bool)
    requires RenderedMembers(names, entries, ms, depth, fmt)
    requires Holds(name[..], 0, StringText(m.name)) && Holds(e[..], 0, Text(m.value, depth, fmt))
    ensures RenderedMembers(names + [name], entries + [e], ms + [m], depth, fmt)
  {
    hide Text, StringText, Holds;
  }

  /** Print the keys and values one after the other and add up what their texts need. */
  method PrintMembers(first: Node?, start: nat, depth: nat, fmt: bool,
                      ghost ts: seq<Tree>, ghost vs: seq<Json>, ghost ms: seq<Member>)
    returns (names: seq<array<byte>>, entries: seq<array<byte>>, len: nat)
    requires Source(ts, vs, ms) && first == Nth(Roots(ts), 0) && PrintableMembers(ms) && |vs| == |ms| == |ts|
    ensures RenderedMembers(names, entries, ms, depth, fmt) && len == start + MembersRoom(ms, depth, fmt)
    decreases ts, 2
  {
    hide Source, Text, StringText, Forest, Holds, RenderedMembers, MembersRoom;
    var child := first;
    names, entries, len := [], [], start;
    ghost var i := 0;
    assert ms[0..] == ms;
    RenderedMembersNone(ms, depth, fmt);
    while child != null
      invariant i <= |ts| && child == Nth(Roots(ts), i) && Source(ts, vs, ms)
      invariant RenderedMembers(names, entries, ms[..i], depth, fmt)
      invariant len + MembersRoom(ms[i..], depth, fmt) == start + MembersRoom(ms, depth, fmt)
      decreases |ts| - i
    {
      MembersRoomStep(ms, i, depth, fmt);
      var str, strLen, ret, retLen := PrintNamed(child, depth, fmt, ts, i, vs, ms);
      RenderedMembersMore(names, entries, str, ret, ms[..i], ms[i], depth, fmt);
      assert ms[..i + 1] == ms[..i] + [ms[i]];
      names, entries := names + [str], entries + [ret];
      len := len + retLen + strLen + 2 + (if fmt then 2 + depth else 0);
      child := child.next;
      i := i + 1;
    }
    assert ms[..i] == ms && ms[i..] == [];
    MembersRoomNone(depth, fmt);
  }

  /** Print the key and the value of child number i. */
  method PrintNamed(c: Node, depth: nat, fmt: bool, ghost ts: seq<Tree>, ghost i: nat,
                    ghost vs: seq<Json>, ghost ms: seq<Member>)
    returns (str: array<byte>, strLen: nat, ret: array<byte>, retLen: nat)
    requires Source(ts, vs, ms) && i < |ts| && c == ts[i].root && |vs| == |ms| == |ts| && PrintableMembers(ms)
    ensures Source(ts, vs, ms) && c.next == Nth(Roots(ts), i + 1)
    ensures fresh(str) && Holds(str[..], 0, StringText(ms[i].name)) && strLen == |StringText(ms[i].name)|
    ensures fresh(ret) && Holds(ret[..], 0, Text(ms[i].value, depth, fmt)) && retLen == |Text(ms[i].value, depth, fmt)|
    decreases ts, 1
  {
    hide Source, Text, StringText, Forest, Holds, TreeAt, Value;
    SourceAt(ts, vs, ms, i);
    PrintableMemberAt(ms, i);
    StringNulFree(ms[i].name);
    Allocated(ts);
    str := PrintString(c.name);
    strLen := StrLen(str, 0, StringText(ms[i].name));
    Allocated(ts);
    ret, retLen := PrintChild(c, depth, fmt, ts, i, vs, ms);
  }

  lemma RenderedMembersNone(ms: seq<Member>, depth: nat, fmt: bool)
    ensures RenderedMembers([], [], ms[..0], depth, fmt)
  {
  }

  lemma MembersRoomNone(depth: nat, fmt: bool)
    ensures MembersRoom([], depth, fmt) == 0
  {
  }

  lemma MembersRoomStep(ms: seq<Member>, i: nat, depth: nat, fmt: bool)
    requires i < |ms|
    ensures MembersRoom(ms[i..], depth, fmt)
         == |Text(ms[i].value, depth, fmt)| + |StringText(ms[i].name)| + 2 + (if fmt then 2 + depth else 0)
            + MembersRoom(ms[i + 1..], depth, fmt)
  {
    hide Text, StringText;
    assert ms[i..][1..] == ms[i + 1..];
  }

  /** What is written for one member, and then rest. */
  ghost function MemberThen(name: seq<byte>, value: seq<byte>, last: bool, depth: nat, fmt: bool, rest: seq<byte>)
    : seq<byte>
  {
    Indent(depth, fmt) + (name + (Colon(fmt) + (value + (MemberEnd(last, fmt) + rest))))
  }

  lemma MembersTextStep(ms: seq<Member>, i: nat, depth: nat, fmt: bool, rest: seq<byte>)
    requires i < |ms|
    ensures MembersText(ms[i..], depth, fmt) + rest ==
            MemberThen(StringText(ms[i].name), Text(ms[i].value, depth, fmt), i + 1 == |ms|, depth, fmt,
                       MembersText(ms[i + 1..], depth, fmt) + rest)
  {
    hide Text, StringText, Tabs, Colon, MemberEnd, MembersText;
    var name, value, end := StringText(ms[i].name), Text(ms[i].value, depth, fmt), MemberEnd(i + 1 == |ms|, fmt);
    MembersTextHead(ms, i, depth, fmt);
    Regroup(Indent(depth, fmt), name, Colon(fmt), value, end, MembersText(ms[i + 1..], depth, fmt), rest);
  }

  lemma MembersTextHead(ms: seq<Member>, i: nat, depth: nat, fmt: bool)
    requires i < |ms|
    ensures MembersText(ms[i..], depth, fmt) ==
            MemberText(ms[i], depth, fmt) + (MemberEnd(i + 1 == |ms|, fmt) + MembersText(ms[i + 1..], depth, fmt))
  {
    hide MemberText, MemberEnd;
    assert ms[i..][1..] == ms[i + 1..];
  }

  lemma Regroup(a: seq<byte>, b: seq<byte>, c: seq<byte>, d: seq<byte>, e: seq<byte>, f: seq<byte>, g: seq<byte>)
    ensures ((a + (b + (c + d))) + (e + f)) + g == a + (b + (c + (d + (e + (f + g)))))
  {
    Assoc(a + (b + (c + d)), e + f, g);
    Assoc(e, f, g);
    var r := e + (f + g);
    Assoc(a, b + (c + d), r);
    Assoc(b, c + d, r);
    Assoc(c, d, r);
  }

  lemma MembersTextNone(ms: seq<Member>, depth: nat, fmt: bool, rest: seq<byte>)
    ensures MembersText(ms[|ms|..], depth, fmt) + rest == rest
  {
  }

  /** Copy indentation and key, the colon behind them, and a tab. */
  method JoinName(out: array<byte>, ptr: nat, name: array<byte>, depth: nat, fmt: bool,
                  ghost text: seq<byte>, ghost rest: seq<byte>, ghost goal: seq<byte>)
    returns (next: nat)
    requires out != name && Holds(name[..], 0, text) && NulFree(text)
    requires Writing(out[..], ptr, Indent(depth, fmt) + (text + (Colon(fmt) + rest)), goal)
    modifies out
    ensures Writing(out[..], next, rest, goal)
  {
    hide Writing, Holds;
    next := ptr;
    if fmt {
      next := PutTabs(out, next, depth, text + (Colon(fmt) + rest), goal);
    } else {
      assert Indent(depth, fmt) + (text + (Colon(fmt) + rest)) == text + (Colon(fmt) + rest);
    }
    var tmplen := StrLen(name, 0, text);
    next := PutText(out, next, name, tmplen, text, Colon(fmt) + rest, goal);
    next := PutColon(out, next, fmt, rest, goal);
  }

  method PutColon(out: array<byte>, ptr: nat, fmt: bool, ghost rest: seq<byte>, ghost goal: seq<byte>)
    returns (next: nat)
    requires Writing(out[..], ptr, Colon(fmt) + rest, goal)
    modifies out
    ensures next == ptr + |Colon(fmt)| && Writing(out[..], next, rest, goal)
  {
    hide Writing;
    ghost var space: seq<byte> := if fmt then [TAB] else [];
    assert Colon(fmt) + rest == [COLON] + (space + rest);
    next := Put(out, ptr, COLON, space + rest, goal);
    if fmt {
      next := Put(out, next, TAB, rest, goal);
    } else {
      assert space + rest == rest;
    }
  }

  method PutMemberEnd(out: array<byte>, ptr: nat, last: bool, fmt: bool, ghost rest: seq<byte>, ghost goal: seq<byte>)
    returns (next: nat)
    requires Writing(out[..], ptr, MemberEnd(last, fmt) + rest, goal)
    modifies out
    ensures next == ptr + |MemberEnd(last, fmt)| && Writing(out[..], next, rest, goal)
  {
    hide Writing;
    ghost var line: seq<byte> := if fmt then [LF] else [];
    next := ptr;
    if !last {
      assert MemberEnd(last, fmt) + rest == [COMMA] + (line + rest);
      next := Put(out, next, COMMA, line + rest, goal);
    } else {
      assert MemberEnd(last, fmt) + rest == line + rest;
    }
    if fmt {
      next := Put(out, next, LF, rest, goal);
    } else {
      assert line + rest == rest;
    }
  }

  /** Copy one member. */
  method JoinMember(out: array<byte>, ptr: nat, name: array<byte>, entry: array<byte>, last: bool, depth: nat,
                    fmt: bool, ghost nameText: seq<byte>, ghost text: seq<byte>, ghost rest: seq<byte>,
                    ghost goal: seq<byte>)
    returns (next: nat)
    requires out != name && Holds(name[..], 0, nameText) && NulFree(nameText)
    requires out != entry && Holds(entry[..], 0, text) && NulFree(text)
    requires Writing(out[..], ptr, MemberThen(nameText, text, last, depth, fmt, rest), goal) && |goal| < out.Length
    modifies out
    ensures Writing(out[..], next, rest, goal)
  {
    hide Writing, Holds, Colon, Indent, MemberEnd;
    next := JoinName(out, ptr, name, depth, fmt, nameText, text + (MemberEnd(last, fmt) + rest), goal);
    var tmplen := StrLen(entry, 0, text);
    next := PutText(out, next, entry, tmplen, text, MemberEnd(last, fmt) + rest, goal);
    next := PutMemberEnd(out, next, last, fmt, rest, goal);
    WritingBound(out[..], next, rest, goal);
    Zero(out, next, rest, goal);
  }

  lemma RenderedMemberAt(names: seq<array<byte>>, entries: seq<array<byte>>, ms: seq<Member>, i: nat,
                         depth: nat, fmt: bool)
    requires RenderedMembers(names, entries, ms, depth, fmt) && PrintableMembers(ms) && i < |ms|
    ensures |names| == |entries| == |ms|
    ensures Holds(names[i][..], 0, StringText(ms[i].name)) && NulFree(StringText(ms[i].name))
    ensures Holds(entries[i][..], 0, Text(ms[i].value, depth, fmt)) && NulFree(Text(ms[i].value, depth, fmt))
  {
    hide Holds, StringText, Text;
    PrintableMemberAt(ms, i);
    StringNulFree(ms[i].name);
    TextNulFree(ms[i].value, depth, fmt);
  }

  /** Copy the members. */
  method JoinMembers(out: array<byte>, ptr: nat, names: seq<array<byte>>, entries: seq<array<byte>>,
                     depth: nat, fmt: bool, ghost ms: seq<Member>, ghost rest: seq<byte>, ghost goal: seq<byte>)
    returns (next: nat)
    requires RenderedMembers(names, entries, ms, depth, fmt) && PrintableMembers(ms)
    requires out !in names && out !in entries && |names| == |entries| == |ms|
    requires Writing(out[..], ptr, MembersText(ms, depth, fmt) + rest, goal) && |goal| < out.Length
    modifies out
    ensures Writing(out[..], next, rest, goal)
  {
    hide Writing, RenderedMembers, Text, MembersText, Holds, StringText, MemberThen;
    next := ptr;
    var i := 0;
    assert ms[0..] == ms;
    while i < |entries|
      invariant 0 <= i <= |entries| && RenderedMembers(names, entries, ms, depth, fmt)
      invariant Writing(out[..], next, MembersText(ms[i..], depth, fmt) + rest, goal)
    {
      RenderedMemberAt(names, entries, ms, i, depth, fmt);
      MembersTextStep(ms, i, depth, fmt, rest);
      next := JoinMember(out, next, names[i], entries[i], i + 1 == |entries|, depth, fmt, StringText(ms[i].name),
                         Text(ms[i].value, depth, fmt), MembersText(ms[i + 1..], depth, fmt) + rest, goal);
      i := i + 1;
    }
    MembersTextNone(ms, depth, fmt, rest);
  }

  lemma ObjectText(ms: seq<Member>, depth: nat, fmt: bool)
    ensures Text(Object(ms), depth, fmt)
         == Open(fmt) + (MembersText(ms, depth + 1, fmt) + (Indent(depth, fmt) + [RBRACE]))
    ensures ms == [] ==> Text(Object(ms), depth, fmt) == Open(fmt) + (Indent(depth, fmt) + [RBRACE])
    ensures ms == [] ==> |Text(Object(ms), depth, fmt)| + 1 == if fmt then depth + 4 else 3
    ensures |Text(Object(ms), depth, fmt)| < 7 + (if fmt then depth + 1 else 0) + MembersRoom(ms, depth + 1, fmt)
  {
    MembersFit(ms, depth + 1, fmt);
    hide MembersRoom;
    if ms == [] {
      var close := Indent(depth, fmt) + [RBRACE];
      assert MembersText(ms, depth + 1, fmt) + close == close;
    }
  }

  method PutOpen(out: array<byte>, ptr: nat, fmt: bool, ghost rest: seq<byte>, ghost goal: seq<byte>)
    returns (next: nat)
    requires Writing(out[..], ptr, Open(fmt) + rest, goal)
    modifies out
    ensures next == ptr + |Open(fmt)| && Writing(out[..], next, rest, goal)
  {
    hide Writing;
    ghost var line: seq<byte> := if fmt then [LF] else [];
    assert Open(fmt) + rest == [LBRACE] + (line + rest);
    next := Put(out, ptr, LBRACE, line + rest, goal);
    if fmt {
      next := Put(out, next, LF, rest, goal);
    } else {
      assert line + rest == rest;
    }
  }

  /** The end of an object. */
  method PutClose(out: array<byte>, ptr: nat, depth: nat, fmt: bool, ghost goal: seq<byte>)
    returns (next: nat)
    requires Writing(out[..], ptr, Indent(depth, fmt) + [RBRACE], goal)
    modifies out
    ensures Writing(out[..], next, [], goal)
  {
    hide Writing;
    next := ptr;
    if fmt {
      next := PutTabs(out, next, depth, [RBRACE], goal);
    } else {
      assert Indent(depth, fmt) + [RBRACE] == [RBRACE];
    }
    assert [RBRACE] + [] == [RBRACE];
    next := Put(out, next, RBRACE, [], goal);
  }

  /** Compose the text of an object in a new block of the given length. */
  method ComposeObject(names: seq<array<byte>>, entries: seq<array<byte>>, len: nat, depth: nat, fmt: bool,
                       ghost ms: seq<Member>)
    returns (out: array<byte>)
    requires RenderedMembers(names, entries, ms, depth + 1, fmt) && PrintableMembers(ms)
    requires |names| == |entries| == |ms|
    requires len == 7 + (if fmt then depth + 1 else 0) + MembersRoom(ms, depth + 1, fmt)
    ensures fresh(out) && Holds(out[..], 0, Text(Object(ms), depth, fmt))
  {
    hide Writing, RenderedMembers, Text, MembersText, Holds, MembersRoom, Open, Indent;
    ObjectText(ms, depth, fmt);
    ghost var goal := Text(Object(ms), depth, fmt);
    ghost var close := Indent(depth, fmt) + [RBRACE];
    ghost var rest := MembersText(ms, depth + 1, fmt) + close;
    out := new byte[len];
    WritingStart(out[..], 0, goal);
    assert out[..0] + goal == goal;
    var ptr := PutOpen(out, 0, fmt, rest, goal);
    WritingBound(out[..], ptr, rest, goal);
    Zero(out, ptr, rest, goal);
    ptr := JoinMembers(out, ptr, names, entries, depth + 1, fmt, ms, close, goal);
    ptr := PutClose(out, ptr, depth, fmt, goal);
    Finish(out, ptr, goal);
  }

  /** The text of an object without members. */
  method EmptyObject(depth: nat, fmt: bool) returns (out: array<byte>)
    ensures fresh(out) && Holds(out[..], 0, Text(Object([]), depth, fmt))
  {
    hide Writing, Text, Holds, Open, Indent;
    ObjectText([], depth, fmt);
    ghost var goal := Text(Object([]), depth, fmt);
    out := new byte[if fmt then depth + 4 else 3];
    WritingStart(out[..], 0, goal);
    assert out[..0] + goal == goal;
    var ptr := PutOpen(out, 0, fmt, Indent(depth, fmt) + [RBRACE], goal);
    ptr := PutClose(out, ptr, depth, fmt, goal);
    Finish(out, ptr, goal);
  }

  /** print_object */
  method PrintObject(item: Node, depth: nat, fmt: bool, ghost t: Tree) returns (out: array<byte>)
    requires TreeAt(item, t) && item.kind == KObject && Printable(Value(t))
    ensures fresh(out) && Holds(out[..], 0, Text(old(Value(t)), depth, fmt))
    decreases t, 1
  {
    hide Source, RenderedMembers, Text, Holds, MembersRoom, TreeAt, Values, Members, Printable, Value;
    ghost var vs, ms := Values(t.kids), Members(t.kids);
    PrintableNode(item, t);
    SourceOf(item, t);
    Allocated(t.kids);
    var numentries := Count(item.child, t.kids, vs, ms);
    if numentries == 0 {
      out := EmptyObject(depth, fmt);
    } else {
      var names, entries, len :=
        PrintMembers(item.child, 7 + (if fmt then depth + 1 else 0), depth + 1, fmt, t.kids, vs, ms);
      RenderedMembersCount(names, entries, ms, depth + 1, fmt);
      out := ComposeObject(names, entries, len, depth, fmt, ms);
    }
  }

  lemma RenderedMembersCount(names: seq<array<byte>>, entries: seq<array<byte>>, ms: seq<Member>,
                             depth: nat, fmt: bool)
    requires RenderedMembers(names, entries, ms, depth, fmt)
    ensures |names| == |entries| == |ms|
  {
  }

  /** A printable value, seen from its node. */
  lemma PrintableNode(item: Node, t: Tree)
    requires TreeAt(item, t) && Printable(Value(t))
    ensures match item.kind
      case KNull => Value(t) == Null
      case KFalse => Value(t) == False
      case KTrue => Value(t) == True
      case KNumber => Value(t) == Number(item.valuedouble, item.valueint)
                      && IsInt32(item.valuedouble) && item.valueint == item.valuedouble.Floor
      case KString => Value(t) == String(TextOf(item.valuestring)) && NulFree(TextOf(item.valuestring))
      case KArray => Value(t) == Array(Values(t.kids)) && PrintableItems(Values(t.kids))
      case KObject => Value(t) == Object(Members(t.kids)) && PrintableMembers(Members(t.kids))
  {
  }

  /** print_value, which returns a text of its own */
  method PrintValue(item: Node, depth: nat, fmt: bool, ghost t: Tree) returns (out: array<byte>)
    requires TreeAt(item, t) && Printable(Value(t))
    ensures fresh(out) && Holds(out[..], 0, Text(old(Value(t)), depth, fmt))
    decreases t, 2
  {
    hide TreeAt, Holds, Value, Printable;
    PrintableNode(item, t);
    match item.kind
    case KNull => out := StrDup(NULL_TEXT);
    case KFalse => out := StrDup(FALSE_TEXT);
    case KTrue => out := StrDup(TRUE_TEXT);
    case KNumber => out := PrintNumber(item.valuedouble, item.valueint);
    case KString => out := PrintString(item.valuestring);
    case KArray => out := PrintArray(item, depth, fmt, t);
    case KObject => out := PrintObject(item, depth, fmt, t);
  }
}
