// The buffered printer: everything is written into one growing buffer. It
// gives the text of the unbuffered printer, however often the buffer grows.
module JsonPrintBuffered {
  import opened CText
  import opened JsonValue
  import opened JsonNode
  import opened JsonEdit
  import opened JsonWriter
  import opened JsonPrint
  import opened JsonBuffer

  /** p is filled up to its offset; with rest behind that it would be goal. */
  ghost predicate Progress(p: PrintBuffer, rest: seq<byte>, goal: seq<byte>)
    reads p, p.buffer
  {
    p.Valid() && p.Done() + rest == goal && |goal| + 32 <= LIMIT
  }

  /** goal is made of something, then text, then rest. */
  ghost predicate Within(text: seq<byte>, rest: seq<byte>, goal: seq<byte>) {
    |text| + |rest| <= |goal| && goal[|goal| - |rest| - |text|..|goal| - |rest|] == text
  }

  /** The text has been written and terminated, but the offset may be anywhere in it. */
  ghost predicate Printed(p: PrintBuffer, text: seq<byte>, rest: seq<byte>, goal: seq<byte>)
    reads p, p.buffer
  {
    && p.Valid() && Within(text, rest, goal) && |goal| + 32 <= LIMIT
    && |goal| - |rest| - |text| <= p.offset <= |goal| - |rest| < p.buffer.Length
    && p.buffer[..|goal| - |rest|] + rest == goal && p.buffer[|goal| - |rest|] == 0
  }

  lemma ProgressWithin(p: PrintBuffer, text: seq<byte>, rest: seq<byte>, goal: seq<byte>)
    requires Progress(p, text + rest, goal)
    ensures Within(text, rest, goal)
  {
    assert goal[|goal| - |rest| - |text|..] == text + rest;
  }

  /** The last bytes of a text complete it. */
  lemma Completed(p: PrintBuffer, last: seq<byte>, text: seq<byte>, rest: seq<byte>, goal: seq<byte>)
    requires Printed(p, last, rest, goal) && Within(text, rest, goal) && |last| <= |text|
    ensures Printed(p, text, rest, goal)
  {
  }

  lemma ProgressBound(p: PrintBuffer, w: seq<byte>, rest: seq<byte>, goal: seq<byte>)
    requires Progress(p, w + rest, goal)
    ensures p.Valid() && p.offset + |w| + 32 <= LIMIT
    ensures goal == (p.Done() + w) + rest && p.Done() + (w + rest) == goal
  {
    Assoc(p.Done(), w, rest);
  }

  lemma ProgressMade(p: PrintBuffer, done: seq<byte>, w: seq<byte>, rest: seq<byte>, goal: seq<byte>)
    requires p.Valid() && p.Done() == done + w && goal == (done + w) + rest && |goal| + 32 <= LIMIT
    ensures Progress(p, rest, goal)
  {
  }

  lemma PrintedMade(p: PrintBuffer, done: seq<byte>, w: seq<byte>, rest: seq<byte>, goal: seq<byte>)
    requires p.Valid() && p.offset == |done| && Holds(p.buffer[..], 0, done + w)
    requires goal == (done + w) + rest && |goal| + 32 <= LIMIT
    ensures Printed(p, w, rest, goal)
  {
    assert p.buffer[..|done + w|] == p.buffer[..][0..|done + w|];
  }

  /** strcpy at the offset, which stays where it is. */
  method PutHere(p: PrintBuffer, w: seq<byte>, room: nat, ghost rest: seq<byte>, ghost goal: seq<byte>)
    requires Progress(p, w + rest, goal) && |w| < room <= |w| + 32
    modifies p, p.buffer
    ensures Printed(p, w, rest, goal) && (p.buffer == old(p.buffer) || fresh(p.buffer))
  {
    hide Writing, Holds, Printed;
    ghost var done := p.Done();
    ProgressBound(p, w, rest, goal);
    p.Ensure(room);
    var out := p.buffer;
    WritingStart(out[..], p.offset, w);
    assert w + [] == w;
    var ptr := PutAll(out, p.offset, w, [], done + w);
    Finish(out, ptr, done + w);
    PrintedMade(p, done, w, rest, goal);
  }

  /** Write w at the offset and step over it; room counts the terminator where there is one. */
  method PutPiece(p: PrintBuffer, w: seq<byte>, room: nat, ghost rest: seq<byte>, ghost goal: seq<byte>)
    requires Progress(p, w + rest, goal) && |w| <= room <= |w| + 1
    modifies p, p.buffer
    ensures Progress(p, rest, goal) && (p.buffer == old(p.buffer) || fresh(p.buffer))
  {
    hide Writing;
    ghost var done := p.Done();
    ProgressBound(p, w, rest, goal);
    p.Ensure(room);
    var out := p.buffer;
    WritingStart(out[..], p.offset, w);
    assert w + [] == w;
    var ptr := PutAll(out, p.offset, w, [], done + w);
    if room > |w| {
      Zero(out, ptr, [], done + w);
    }
    WritingEnd(out[..], ptr, done + w);
    p.offset := p.offset + |w|;
    assert p.buffer[..p.offset] == out[..][..ptr];
    ProgressMade(p, done, w, rest, goal);
  }

  /** The indentation of a member. */
  method BufferTabs(p: PrintBuffer, depth: nat, ghost rest: seq<byte>, ghost goal: seq<byte>)
    requires Progress(p, Tabs(depth) + rest, goal)
    modifies p, p.buffer
    ensures Progress(p, rest, goal) && (p.buffer == old(p.buffer) || fresh(p.buffer))
  {
    hide Writing, Tabs;
    ghost var done := p.Done();
    ghost var w := Tabs(depth);
    ProgressBound(p, w, rest, goal);
    p.Ensure(depth);
    var out := p.buffer;
    WritingStart(out[..], p.offset, w);
    assert w + [] == w;
    var ptr := PutTabs(out, p.offset, depth, [], done + w);
    WritingEnd(out[..], ptr, done + w);
    p.offset := p.offset + depth;
    assert p.buffer[..p.offset] == out[..][..ptr];
    ProgressMade(p, done, w, rest, goal);
  }

  /** print_number */
  method BufferNumber(p: PrintBuffer, d: real, n: int, ghost rest: seq<byte>, ghost goal: seq<byte>)
    requires IsInt32(d) && n == d.Floor && Progress(p, NumberText(d, n) + rest, goal)
    modifies p, p.buffer
    ensures Printed(p, NumberText(d, n), rest, goal) && (p.buffer == old(p.buffer) || fresh(p.buffer))
  {
    hide Printed, Progress;
    if d == 0.0 {
      PutHere(p, [ZERO], 2, rest, goal);
    } else {
      IntFits(n);
      PutHere(p, IntText(n), 21, rest, goal);
    }
  }

  /** print_string_ptr */
  method BufferString(p: PrintBuffer, str: Option<seq<byte>>, ghost rest: seq<byte>, ghost goal: seq<byte>)
    requires NulFree(TextOf(str)) && Progress(p, StringText(TextOf(str)) + rest, goal)
    modifies p, p.buffer
    ensures Printed(p, StringText(TextOf(str)), rest, goal) && (p.buffer == old(p.buffer) || fresh(p.buffer))
  {
    hide Writing, Holds, Printed;
    ghost var text, done := StringText(TextOf(str)), p.Done();
    ProgressBound(p, text, rest, goal);
    var room, flag := StringRoom(str);
    p.Ensure(room);
    var out := p.buffer;
    WritingStart(out[..], p.offset, text);
    var ptr;
    if str == None {
      assert text == [QUOTE, QUOTE] + [];
      ptr := PutAll(out, p.offset, [QUOTE, QUOTE], [], done + text);
    } else {
      ptr := PutString(out, p.offset, str.value, flag, done + text);
    }
    Finish(out, ptr, done + text);
    PrintedMade(p, done, text, rest, goal);
  }

  lemma PrintedHolds(p: PrintBuffer, text: seq<byte>, rest: seq<byte>, goal: seq<byte>)
    requires Printed(p, text, rest, goal)
    ensures var tail := text[p.offset - (|goal| - |rest| - |text|)..];
      Holds(p.buffer[..], p.offset, tail) && p.offset + |tail| == |goal| - |rest|
  {
    var end := |goal| - |rest|;
    assert p.buffer[..end] == goal[..end];
    assert p.buffer[..][p.offset..end] == goal[p.offset..end];
    assert text[p.offset - (end - |text|)..] == goal[p.offset..end];
  }

  /** p->offset = update(p) */
  method Advance(p: PrintBuffer, ghost text: seq<byte>, ghost rest: seq<byte>, ghost goal: seq<byte>)
    requires Printed(p, text, rest, goal) && NulFree(text)
    modifies p`offset
    ensures Progress(p, rest, goal) && p.buffer == old(p.buffer)
  {
    PrintedHolds(p, text, rest, goal);
    ghost var tail := text[p.offset - (|goal| - |rest| - |text|)..];
    hide Holds;
    var n := p.Update(tail);
    p.offset := n;
  }

  // ----- arrays and objects

  /** The buffer is not one of the nodes. */
  lemma Foreign(ts: seq<Tree>, p: PrintBuffer, b: array<byte>)
    ensures var ns: set<object> := Forest(ts); p !in ns && b !in ns
    ensures forall n :: n in Forest(ts) ==> allocated(n)
  {
    Allocated(ts);
  }

  /** Print child number i behind what has been written. */
  method BufferChild(p: PrintBuffer, c: Node, depth: nat, fmt: bool, ghost ts: seq<Tree>, ghost i: nat,
                     ghost vs: seq<Json>, ghost ms: seq<Member>, ghost rest: seq<byte>, ghost goal: seq<byte>)
    requires Source(ts, vs, ms) && i < |ts| && c == ts[i].root && |vs| == |ms| == |ts| && Printable(vs[i])
    requires Progress(p, Text(vs[i], depth, fmt) + rest, goal)
    modifies p, p.buffer
    ensures Source(ts, vs, ms) && c.next == Nth(Roots(ts), i + 1)
    ensures Progress(p, rest, goal) && (p.buffer == old(p.buffer) || fresh(p.buffer))
    decreases ts, 0
  {
    hide Source, TreeAt, Value, Text, Forest, Nodes, Holds, Values, Members, Printable, Printed, Progress;
    SourceAt(ts, vs, ms, i);
    Foreign(ts, p, p.buffer);
    BufferValue(p, c, depth, fmt, ts[i], rest, goal);
    TextNulFree(vs[i], depth, fmt);
    Foreign(ts, p, p.buffer);
    Advance(p, Text(vs[i], depth, fmt), rest, goal);
    SourceAt(ts, vs, ms, i);
  }

  /** Print the items with their separators. */
  method BufferItems(p: PrintBuffer, first: Node?, depth: nat, fmt: bool, ghost ts: seq<Tree>,
                     ghost vs: seq<Json>, ghost ms: seq<Member>, ghost rest: seq<byte>, ghost goal: seq<byte>)
    requires Source(ts, vs, ms) && first == Nth(Roots(ts), 0) && PrintableItems(vs) && |vs| == |ms| == |ts|
    requires Progress(p, ItemsText(vs, depth, fmt) + rest, goal)
    modifies p, p.buffer
    ensures Progress(p, rest, goal) && (p.buffer == old(p.buffer) || fresh(p.buffer))
    decreases ts, 2
  {
    hide Source, Text, ItemsText, Progress, Forest, ItemSep;
    var child := first;
    ghost var i := 0;
    assert vs[0..] == vs;
    while child != null
      invariant i <= |ts| && child == Nth(Roots(ts), i) && Source(ts, vs, ms)
      invariant Progress(p, ItemsText(vs[i..], depth, fmt) + rest, goal)
      invariant p.buffer == old(p.buffer) || fresh(p.buffer)
      decreases |ts| - i
    {
      child := BufferItem(p, child, depth, fmt, ts, i, vs, ms, rest, goal);
      i := i + 1;
    }
    ItemsTextNone(vs, depth, fmt, rest);
  }

  /** Print one item and the separator behind it. */
  method BufferItem(p: PrintBuffer, c: Node, depth: nat, fmt: bool, ghost ts: seq<Tree>, ghost i: nat,
                    ghost vs: seq<Json>, ghost ms: seq<Member>, ghost rest: seq<byte>, ghost goal: seq<byte>)
    returns (next: Node?)
    requires Source(ts, vs, ms) && i < |ts| && c == Nth(Roots(ts), i) && PrintableItems(vs) && |vs| == |ms| == |ts|
    requires Progress(p, ItemsText(vs[i..], depth, fmt) + rest, goal)
    modifies p, p.buffer
    ensures Source(ts, vs, ms) && next == Nth(Roots(ts), i + 1)
    ensures Progress(p, ItemsText(vs[i + 1..], depth, fmt) + rest, goal)
    ensures p.buffer == old(p.buffer) || fresh(p.buffer)
    decreases ts, 1
  {
    hide Source, Text, ItemsText, Progress, Forest;
    PrintableAt(vs, i);
    ItemsTextStep(vs, i, depth, fmt, rest);
    ghost var after := ItemsText(vs[i + 1..], depth, fmt) + rest;
    ghost var sep := if i + 1 == |vs| then [] else ItemSep(fmt);
    BufferChild(p, c, depth, fmt, ts, i, vs, ms, sep + after, goal);
    if c.next != null {
      var len := if fmt then 2 else 1;
      Foreign(ts, p, p.buffer);
      PutPiece(p, ItemSep(fmt), len + 1, after, goal);
      SourceAt(ts, vs, ms, i);
    } else {
      assert sep + after == after;
    }
    next := c.next;
  }

  lemma ProgressArray(p: PrintBuffer, vs: seq<Json>, depth: nat, fmt: bool, rest: seq<byte>, goal: seq<byte>)
    requires Progress(p, Text(Array(vs), depth, fmt) + rest, goal)
    ensures Within(Text(Array(vs), depth, fmt), rest, goal)
    ensures Progress(p, [LBRACKET] + (ItemsText(vs, depth + 1, fmt) + ([RBRACKET] + rest)), goal)
    ensures |Text(Array(vs), depth, fmt)| >= 1
  {
    ProgressWithin(p, Text(Array(vs), depth, fmt), rest, goal);
    Assoc([LBRACKET], ItemsText(vs, depth + 1, fmt) + [RBRACKET], rest);
    Assoc(ItemsText(vs, depth + 1, fmt), [RBRACKET], rest);
  }

  /** print_array */
  method BufferArray(p: PrintBuffer, item: Node, depth: nat, fmt: bool, ghost t: Tree,
                     ghost rest: seq<byte>, ghost goal: seq<byte>)
    requires TreeAt(item, t) && item.kind == KArray && Printable(Value(t))
    requires Progress(p, Text(Value(t), depth, fmt) + rest, goal)
    modifies p, p.buffer
    ensures Printed(p, Text(old(Value(t)), depth, fmt), rest, goal)
    ensures p.buffer == old(p.buffer) || fresh(p.buffer)
    decreases t, 1
  {
    hide Source, Text, ItemsText, TreeAt, Values, Members, Printable, Value, Progress, Printed, Forest, Within;
    PrintableNode(item, t);
    ghost var vs, ms := Values(t.kids), Members(t.kids);
    SourceOf(item, t);
    Allocated(t.kids);
    var numentries := Count(item.child, t.kids, vs, ms);
    ProgressArray(p, vs, depth, fmt, rest, goal);
    if numentries == 0 {
      ArrayText(vs, depth, fmt);
      PutHere(p, [LBRACKET, RBRACKET], 3, rest, goal);
    } else {
      ghost var close := [RBRACKET] + rest;
      Foreign(t.kids, p, p.buffer);
      PutPiece(p, [LBRACKET], 1, ItemsText(vs, depth + 1, fmt) + close, goal);
      BufferItems(p, item.child, depth + 1, fmt, t.kids, vs, ms, close, goal);
      PutHere(p, [RBRACKET], 2, rest, goal);
      Completed(p, [RBRACKET], Text(Array(vs), depth, fmt), rest, goal);
    }
  }

  /** Print one member: indentation, key, colon, value, comma and line end. */
  method BufferMember(p: PrintBuffer, c: Node, depth: nat, fmt: bool, ghost ts: seq<Tree>, ghost i: nat,
                      ghost vs: seq<Json>, ghost ms: seq<Member>, ghost rest: seq<byte>, ghost goal: seq<byte>)
    returns (next: Node?)
    requires Source(ts, vs, ms) && i < |ts| && c == Nth(Roots(ts), i) && PrintableMembers(ms) && |vs| == |ms| == |ts|
    requires Progress(p, MembersText(ms[i..], depth, fmt) + rest, goal)
    modifies p, p.buffer
    ensures Source(ts, vs, ms) && next == Nth(Roots(ts), i + 1)
    ensures Progress(p, MembersText(ms[i + 1..], depth, fmt) + rest, goal)
    ensures p.buffer == old(p.buffer) || fresh(p.buffer)
    decreases ts, 2
  {
    hide Source, Text, MembersText, Progress, Forest, StringText, Indent, Colon, MemberEnd;
    PrintableMemberAt(ms, i);
    MembersTextStep(ms, i, depth, fmt, rest);
    ghost var after := MembersText(ms[i + 1..], depth, fmt) + rest;
    ghost var value, end := Text(ms[i].value, depth, fmt), MemberEnd(i + 1 == |ms|, fmt);
    BufferKey(p, c, depth, fmt, ts, i, vs, ms, value + (end + after), goal);
    SourceAt(ts, vs, ms, i);
    BufferChild(p, c, depth, fmt, ts, i, vs, ms, end + after, goal);
    Foreign(ts, p, p.buffer);
    EndLength(c.next == null, fmt);
    var room := (if fmt then 1 else 0) + (if c.next != null then 1 else 0) + 1;
    PutPiece(p, MemberEnd(c.next == null, fmt), room, after, goal);
    SourceAt(ts, vs, ms, i);
    next := c.next;
  }

  lemma EndLength(last: bool, fmt: bool)
    ensures |MemberEnd(last, fmt)| == (if fmt then 1 else 0) + (if last then 0 else 1)
  {
  }

  /** Print the indentation, the key and the colon. */
  method BufferKey(p: PrintBuffer, c: Node, depth: nat, fmt: bool, ghost ts: seq<Tree>, ghost i: nat,
                   ghost vs: seq<Json>, ghost ms: seq<Member>, ghost rest: seq<byte>, ghost goal: seq<byte>)
    requires Source(ts, vs, ms) && i < |ts| && c == Nth(Roots(ts), i) && PrintableMembers(ms) && |vs| == |ms| == |ts|
    requires Progress(p, Indent(depth, fmt) + (StringText(ms[i].name) + (Colon(fmt) + rest)), goal)
    modifies p, p.buffer
    ensures Source(ts, vs, ms)
    ensures Progress(p, rest, goal) && (p.buffer == old(p.buffer) || fresh(p.buffer))
  {
    hide Source, Progress, Printed, Forest, StringText, Tabs;
    SourceAt(ts, vs, ms, i);
    PrintableMemberAt(ms, i);
    StringNulFree(ms[i].name);
    ghost var name := StringText(ms[i].name);
    ghost var colon := Colon(fmt) + rest;
    Foreign(ts, p, p.buffer);
    if fmt {
      BufferTabs(p, depth, name + colon, goal);
    } else {
      assert Indent(depth, fmt) + (name + colon) == name + colon;
    }
    Foreign(ts, p, p.buffer);
    BufferString(p, c.name, colon, goal);
    Foreign(ts, p, p.buffer);
    Advance(p, name, colon, goal);
    PutPiece(p, Colon(fmt), if fmt then 2 else 1, rest, goal);
  }

  /** Print the members. */
  method BufferMembers(p: PrintBuffer, first: Node?, depth: nat, fmt: bool, ghost ts: seq<Tree>,
                       ghost vs: seq<Json>, ghost ms: seq<Member>, ghost rest: seq<byte>, ghost goal: seq<byte>)
    requires Source(ts, vs, ms) && first == Nth(Roots(ts), 0) && PrintableMembers(ms) && |vs| == |ms| == |ts|
    requires Progress(p, MembersText(ms, depth, fmt) + rest, goal)
    modifies p, p.buffer
    ensures Progress(p, rest, goal) && (p.buffer == old(p.buffer) || fresh(p.buffer))
    decreases ts, 3
  {
    hide Source, Text, MembersText, Progress, Forest;
    var child := first;
    ghost var i := 0;
    assert ms[0..] == ms;
    while child != null
      invariant i <= |ts| && child == Nth(Roots(ts), i) && Source(ts, vs, ms)
      invariant Progress(p, MembersText(ms[i..], depth, fmt) + rest, goal)
      invariant p.buffer == old(p.buffer) || fresh(p.buffer)
      decreases |ts| - i
    {
      child := BufferMember(p, child, depth, fmt, ts, i, vs, ms, rest, goal);
      i := i + 1;
    }
    MembersTextNone(ms, depth, fmt, rest);
  }

  /** The end of an object; room counts the terminator. */
  method BufferClose(p: PrintBuffer, depth: nat, fmt: bool, ghost rest: seq<byte>, ghost goal: seq<byte>)
    requires Progress(p, (Indent(depth, fmt) + [RBRACE]) + rest, goal)
    modifies p, p.buffer
    ensures Printed(p, Indent(depth, fmt) + [RBRACE], rest, goal) && (p.buffer == old(p.buffer) || fresh(p.buffer))
  {
    hide Writing, Printed, Holds;
    ghost var done, w := p.Done(), Indent(depth, fmt) + [RBRACE];
    ProgressBound(p, w, rest, goal);
    p.Ensure(if fmt then depth + 2 else 2);
    var out := p.buffer;
    WritingStart(out[..], p.offset, w);
    var ptr := PutClose(out, p.offset, depth, fmt, done + w);
    Finish(out, ptr, done + w);
    PrintedMade(p, done, w, rest, goal);
  }

  /** The text of an object without members. */
  method BufferEmptyObject(p: PrintBuffer, depth: nat, fmt: bool, ghost rest: seq<byte>, ghost goal: seq<byte>)
    requires Progress(p, Text(Object([]), depth, fmt) + rest, goal)
    modifies p, p.buffer
    ensures Printed(p, Text(Object([]), depth, fmt), rest, goal) && (p.buffer == old(p.buffer) || fresh(p.buffer))
  {
    hide Writing, Printed, Holds, Open, Indent, Text;
    ObjectText([], depth, fmt);
    ghost var done, w := p.Done(), Text(Object([]), depth, fmt);
    ProgressBound(p, w, rest, goal);
    p.Ensure(if fmt then depth + 4 else 3);
    var out := p.buffer;
    WritingStart(out[..], p.offset, w);
    var ptr := PutOpen(out, p.offset, fmt, Indent(depth, fmt) + [RBRACE], done + w);
    ptr := PutClose(out, ptr, depth, fmt, done + w);
    Finish(out, ptr, done + w);
    PrintedMade(p, done, w, rest, goal);
  }

  lemma ProgressObject(p: PrintBuffer, ms: seq<Member>, depth: nat, fmt: bool, rest: seq<byte>, goal: seq<byte>)
    requires Progress(p, Text(Object(ms), depth, fmt) + rest, goal)
    ensures Within(Text(Object(ms), depth, fmt), rest, goal)
    ensures Progress(p, Open(fmt) + (MembersText(ms, depth + 1, fmt) + ((Indent(depth, fmt) + [RBRACE]) + rest)), goal)
    ensures |Text(Object(ms), depth, fmt)| >= |Indent(depth, fmt) + [RBRACE]|
  {
    ProgressWithin(p, Text(Object(ms), depth, fmt), rest, goal);
    ObjectText(ms, depth, fmt);
    hide Progress, Text, Open, MembersText, Indent;
    var close := Indent(depth, fmt) + [RBRACE];
    Assoc(Open(fmt), MembersText(ms, depth + 1, fmt) + close, rest);
    Assoc(MembersText(ms, depth + 1, fmt), close, rest);
  }

  /** print_object */
  method BufferObject(p: PrintBuffer, item: Node, depth: nat, fmt: bool, ghost t: Tree,
                      ghost rest: seq<byte>, ghost goal: seq<byte>)
    requires TreeAt(item, t) && item.kind == KObject && Printable(Value(t))
    requires Progress(p, Text(Value(t), depth, fmt) + rest, goal)
    modifies p, p.buffer
    ensures Printed(p, Text(old(Value(t)), depth, fmt), rest, goal)
    ensures p.buffer == old(p.buffer) || fresh(p.buffer)
    decreases t, 1
  {
    hide Source, Text, MembersText, TreeAt, Values, Members, Printable, Value, Progress, Printed, Forest, Within;
    hide Indent;
    PrintableNode(item, t);
    ghost var vs, ms := Values(t.kids), Members(t.kids);
    SourceOf(item, t);
    Allocated(t.kids);
    var numentries := Count(item.child, t.kids, vs, ms);
    ProgressObject(p, ms, depth, fmt, rest, goal);
    if numentries == 0 {
      BufferEmptyObject(p, depth, fmt, rest, goal);
    } else {
      ghost var close := (Indent(depth, fmt) + [RBRACE]) + rest;
      Foreign(t.kids, p, p.buffer);
      PutPiece(p, Open(fmt), if fmt then 3 else 2, MembersText(ms, depth + 1, fmt) + close, goal);
      BufferMembers(p, item.child, depth + 1, fmt, t.kids, vs, ms, close, goal);
      BufferClose(p, depth, fmt, rest, goal);
      Completed(p, Indent(depth, fmt) + [RBRACE], Text(Object(ms), depth, fmt), rest, goal);
    }
  }

  /** print_value with a buffer */
  method BufferValue(p: PrintBuffer, item: Node, depth: nat, fmt: bool, ghost t: Tree,
                     ghost rest: seq<byte>, ghost goal: seq<byte>)
    requires TreeAt(item, t) && Printable(Value(t))
    requires Progress(p, Text(Value(t), depth, fmt) + rest, goal)
    modifies p, p.buffer
    ensures Printed(p, Text(old(Value(t)), depth, fmt), rest, goal)
    ensures p.buffer == old(p.buffer) || fresh(p.buffer)
    decreases t, 2
  {
    hide TreeAt, Progress, Printed, Value, Printable;
    PrintableNode(item, t);
    match item.kind
    case KNull => PutHere(p, NULL_TEXT, 5, rest, goal);
    case KFalse => PutHere(p, FALSE_TEXT, 6, rest, goal);
    case KTrue => PutHere(p, TRUE_TEXT, 5, rest, goal);
    case KNumber => BufferNumber(p, item.valuedouble, item.valueint, rest, goal);
    case KString => BufferString(p, item.valuestring, rest, goal);
    case KArray => BufferArray(p, item, depth, fmt, t, rest, goal);
    case KObject => BufferObject(p, item, depth, fmt, t, rest, goal);
  }

  // ----- the three entry points

  method Print(item: Node, ghost t: Tree) returns (out: array<byte>)
    requires TreeAt(item, t) && Printable(Value(t))
    ensures fresh(out) && Holds(out[..], 0, Text(old(Value(t)), 0, true))
  {
    out := PrintValue(item, 0, true, t);
  }

  method PrintUnformatted(item: Node, ghost t: Tree) returns (out: array<byte>)
    requires TreeAt(item, t) && Printable(Value(t))
    ensures fresh(out) && Holds(out[..], 0, Text(old(Value(t)), 0, false))
  {
    out := PrintValue(item, 0, false, t);
  }

  /** The same text as Print or PrintUnformatted, whatever the size the buffer starts with. */
  method PrintBuffered(item: Node, prebuffer: nat, fmt: bool, ghost t: Tree) returns (out: array<byte>)
    requires TreeAt(item, t) && Printable(Value(t)) && prebuffer >= 1
    requires |Text(Value(t), 0, fmt)| + 32 <= LIMIT
    ensures fresh(out) && Holds(out[..], 0, Text(old(Value(t)), 0, fmt))
  {
    hide TreeAt, Value, Printable, Text, Nodes, Forest, Printed;
    ghost var text := Text(Value(t), 0, fmt);
    TreeExists(t);
    var p := new PrintBuffer(prebuffer);
    assert text + [] == text && p.buffer[..0] + text == text;
    BufferValue(p, item, 0, fmt, t, [], text);
    PrintedAll(p, text);
    out := p.buffer;
  }

  lemma TreeExists(t: Tree)
    ensures forall n :: n in Nodes(t) ==> allocated(n)
    ensures Forest(t.kids) <= Nodes(t)
  {
    Allocated(t.kids);
  }

  lemma PrintedAll(p: PrintBuffer, text: seq<byte>)
    requires Printed(p, text, [], text)
    ensures Holds(p.buffer[..], 0, text)
  {
    assert p.buffer[..|text|] + [] == p.buffer[..|text|];
  }
}
