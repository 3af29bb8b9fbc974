// The parser as the library runs it: it walks over the text, fills nodes and
// links them. Every method computes what JsonParse says.
module JsonParser {
  import opened CText
  import opened Bits
  import opened JsonValue
  import opened JsonParse
  import opened JsonNode
  import opened JsonEdit

  lemma SuffixStep(s: seq<byte>, i: nat)
    requires i < |s|
    ensures s[i..] != [] && s[i..][0] == s[i] && s[i..][1..] == s[i + 1..]
  {
  }

  lemma HdAt(s: seq<byte>, i: nat)
    requires i <= |s|
    ensures Hd(s[i..]) == At(s, i)
  {
  }

  method SkipSpace(s: seq<byte>, start: nat) returns (i: nat)
    requires start <= |s|
    ensures start <= i <= |s| && s[i..] == Skip(s[start..])
  {
    i := start;
    while At(s, i) != 0 && At(s, i) <= 32
      invariant start <= i <= |s| && Skip(s[i..]) == Skip(s[start..])
      decreases |s| - i
    {
      SuffixStep(s, i);
      i := i + 1;
    }
    HdAt(s, i);
  }

  // ----- numbers

  method ReadDigits(s: seq<byte>, start: nat, m: real) returns (n: real, i: nat)
    requires start <= |s|
    ensures start <= i <= |s| && (n, s[i..]) == Digits(s[start..], m)
  {
    n, i := m, start;
    while 48 <= At(s, i) <= 57
      invariant start <= i <= |s| && Digits(s[i..], n) == Digits(s[start..], m)
      decreases |s| - i
    {
      SuffixStep(s, i);
      n := n * 10.0 + (s[i] - ZERO) as real;
      i := i + 1;
    }
    HdAt(s, i);
  }

  method ReadExponentDigits(s: seq<byte>, start: nat) returns (n: int, i: nat)
    requires start <= |s|
    ensures start <= i <= |s| && (n, s[i..]) == DigitsInt(s[start..], 0)
  {
    n, i := 0, start;
    while 48 <= At(s, i) <= 57
      invariant start <= i <= |s| && DigitsInt(s[i..], n) == DigitsInt(s[start..], 0)
      decreases |s| - i
    {
      SuffixStep(s, i);
      n := n * 10 + (s[i] - ZERO);
      i := i + 1;
    }
    HdAt(s, i);
  }

  method ReadFraction(s: seq<byte>, start: nat, m: real) returns (n: real, scale: int, i: nat)
    requires start <= |s|
    ensures start <= i <= |s| && (n, scale, s[i..]) == Fraction(s[start..], m)
  {
    n, scale, i := m, 0, start;
    HdAt(s, start);
    if At(s, start) == DOT {
      SuffixStep(s, start);
      HdAt(s, start + 1);
      if 48 <= At(s, start + 1) <= 57 {
        n, i := ReadDigits(s, start + 1, m);
        scale := start + 1 - i;
      }
    }
  }

  method ReadExponent(s: seq<byte>, start: nat) returns (e: int, i: nat)
    requires start <= |s|
    ensures start <= i <= |s| && (e, s[i..]) == Exponent(s[start..])
  {
    e, i := 0, start;
    HdAt(s, start);
    if At(s, start) == 101 || At(s, start) == 69 {
      SuffixStep(s, start);
      HdAt(s, start + 1);
      i := start + 1;
      var sign := 1;
      if At(s, i) == 43 {
        SuffixStep(s, i);
        i := i + 1;
      } else if At(s, i) == MINUS {
        SuffixStep(s, i);
        sign := -1;
        i := i + 1;
      }
      e, i := ReadExponentDigits(s, i);
      e := e * sign;
    }
  }

  method ReadInteger(s: seq<byte>, start: nat) returns (n: real, i: nat)
    requires start <= |s|
    ensures start <= i <= |s| && (n, s[i..]) == IntegerPart(s[start..])
  {
    hide Digits;
    n, i := 0.0, start;
    HdAt(s, i);
    if At(s, i) == ZERO {
      SuffixStep(s, i);
      i := i + 1;
      HdAt(s, i);
    }
    if 49 <= At(s, i) <= 57 {
      n, i := ReadDigits(s, i, n);
    }
  }

  /** Read a number into item. */
  method ParseNumberInto(item: Node, s: seq<byte>, start: nat) returns (i: nat)
    requires start <= |s|
    modifies item`kind, item`valuedouble, item`valueint
    ensures start <= i <= |s| && (item.valuedouble, s[i..]) == ParseNumber(s[start..])
    ensures item.kind == KNumber && item.valueint == Truncate(item.valuedouble)
  {
    hide IntegerPart, Fraction, Exponent, Scaled, Truncate;
    var n, sign, scale, e := 0.0, 1.0, 0, 0;
    i := start;
    HdAt(s, i);
    if At(s, i) == MINUS {
      SuffixStep(s, i);
      sign := -1.0;
      i := i + 1;
    }
    n, i := ReadInteger(s, i);
    n, scale, i := ReadFraction(s, i, n);
    e, i := ReadExponent(s, i);
    n := Scaled(sign, n, scale + e);
    item.valuedouble := n;
    item.valueint := Truncate(n);
    item.kind := KNumber;
  }

  // ----- strings

  /** The first pass, started at start, stands at end and has counted len bytes. */
  ghost predicate Counting(s: seq<byte>, start: nat, end: nat, len: nat) {
    start <= end <= |s| && Scan(s[start..]) == Bump(Scan(s[end..]), len, end - start)
  }

  lemma CountStep(s: seq<byte>, start: nat, end: nat, len: nat)
    requires Counting(s, start, end, len) && At(s, end) != 0 && At(s, end) != QUOTE
    ensures end < |s|
    ensures if s[end] != BACKSLASH then Counting(s, start, end + 1, len + 1)
            else if At(s, end + 1) == 0 then Scan(s[start..]) == None
            else Counting(s, start, end + 2, len + 1)
  {
    hide Scan;
    SuffixStep(s, end);
    HdAt(s, end + 1);
    ScanStep(s[end..]);
    if s[end] == BACKSLASH && end + 1 < |s| {
      DropDrop(s, end, 2);
    }
  }

  /** One step of the first pass. */
  lemma ScanStep(b: seq<byte>)
    requires b != [] && b[0] != QUOTE && b[0] != 0
    ensures b[0] != BACKSLASH ==> Scan(b) == Bump(Scan(b[1..]), 1, 1)
    ensures b[0] == BACKSLASH ==>
              if Hd(b[1..]) == 0 then Scan(b) == None else |b| >= 2 && Scan(b) == Bump(Scan(b[2..]), 1, 2)
  {
  }

  lemma CountDone(s: seq<byte>, start: nat, end: nat, len: nat)
    requires Counting(s, start, end, len) && (At(s, end) == 0 || At(s, end) == QUOTE)
    ensures Scan(s[start..]) == Some((len, end - start))
  {
    HdAt(s, end);
  }

  /** The first pass: the bytes to allocate and the end of the literal. */
  method CountString(s: seq<byte>, start: nat) returns (ok: bool, len: nat, end: nat)
    requires start <= |s|
    ensures start <= end <= |s|
    ensures if ok then Scan(s[start..]) == Some((len, end - start)) else Scan(s[start..]) == None
  {
    len, end := 0, start;
    assert Counting(s, start, end, len);
    hide Scan;
    while At(s, end) != QUOTE && At(s, end) != 0
      invariant start <= end <= |s| && Counting(s, start, end, len)
      decreases |s| - end
    {
      CountStep(s, start, end, len);
      len := len + 1;
      end := end + 1;
      if s[end - 1] == BACKSLASH {
        if At(s, end) == 0 {
          return false, len, end;
        }
        end := end + 1;
      }
    }
    CountDone(s, start, end, len);
    ok := true;
  }

  /** The second pass has read ptr bytes of the text and written n bytes of the copy. */
  ghost predicate CopyingString(s: seq<byte>, ptr: nat, end: nat, out: seq<byte>, n: nat, goal: Copied) {
    && ptr <= end <= |s|
    && InStep(s[ptr..], end - ptr)
    && n + Scan(s[ptr..]).value.0 < |out|
    && goal == Cons(out[..n], Copy(s[ptr..], end - ptr))
  }

  /** Copying one plain byte. */
  lemma PlainCopyStep(s: seq<byte>, ptr: nat, end: nat, out: seq<byte>, n: nat, goal: Copied)
    requires CopyingString(s, ptr, end, out, n, goal) && ptr < end && s[ptr] != BACKSLASH
    ensures n + 1 < |out|
    ensures CopyingString(s, ptr + 1, end, out[n := s[ptr]], n + 1, goal)
  {
    hide Scan, Copy;
    SuffixStep(s, ptr);
    var b := s[ptr..];
    CopyPlain(b, end - ptr);
    ConsCons(out[..n], [s[ptr]], Copy(b[1..], end - ptr - 1));
    assert out[n := s[ptr]][..n + 1] == out[..n] + [s[ptr]];
  }

  lemma ConsCons(a: seq<byte>, b: seq<byte>, c: Copied)
    ensures Cons(a, Cons(b, c)) == Cons(a + b, c)
  {
    if c.Copied? {
      Assoc(a, b, c.out);
    }
  }

  /** Copying a backslash and a letter. */
  lemma LetterCopyStep(s: seq<byte>, ptr: nat, end: nat, out: seq<byte>, n: nat, goal: Copied)
    requires CopyingString(s, ptr, end, out, n, goal) && ptr < end && s[ptr] == BACKSLASH
    ensures ptr + 1 < end && n + 1 < |out|
    ensures s[ptr + 1] != 117 ==>
              CopyingString(s, ptr + 2, end, out[n := SimpleEscape(s[ptr + 1])], n + 1, goal)
  {
    hide Scan, Copy, SimpleEscape;
    SuffixStep(s, ptr);
    var b := s[ptr..];
    CopyLetter(b, end - ptr);
    DropDrop(s, ptr, 2);
    assert b[1] == s[ptr + 1];
    if b[1] != 117 {
      var c := SimpleEscape(b[1]);
      ConsCons(out[..n], [c], Copy(b[2..], end - ptr - 2));
      assert out[n := c][..n + 1] == out[..n] + [c];
    }
  }

  /** Four hexadecimal digits at i, read no further than the first wrong byte. */
  method ReadHex4(s: seq<byte>, i: nat) returns (h: nat)
    requires i <= |s|
    ensures h == ParseHex4(s[i..])
  {
    hide ParseHex4;
    HexAt(s, i);
    var a := HexValue(At(s, i));
    if a == None {
      return 0;
    }
    var b := HexValue(At(s, i + 1));
    if b == None {
      return 0;
    }
    var c := HexValue(At(s, i + 2));
    if c == None {
      return 0;
    }
    var d := HexValue(At(s, i + 3));
    if d == None {
      return 0;
    }
    h := ((a.value * 16 + b.value) * 16 + c.value) * 16 + d.value;
  }

  predicate HexAtByte(s: seq<byte>, i: nat) {
    i < |s| && HexValue(s[i]).Some?
  }

  lemma HexAt(s: seq<byte>, i: nat)
    requires i <= |s|
    ensures ParseHex4(s[i..]) ==
            if HexAtByte(s, i) && HexAtByte(s, i + 1) && HexAtByte(s, i + 2) && HexAtByte(s, i + 3)
            then ((HexValue(s[i]).value * 16 + HexValue(s[i + 1]).value) * 16
                  + HexValue(s[i + 2]).value) * 16 + HexValue(s[i + 3]).value
            else 0
  {
    hide HexValue;
    var d := s[i..];
    assert |d| >= 4 ==> d[0] == s[i] && d[1] == s[i + 1] && d[2] == s[i + 2] && d[3] == s[i + 3];
  }

  /** The escape whose u is at ptr: its code point and the position of its last digit. */
  method ReadUnicode(s: seq<byte>, at: nat, end: nat) returns (ok: bool, uc: nat, ptr: nat)
    requires 0 < at < end <= |s| && InStep(s[at - 1..], end - (at - 1))
    requires s[at - 1] == BACKSLASH && s[at] == 117
    ensures var r := ParseUnicode(s[at - 1..], end - (at - 1));
      if ok then r.CodePoint? && r.uc == uc && at + r.size == ptr + 2 else r == BadEscape
  {
    hide ParseHex4, Scan;
    DropDrop(s, at - 1, 2);
    uc := ReadHex4(s, at + 1);
    ptr := at + 4;
    if ptr >= end {
      return false, uc, ptr;
    }
    if 0xDC00 <= uc <= 0xDFFF || uc == 0 {
      return false, uc, ptr;
    }
    if 0xD800 <= uc <= 0xDBFF {
      if ptr + 6 > end {
        return false, uc, ptr;
      }
      assert s[at - 1..][6] == s[ptr + 1];
      assert At(s[at - 1..], 7) == At(s, ptr + 2);
      if s[ptr + 1] != BACKSLASH || At(s, ptr + 2) != 117 {
        return false, uc, ptr;
      }
      DropDrop(s, at - 1, 8);
      var uc2 := ReadHex4(s, ptr + 3);
      ptr := ptr + 6;
      if uc2 < 0xDC00 || uc2 > 0xDFFF {
        return false, uc, ptr;
      }
      uc := Combine(uc, uc2);
    }
    ok := true;
  }

  /** The bytes of a code point, written from the last to the first. */
  method WriteUtf8(out: array<byte>, n: nat, code: nat) returns (n': nat)
    requires n + |EncodeUtf8(code)| <= out.Length
    modifies out
    ensures n' == n + |EncodeUtf8(code)|
    ensures out[..n] == old(out[..n]) && out[n..n'] == EncodeUtf8(code) && out[n'..] == old(out[n'..])
  {
    hide ContByte, FirstByte, Shr;
    var uc := code;
    var len := if uc < 0x80 then 1 else if uc < 0x800 then 2 else if uc < 0x10000 then 3 else 4;
    n' := n + len;
    if len >= 4 {
      n' := n' - 1;
      out[n'] := ContByte(uc);
      uc := Shr(uc, 6);
    }
    if len >= 3 {
      n' := n' - 1;
      out[n'] := ContByte(uc);
      uc := Shr(uc, 6);
    }
    if len >= 2 {
      n' := n' - 1;
      out[n'] := ContByte(uc);
      uc := Shr(uc, 6);
    }
    n' := n' - 1;
    out[n'] := FirstByte(uc, FirstByteMark(len));
    n' := n' + len;
  }

  function FirstByteMark(len: nat): nat {
    if len == 2 then 0xC0 else if len == 3 then 0xE0 else if len == 4 then 0xF0 else 0
  }

  /** A unicode escape in the second pass: enough room was counted for its bytes. */
  lemma UnicodeStep(s: seq<byte>, ptr: nat, end: nat, out: seq<byte>, n: nat, goal: Copied)
    requires CopyingString(s, ptr, end, out, n, goal)
    requires ptr < end && s[ptr] == BACKSLASH && ptr + 1 < end && s[ptr + 1] == 117
    ensures InStep(s[ptr..], end - ptr)
    ensures var r := ParseUnicode(s[ptr..], end - ptr);
      if r.BadEscape? then goal == BadCopy
      else n + |EncodeUtf8(r.uc)| < |out|
  {
    SuffixStep(s, ptr);
    hide Scan, ParseUnicode, EncodeUtf8;
    assert s[ptr..][1] == s[ptr + 1];
    if ParseUnicode(s[ptr..], end - ptr).CodePoint? {
      UnicodeCopyStep(s[ptr..], end - ptr);
    }
  }

  lemma UnicodeStepDone(s: seq<byte>, ptr: nat, end: nat, out: seq<byte>, out': seq<byte>, n: nat, n': nat,
                        goal: Copied)
    requires CopyingString(s, ptr, end, out, n, goal)
    requires ptr < end && s[ptr] == BACKSLASH && ptr + 1 < end && s[ptr + 1] == 117
    requires InStep(s[ptr..], end - ptr) && ParseUnicode(s[ptr..], end - ptr).CodePoint?
    requires var e := EncodeUtf8(ParseUnicode(s[ptr..], end - ptr).uc);
      n' == n + |e| && |out'| == |out| && n' <= |out'| && out'[..n'] == out[..n] + e
    ensures CopyingString(s, ptr + ParseUnicode(s[ptr..], end - ptr).size, end, out', n', goal)
  {
    hide Scan, ParseUnicode, EncodeUtf8, Copy;
    SuffixStep(s, ptr);
    var r := ParseUnicode(s[ptr..], end - ptr);
    assert s[ptr..][1] == s[ptr + 1];
    UnicodeCopyStep(s[ptr..], end - ptr);
    DropDrop(s, ptr, r.size);
    EscapeDone(s, ptr, end, out, out', n, n', goal, EncodeUtf8(r.uc), r.size);
  }

  lemma EscapeDone(s: seq<byte>, ptr: nat, end: nat, out: seq<byte>, out': seq<byte>, n: nat, n': nat, goal: Copied,
                   e: seq<byte>, size: nat)
    requires CopyingString(s, ptr, end, out, n, goal)
    requires ptr + size <= end && InStep(s[ptr + size..], end - ptr - size)
    requires Copy(s[ptr..], end - ptr) == Cons(e, Copy(s[ptr + size..], end - ptr - size))
    requires Scan(s[ptr..]).value.0 >= |e| + Scan(s[ptr + size..]).value.0
    requires n' == n + |e| && |out'| == |out| && n' <= |out'| && out'[..n'] == out[..n] + e
    ensures CopyingString(s, ptr + size, end, out', n', goal)
  {
    hide Copy;
    ConsCons(out[..n], e, Copy(s[ptr + size..], end - ptr - size));
  }

  /** A unicode escape, from its backslash. */
  method CopyUnicode(s: seq<byte>, out: array<byte>, ptr: nat, end: nat, n: nat, ghost goal: Copied)
    returns (ok: bool, ptr': nat, n': nat)
    requires CopyingString(s, ptr, end, out[..], n, goal)
    requires ptr < end && s[ptr] == BACKSLASH && ptr + 1 < end && s[ptr + 1] == 117
    modifies out
    ensures if ok then ptr < ptr' && CopyingString(s, ptr', end, out[..], n', goal) else goal == BadCopy
  {
    hide CopyingString, Scan, ParseUnicode, EncodeUtf8;
    ghost var was := out[..];
    UnicodeStep(s, ptr, end, was, n, goal);
    UnicodeBounds(s, ptr, end, was, n, goal);
    var uc;
    ok, uc, ptr' := ReadUnicode(s, ptr + 1, end);
    n' := n;
    if ok {
      n' := WriteUtf8(out, n, uc);
      assert out[..][..n'] == was[..n] + EncodeUtf8(uc) by {
        assert out[..][..n'] == out[..n] + out[n..n'];
        assert was[..n] == old(out[..n]);
      }
      UnicodeStepDone(s, ptr, end, was, out[..], n, n', goal);
      ptr' := ptr' + 1;
    }
  }

  lemma UnicodeBounds(s: seq<byte>, ptr: nat, end: nat, out: seq<byte>, n: nat, goal: Copied)
    requires CopyingString(s, ptr, end, out, n, goal)
    ensures ptr <= end <= |s| && n < |out|
  {
  }

  /** One character or escape of the second pass. */
  method CopyCharacter(s: seq<byte>, out: array<byte>, ptr: nat, end: nat, n: nat, ghost goal: Copied)
    returns (ok: bool, ptr': nat, n': nat)
    requires CopyingString(s, ptr, end, out[..], n, goal) && ptr < end
    modifies out
    ensures if ok then ptr < ptr' && CopyingString(s, ptr', end, out[..], n', goal) else goal == BadCopy
  {
    hide CopyingString;
    UnicodeBounds(s, ptr, end, out[..], n, goal);
    ghost var was := out[..];
    ok := true;
    if s[ptr] != BACKSLASH {
      PlainCopyStep(s, ptr, end, was, n, goal);
      out[n] := s[ptr];
      ptr', n' := ptr + 1, n + 1;
    } else {
      LetterCopyStep(s, ptr, end, was, n, goal);
      if s[ptr + 1] == 117 {
        ok, ptr', n' := CopyUnicode(s, out, ptr, end, n, goal);
      } else {
        out[n] := SimpleEscape(s[ptr + 1]);
        ptr', n' := ptr + 2, n + 1;
      }
    }
    assert n < |was| ==> was[n := out[n]][..] == was[n := out[n]];
  }

  lemma CopyingStart(s: seq<byte>, start: nat, end: nat, out: seq<byte>, len: nat)
    requires start <= |s| && Scan(s[start..]) == Some((len, end - start)) && start <= end && |out| == len + 1
    ensures CopyingString(s, start, end, out, 0, Copy(s[start..], end - start))
  {
    assert out[..0] == [];
  }

  lemma CopyingEnd(s: seq<byte>, end: nat, out: seq<byte>, n: nat, goal: Copied)
    requires CopyingString(s, end, end, out, n, goal)
    ensures n < |out| && goal == Copied(out[..n], s[end..])
  {
  }

  /** Read a string literal into item: its bytes are copied to a buffer of the counted size. */
  method ParseStringInto(item: Node, s: seq<byte>, start: nat) returns (ok: bool, end: nat)
    requires start <= |s|
    modifies item`kind, item`valuestring
    ensures start <= end <= |s|
    ensures match ParseString(s[start..])
      case Fail => !ok
      case Ok(str, rest) => ok && item.kind == KString && item.valuestring == Some(str) && rest == s[end..]
  {
    hide Scan, CopyingString, Copy;
    ok, end := false, start;
    HdAt(s, start);
    if At(s, start) != QUOTE {
      return;
    }
    SuffixStep(s, start);
    var len: nat, ptr: nat, n: nat;
    ok, len, end := CountString(s, start + 1);
    if !ok {
      return;
    }
    var out := new byte[len + 1];
    item.kind := KString;
    ghost var goal := Copy(s[start + 1..], end - (start + 1));
    CopyingStart(s, start + 1, end, out[..], len);
    ptr, n := start + 1, 0;
    while ptr < end
      invariant ptr <= end && CopyingString(s, ptr, end, out[..], n, goal)
      invariant item.kind == KString
      decreases end - ptr
    {
      ok, ptr, n := CopyCharacter(s, out, ptr, end, n, goal);
      if !ok {
        return;
      }
      UnicodeBounds(s, ptr, end, out[..], n, goal);
    }
    CopyingEnd(s, end, out[..], n, goal);
    out[n] := 0;
    item.valuestring := Some(out[..n]);
    HdAt(s, end);
    if At(s, end) == QUOTE {
      SuffixStep(s, end);
      end := end + 1;
    }
  }

  // ----- growing a list of children

  /** A new child is linked behind the finished ones; what it holds is still open. */
  ghost predicate Linked(root: Node, kids: seq<Tree>, child: Node, vs: seq<Json>, ms: seq<Member>)
    reads {root}`child, Forest(kids), {child}`next, {child}`prev
  {
    RootsIn(kids);
    && Apart(Tree(root, kids)) && child != root && child !in Forest(kids)
    && ShapeAll(kids)
    && root.child == Nth(Roots(kids) + [child], 0) && Chain(Roots(kids) + [child])
    && Values(kids) == vs && Members(kids) == ms
  }

  /** The child has been filled with the tree x. */
  lemma Filled(root: Node, kids: seq<Tree>, child: Node, x: Tree, vs: seq<Json>, ms: seq<Member>)
    requires Linked(root, kids, child, vs, ms) && TreeAt(child, x)
    requires Nodes(x) !! Forest(kids) && root !in Nodes(x)
    ensures Listed(root, kids + [x], vs + [Value(x)], ms + [Member(TextOf(child.name), Value(x))])
  {
    ApartConcat(kids, [x]);
    ForestConcat(kids, [x]);
    Singleton(x);
    ShapeConcat(kids, [x]);
    ShapeSingleton(x);
    AppendRoots(kids, x);
    AppendValue(kids, x);
  }

  lemma BareTree(child: Node)
    requires child.child == null
    ensures TreeAt(child, Tree(child, [])) && Nodes(Tree(child, [])) == {child}
  {
  }

  lemma LinkReady(root: Node, kids: seq<Tree>, vs: seq<Json>, ms: seq<Member>)
    requires Listed(root, kids, vs, ms)
    ensures Apart(Tree(root, kids)) && ShapeAll(kids) && Values(kids) == vs && Members(kids) == ms
    ensures root !in Forest(kids) && RootSet(kids) !! Inner(kids) && Distinct(Roots(kids))
    ensures root.child == Nth(Roots(kids), 0) && Chain(Roots(kids))
    ensures Inner(kids) <= Forest(kids) && RootSet(kids) <= Forest(kids)
  {
    RootsDistinct(kids);
    RootsIn(kids);
  }

  lemma DistinctAppend(rs: seq<Node>, child: Node)
    requires Distinct(rs) && child !in rs
    ensures Distinct(rs + [child])
  {
  }

  /** A new node behind the last child. */
  method NewChild(root: Node, last: Node?, ghost kids: seq<Tree>, ghost vs: seq<Json>, ghost ms: seq<Member>)
    returns (child: Node)
    requires Listed(root, kids, vs, ms) && last == Nth(Roots(kids), |kids| - 1)
    modifies {root}`child, RootSet(kids)`next
    ensures fresh(child) && child.child == null && child.valuestring == None && child.name == None
    ensures Linked(root, kids, child, vs, ms) && child != root && child !in Forest(kids)
  {
    hide Listed, Apart, Shape, ShapeAll, Forest, Inner, Values, Members, Distinct;
    hide Linked, Roots, Chain, Nth;
    LinkReady(root, kids, vs, ms);
    Allocated(kids);
    child := new Node();
    DistinctAppend(Roots(kids), child);
    LinkLast(root, last, child, Roots(kids), kids);
    LinkedDone(root, kids, child, vs, ms);
  }

  lemma LinkedDone(root: Node, kids: seq<Tree>, child: Node, vs: seq<Json>, ms: seq<Member>)
    requires Apart(Tree(root, kids)) && child != root && child !in Forest(kids) && ShapeAll(kids)
    requires root.child == Nth(Roots(kids) + [child], 0) && Chain(Roots(kids) + [child])
    requires Values(kids) == vs && Members(kids) == ms
    ensures Linked(root, kids, child, vs, ms)
  {
  }

  /** A fresh node becomes the first child or is linked behind the last one. */
  method LinkLast(root: Node, last: Node?, child: Node, ghost rs: seq<Node>, ghost kids: seq<Tree>)
    requires Chain(rs) && Distinct(rs + [child]) && root.child == Nth(rs, 0) && last == Nth(rs, |rs| - 1)
    requires ShapeAll(kids) && root !in Forest(kids) && (set r | r in rs) !! Inner(kids)
    requires child != root && child !in Inner(kids) && Detached(child)
    modifies {root}`child, (set r | r in rs)`next, {child}`prev
    ensures root.child == Nth(rs + [child], 0) && Chain(rs + [child]) && ShapeAll(kids)
    ensures Values(kids) == old(Values(kids)) && Members(kids) == old(Members(kids))
  {
    hide ShapeAll, Forest, Inner, Values, Members, Distinct;
    if last == null {
      root.child := child;
    } else {
      SuffixObject(last, child, rs, kids);
    }
  }

  // ----- values

  /** What is left to read of an array after one of its items. */
  function ItemsTail(t: seq<byte>): Parsed<seq<Json>> {
    if Hd(t) == COMMA then ParseItems(t[1..])
    else if Hd(t) == RBRACKET then Ok([], t[1..])
    else Fail
  }

  function MembersTail(t: seq<byte>): Parsed<seq<Member>> {
    if Hd(t) == COMMA then ParseMembers(t[1..])
    else if Hd(t) == RBRACE then Ok([], t[1..])
    else Fail
  }

  function Prepend<T>(a: seq<T>, r: Parsed<seq<T>>): Parsed<seq<T>> {
    match r
    case Fail => Fail
    case Ok(b, rest) => Ok(a + b, rest)
  }

  lemma PrependTwice<T>(a: seq<T>, b: seq<T>, r: Parsed<seq<T>>)
    ensures Prepend(a, Prepend(b, r)) == Prepend(a + b, r)
    ensures Prepend([], r) == r
  {
    if r.Ok? {
      assert a + (b + r.value) == (a + b) + r.value;
      assert [] + r.value == r.value;
    }
  }

  lemma ItemsStep(s: seq<byte>)
    ensures match ParseValue(Skip(s))
      case Fail => ParseItems(s) == Fail
      case Ok(v, rest) => ParseItems(s) == Prepend([v], ItemsTail(Skip(rest)))
  {
    hide ParseValue, Skip;
    if ParseValue(Skip(s)).Ok? {
      var v := ParseValue(Skip(s)).value;
      assert [v] + [] == [v];
    }
  }

  lemma MembersStep(s: seq<byte>)
    ensures match ParseMember(s)
      case Fail => ParseMembers(s) == Fail
      case Ok(m, rest) => ParseMembers(s) == Prepend([m], MembersTail(Skip(rest)))
  {
    hide ParseMember, Skip;
    if ParseMember(s).Ok? {
      var m := ParseMember(s).value;
      assert [m] + [] == [m];
    }
  }

  /** A node that a value may be read into. */
  ghost predicate Blank(n: Node)
    reads n
  {
    n.child == null && n.valuestring == None
  }

  /** The children of a value that has been read. */
  lemma ListDone(root: Node, kids: seq<Tree>, vs: seq<Json>, ms: seq<Member>)
    requires Listed(root, kids, vs, ms)
    ensures var t := Tree(root, kids);
      && TreeAt(root, t) && Nodes(t) == {root} + Forest(kids)
      && (root.kind == KArray ==> Value(t) == Array(vs))
      && (root.kind == KObject ==> Value(t) == Object(ms))
  {
  }

  lemma ListNone(root: Node)
    requires root.child == null
    ensures Listed(root, [], [], []) && Forest([]) == {}
  {
  }

  /** Read one item of an array into a new child and jump over the space behind it. */
  method ParseElement(root: Node, last: Node?, s: seq<byte>, i: nat,
                      ghost kids: seq<Tree>, ghost vs: seq<Json>, ghost ms: seq<Member>)
    returns (ok: bool, j: nat, child: Node, ghost x: Tree, ghost v: Json)
    requires i <= |s| && Listed(root, kids, vs, ms) && last == Nth(Roots(kids), |kids| - 1)
    modifies {root}`child, RootSet(kids)`next
    ensures ok ==>
      && i < j <= |s| && ParseItems(s[i..]) == Prepend([v], ItemsTail(s[j..]))
      && Listed(root, kids + [x], vs + [v], ms + [Member([], v)])
      && x.root == child && fresh(Nodes(x))
    ensures !ok ==> ParseItems(s[i..]) == Fail
    decreases |s| - i, 4
  {
    hide Listed, Linked, Apart, Shape, ShapeAll, Forest, Inner, Nodes, Values, Members, Value, TreeAt, Distinct;
    hide ParseValue, ParseItems, Skip, ItemsTail;
    v := Null;
    ItemsStep(s[i..]);
    Allocated(kids);
    j := SkipSpace(s, i);
    child := NewChild(root, last, kids, vs, ms);
    Allocated(kids);
    label before:
    ok, j, x := ParseValueInto(child, s, j);
    if ok {
      ghost var below: set<Node> := Nodes(x) - {child};
      assert fresh@before(below);
      assert fresh(below);
      Filled(root, kids, child, x, vs, ms);
      assert Nodes(x) <= below + {child};
      v := Value(x);
      Allocated(kids + [x]);
      j := SkipSpace(s, j);
    }
  }

  /** A key, the colon, and the space behind it. */
  function KeyOf(s: seq<byte>): Parsed<seq<byte>> {
    match ParseString(Skip(s))
    case Fail => Fail
    case Ok(name, rest) =>
      var t := Skip(rest);
      if Hd(t) != COLON then Fail else Ok(name, Skip(t[1..]))
  }

  lemma MemberStep2(s: seq<byte>)
    ensures match KeyOf(s)
      case Fail => ParseMembers(s) == Fail
      case Ok(name, value) =>
        match ParseValue(value)
        case Fail => ParseMembers(s) == Fail
        case Ok(v, rest) => ParseMembers(s) == Prepend([Member(name, v)], MembersTail(Skip(rest)))
  {
    MembersStep(s);
    hide ParseMembers, MembersTail, ParseValue, ParseString;
  }

  /** Read a key into the name of a node. */
  method ReadKey(child: Node, s: seq<byte>, i: nat) returns (ok: bool, j: nat)
    requires i <= |s|
    modifies child`kind, child`valuestring, child`name
    ensures match KeyOf(s[i..])
      case Fail => !ok
      case Ok(name, value) =>
        && ok && i <= j <= |s| && s[j..] == value
        && child.name == Some(name) && child.valuestring == None
  {
    hide ParseString, Skip;
    j := SkipSpace(s, i);
    ok, j := ParseStringInto(child, s, j);
    if !ok {
      return;
    }
    j := SkipSpace(s, j);
    child.name := child.valuestring;
    child.valuestring := None;
    HdAt(s, j);
    if At(s, j) != COLON {
      ok := false;
      return;
    }
    SuffixStep(s, j);
    j := SkipSpace(s, j + 1);
  }

  /** Read one key and its value into a new child and jump over the space behind them. */
  method ParseMemberElement(root: Node, last: Node?, s: seq<byte>, i: nat,
                            ghost kids: seq<Tree>, ghost vs: seq<Json>, ghost ms: seq<Member>)
    returns (ok: bool, j: nat, child: Node, ghost x: Tree, ghost m: Member)
    requires i <= |s| && Listed(root, kids, vs, ms) && last == Nth(Roots(kids), |kids| - 1)
    modifies {root}`child, RootSet(kids)`next
    ensures ok ==>
      && i < j <= |s| && ParseMembers(s[i..]) == Prepend([m], MembersTail(s[j..]))
      && Listed(root, kids + [x], vs + [m.value], ms + [m])
      && x.root == child && fresh(Nodes(x))
    ensures !ok ==> ParseMembers(s[i..]) == Fail
    decreases |s| - i, 4
  {
    hide Listed, Linked, Apart, Shape, ShapeAll, Forest, Inner, Nodes, Values, Members, Value, TreeAt, Distinct;
    hide ParseValue, KeyOf, ParseMembers, Skip, MembersTail;
    m, x := Member([], Null), Tree(root, []);
    MemberStep2(s[i..]);
    child := NewChild(root, last, kids, vs, ms);
    Allocated(kids);
    ok, j := ReadKey(child, s, i);
    if !ok {
      return;
    }
    Allocated(kids);
    label before:
    ok, j, x := ParseValueInto(child, s, j);
    if ok {
      ghost var below: set<Node> := Nodes(x) - {child};
      assert fresh@before(below);
      assert fresh(below);
      Filled(root, kids, child, x, vs, ms);
      assert Nodes(x) <= below + {child};
      m := Member(TextOf(child.name), Value(x));
      Allocated(kids + [x]);
      j := SkipSpace(s, j);
    }
  }

  lemma ItemsEnd(s: seq<byte>, i: nat, goal: Parsed<seq<Json>>, vs: seq<Json>)
    requires i <= |s| && goal == Prepend(vs, ItemsTail(s[i..]))
    ensures At(s, i) == COMMA ==> i < |s| && goal == Prepend(vs, ParseItems(s[i + 1..]))
    ensures At(s, i) != COMMA && At(s, i) == RBRACKET ==> i < |s| && goal == Ok(vs, s[i + 1..])
    ensures At(s, i) != COMMA && At(s, i) != RBRACKET ==> goal == Fail
  {
    HdAt(s, i);
    if i < |s| {
      SuffixStep(s, i);
      assert vs + [] == vs;
    }
  }

  lemma MembersEnd(s: seq<byte>, i: nat, goal: Parsed<seq<Member>>, ms: seq<Member>)
    requires i <= |s| && goal == Prepend(ms, MembersTail(s[i..]))
    ensures At(s, i) == COMMA ==> i < |s| && goal == Prepend(ms, ParseMembers(s[i + 1..]))
    ensures At(s, i) != COMMA && At(s, i) == RBRACE ==> i < |s| && goal == Ok(ms, s[i + 1..])
    ensures At(s, i) != COMMA && At(s, i) != RBRACE ==> goal == Fail
  {
    HdAt(s, i);
    if i < |s| {
      SuffixStep(s, i);
      assert ms + [] == ms;
    }
  }

  /** Read the items of an array, from the first item to behind the closing bracket. */
  method ParseItemsInto(root: Node, s: seq<byte>, start: nat)
    returns (ok: bool, end: nat, ghost kids: seq<Tree>, ghost vs: seq<Json>, ghost ms: seq<Member>)
    requires start <= |s| && root.child == null
    modifies root`child
    ensures if ok then end <= |s| && ParseItems(s[start..]) == Ok(vs, s[end..])
            else ParseItems(s[start..]) == Fail
    ensures ok ==> fresh(Forest(kids)) && Listed(root, kids, vs, ms)
    decreases |s| - start, 5
  {
    hide Listed, Forest, Nodes, ParseItems, ItemsTail;
    ghost var goal := ParseItems(s[start..]);
    ghost var x, v;
    ListNone(root);
    var last;
    ok, end, last, x, v := ParseElement(root, null, s, start, [], [], []);
    kids, vs, ms := [x], [v], [Member([], v)];
    if !ok {
      return;
    }
    ListOne(x, v, Member([], v));
    while At(s, end) == COMMA
      invariant start < end <= |s| && Listed(root, kids, vs, ms) && last == Nth(Roots(kids), |kids| - 1)
      invariant fresh(Forest(kids)) && goal == Prepend(vs, ItemsTail(s[end..]))
      decreases |s| - end
    {
      ItemsEnd(s, end, goal, vs);
      RootsIn(kids);
      ok, end, last, x, v := ParseElement(root, last, s, end + 1, kids, vs, ms);
      if !ok {
        return;
      }
      AppendForest(kids, x);
      PrependTwice(vs, [v], ItemsTail(s[end..]));
      kids, vs, ms := kids + [x], vs + [v], ms + [Member([], v)];
    }
    ItemsEnd(s, end, goal, vs);
    ok := At(s, end) == RBRACKET;
    if ok {
      end := end + 1;
    }
  }

  lemma ListOne(x: Tree, v: Json, m: Member)
    ensures [] + [x] == [x] && [] + [v] == [v] && [] + [m] == [m]
    ensures Forest([x]) == Nodes(x)
  {
    Singleton(x);
  }

  /** Read the members of an object, from the first key to behind the closing brace. */
  method ParseMembersInto(root: Node, s: seq<byte>, start: nat)
    returns (ok: bool, end: nat, ghost kids: seq<Tree>, ghost vs: seq<Json>, ghost ms: seq<Member>)
    requires start <= |s| && root.child == null
    modifies root`child
    ensures if ok then end <= |s| && ParseMembers(s[start..]) == Ok(ms, s[end..])
            else ParseMembers(s[start..]) == Fail
    ensures ok ==> fresh(Forest(kids)) && Listed(root, kids, vs, ms)
    decreases |s| - start, 5
  {
    hide Listed, Forest, Nodes, ParseMembers, MembersTail;
    ghost var goal := ParseMembers(s[start..]);
    ghost var x, m;
    ListNone(root);
    var last;
    ok, end, last, x, m := ParseMemberElement(root, null, s, start, [], [], []);
    kids, vs, ms := [x], [m.value], [m];
    if !ok {
      return;
    }
    ListOne(x, m.value, m);
    while At(s, end) == COMMA
      invariant start < end <= |s| && Listed(root, kids, vs, ms) && last == Nth(Roots(kids), |kids| - 1)
      invariant fresh(Forest(kids)) && goal == Prepend(ms, MembersTail(s[end..]))
      decreases |s| - end
    {
      MembersEnd(s, end, goal, ms);
      RootsIn(kids);
      ok, end, last, x, m := ParseMemberElement(root, last, s, end + 1, kids, vs, ms);
      if !ok {
        return;
      }
      AppendForest(kids, x);
      PrependTwice(ms, [m], MembersTail(s[end..]));
      kids, vs, ms := kids + [x], vs + [m.value], ms + [m];
    }
    MembersEnd(s, end, goal, ms);
    ok := At(s, end) == RBRACE;
    if ok {
      end := end + 1;
    }
  }

  /** The suffix of s at i starts with the word w, as strncmp tells it. */
  method StartsWith(s: seq<byte>, i: nat, w: seq<byte>) returns (yes: bool)
    requires i <= |s|
    ensures yes == (w <= s[i..])
    ensures yes ==> i + |w| <= |s| && s[i..][|w|..] == s[i + |w|..]
  {
    yes := i + |w| <= |s| && s[i..i + |w|] == w;
    if yes {
      assert s[i..][..|w|] == w;
      DropDrop(s, i, |w|);
    } else if i + |w| <= |s| {
      assert s[i..i + |w|] == s[i..][..|w|];
    }
  }

  lemma ArrayValue(s: seq<byte>)
    requires s != [] && s[0] == LBRACKET
    ensures var t := Skip(s[1..]);
      ParseValue(s) ==
      if Hd(t) == RBRACKET then Ok(Array([]), t[1..])
      else match ParseItems(t)
        case Fail => Fail
        case Ok(items, rest) => Ok(Array(items), rest)
  {
    hide Skip, ParseItems;
  }

  lemma ObjectValue(s: seq<byte>)
    requires s != [] && s[0] == LBRACE
    ensures var t := Skip(s[1..]);
      ParseValue(s) ==
      if Hd(t) == RBRACE then Ok(Object([]), t[1..])
      else match ParseMembers(t)
        case Fail => Fail
        case Ok(members, rest) => Ok(Object(members), rest)
  {
    hide Skip, ParseMembers;
  }

  /** Read an array into item. */
  method ParseArrayInto(item: Node, s: seq<byte>, start: nat) returns (ok: bool, end: nat, ghost t: Tree)
    requires start < |s| && s[start] == LBRACKET && Blank(item)
    modifies item`kind, item`child
    ensures if ok then end <= |s| && TreeAt(item, t) && ParseValue(s[start..]) == Ok(Value(t), s[end..])
            else ParseValue(s[start..]) == Fail
    ensures ok ==> t.root == item && fresh(Nodes(t) - {item})
    decreases |s| - start, 2
  {
    hide Listed, TreeAt, Value, Forest, Nodes, Skip, ParseItems, ParseValue;
    ghost var kids, vs, ms := [], [], [];
    SuffixStep(s, start);
    ArrayValue(s[start..]);
    ok := true;
    item.kind := KArray;
    end := SkipSpace(s, start + 1);
    HdAt(s, end);
    if At(s, end) == RBRACKET {
      SuffixStep(s, end);
      end := end + 1;
      ListNone(item);
    } else {
      ok, end, kids, vs, ms := ParseItemsInto(item, s, end);
    }
    t := Tree(item, kids);
    if ok {
      ListDone(item, kids, vs, ms);
    }
  }

  /** Read an object into item. */
  method ParseObjectInto(item: Node, s: seq<byte>, start: nat) returns (ok: bool, end: nat, ghost t: Tree)
    requires start < |s| && s[start] == LBRACE && Blank(item)
    modifies item`kind, item`child
    ensures if ok then end <= |s| && TreeAt(item, t) && ParseValue(s[start..]) == Ok(Value(t), s[end..])
            else ParseValue(s[start..]) == Fail
    ensures ok ==> t.root == item && fresh(Nodes(t) - {item})
    decreases |s| - start, 2
  {
    hide Listed, TreeAt, Value, Forest, Nodes, Skip, ParseMembers, ParseValue;
    ghost var kids, vs, ms := [], [], [];
    SuffixStep(s, start);
    ObjectValue(s[start..]);
    ok := true;
    item.kind := KObject;
    end := SkipSpace(s, start + 1);
    HdAt(s, end);
    if At(s, end) == RBRACE {
      SuffixStep(s, end);
      end := end + 1;
      ListNone(item);
    } else {
      ok, end, kids, vs, ms := ParseMembersInto(item, s, end);
    }
    t := Tree(item, kids);
    if ok {
      ListDone(item, kids, vs, ms);
    }
  }

  /** What a value that is neither an array nor an object parses to. */
  lemma ScalarValue(s: seq<byte>)
    ensures NULL_TEXT <= s ==> ParseValue(s) == Ok(Null, s[4..])
    ensures FALSE_TEXT <= s ==> ParseValue(s) == Ok(False, s[5..])
    ensures TRUE_TEXT <= s ==> ParseValue(s) == Ok(True, s[4..])
    ensures Hd(s) == QUOTE ==>
              ParseValue(s) == match ParseString(s)
                               case Fail => Fail
                               case Ok(str, rest) => Ok(String(str), rest)
    ensures Hd(s) == MINUS || IsDigit(Hd(s)) ==>
              ParseValue(s) == Ok(Number(ParseNumber(s).0, Truncate(ParseNumber(s).0)), ParseNumber(s).1)
    ensures (!(NULL_TEXT <= s) && !(FALSE_TEXT <= s) && !(TRUE_TEXT <= s)
             && Hd(s) !in {QUOTE, MINUS, LBRACKET, LBRACE} && !IsDigit(Hd(s))) ==> ParseValue(s) == Fail
  {
    hide ParseString, ParseNumber, Truncate, ParseItems, ParseMembers, Skip;
  }

  /** A node without children as a tree. */
  lemma Leaf(item: Node)
    requires item.child == null && item.kind != KArray && item.kind != KObject
    ensures var t := Tree(item, []);
      && TreeAt(item, t) && Nodes(t) - {item} == {}
      && Value(t) == match item.kind
                     case KNull => Null
                     case KFalse => False
                     case KTrue => True
                     case KNumber => Number(item.valuedouble, item.valueint)
                     case _ => String(TextOf(item.valuestring))
  {
  }

  /** Read null, false, true, a string or a number into item. */
  method ParseScalarInto(item: Node, s: seq<byte>, start: nat) returns (ok: bool, end: nat)
    requires start <= |s| && Blank(item) && At(s, start) != LBRACKET && At(s, start) != LBRACE
    modifies item`kind, item`valuestring, item`valuedouble, item`valueint
    ensures var t := Tree(item, []);
      if ok then end <= |s| && TreeAt(item, t) && ParseValue(s[start..]) == Ok(Value(t), s[end..])
      else ParseValue(s[start..]) == Fail
    ensures fresh(Nodes(Tree(item, [])) - {item})
  {
    hide TreeAt, ParseValue, ParseString, ParseNumber, Truncate, Value;
    ok := true;
    ScalarValue(s[start..]);
    HdAt(s, start);
    var isNull := StartsWith(s, start, NULL_TEXT);
    var isFalse := StartsWith(s, start, FALSE_TEXT);
    var isTrue := StartsWith(s, start, TRUE_TEXT);
    if isNull {
      item.kind := KNull;
      end := start + 4;
    } else if isFalse {
      item.kind := KFalse;
      end := start + 5;
    } else if isTrue {
      item.kind := KTrue;
      item.valueint := 1;
      end := start + 4;
    } else if At(s, start) == QUOTE {
      ok, end := ParseStringInto(item, s, start);
    } else if At(s, start) == MINUS || 48 <= At(s, start) <= 57 {
      end := ParseNumberInto(item, s, start);
    } else {
      ok, end := false, start;
    }
    if ok {
      Leaf(item);
    } else {
      BareTree(item);
    }
  }

  /** Read a value into item; its children are new nodes. */
  method ParseValueInto(item: Node, s: seq<byte>, start: nat) returns (ok: bool, end: nat, ghost t: Tree)
    requires start <= |s| && Blank(item)
    modifies item`kind, item`child, item`valuestring, item`valuedouble, item`valueint
    ensures if ok then end <= |s| && TreeAt(item, t) && ParseValue(s[start..]) == Ok(Value(t), s[end..])
            else ParseValue(s[start..]) == Fail
    ensures ok ==> t.root == item && fresh(Nodes(t) - {item})
    decreases |s| - start, 3
  {
    hide TreeAt, Nodes, ParseValue, Value;
    t := Tree(item, []);
    if At(s, start) == LBRACKET {
      ok, end, t := ParseArrayInto(item, s, start);
    } else if At(s, start) == LBRACE {
      ok, end, t := ParseObjectInto(item, s, start);
    } else {
      ok, end := ParseScalarInto(item, s, start);
    }
  }

  /**
   * ParseWithOpts: a new well-linked tree for the value at the start of the
   * text; with requireEnd nothing but whitespace may follow it.
   */
  method ParseWithOpts(s: seq<byte>, requireEnd: bool) returns (c: Node?, end: nat, ghost t: Tree)
    requires NulFree(s)
    ensures match ParseValue(Skip(s))
      case Fail => c == null
      case Ok(v, rest) =>
        (c == null) == (requireEnd && Skip(rest) != []) &&
        (c != null ==>
          && TreeAt(c, t) && t.root == c && Value(t) == v && fresh(Nodes(t)) && Detached(c)
          && end <= |s| && s[end..] == if requireEnd then [] else rest)
  {
    hide TreeAt, ParseValue, Value, Nodes, Skip;
    var root := new Node();
    c, end := root, 0;
    assert s[0..] == s;
    end := SkipSpace(s, 0);
    var ok;
    label before:
    ok, end, t := ParseValueInto(root, s, end);
    if !ok {
      c := null;
      return;
    }
    ghost var below: set<Node> := Nodes(t) - {root};
    assert fresh@before(below);
    assert Nodes(t) <= below + {root};
    TreeAllocated(t);
    if requireEnd {
      end := SkipSpace(s, end);
      HdAt(s, end);
      SkipEnd(s[end..]);
      if At(s, end) != 0 {
        c := null;
      }
    }
  }

  lemma TreeAllocated(t: Tree)
    ensures forall n :: n in Nodes(t) ==> allocated(n)
    ensures Forest(t.kids) <= Nodes(t)
  {
    Allocated(t.kids);
  }

  lemma SkipEnd(t: seq<byte>)
    requires NulFree(t)
    ensures Hd(t) == 0 <==> t == []
  {
  }
}
