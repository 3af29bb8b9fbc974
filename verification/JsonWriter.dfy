// Writing into a buffer piece by piece. Both printers write the same pieces;
// they differ in where the room for them comes from.
module JsonWriter {
  import opened CText
  import opened JsonValue

  /** The first ptr bytes of out are written; with rest behind them they would be goal, which fits. */
  ghost predicate Writing(out: seq<byte>, ptr: nat, rest: seq<byte>, goal: seq<byte>) {
    ptr <= |out| && out[..ptr] + rest == goal && |goal| <= |out|
  }

  lemma WritingStart(out: seq<byte>, ptr: nat, rest: seq<byte>)
    requires ptr + |rest| <= |out|
    ensures Writing(out, ptr, rest, out[..ptr] + rest)
  {
  }

  lemma WritingEnd(out: seq<byte>, ptr: nat, goal: seq<byte>)
    requires Writing(out, ptr, [], goal)
    ensures ptr == |goal| && out[..ptr] == goal
  {
    assert out[..ptr] + [] == out[..ptr];
  }

  lemma WritingStep(out: seq<byte>, out': seq<byte>, ptr: nat, b: byte, rest: seq<byte>, goal: seq<byte>)
    requires Writing(out, ptr, [b] + rest, goal) && ptr < |out| && out' == out[ptr := b]
    ensures Writing(out', ptr + 1, rest, goal)
  {
    assert out'[..ptr + 1] == out[..ptr] + [b];
    Assoc(out[..ptr], [b], rest);
  }

  /** *ptr++ = b */
  method Put(out: array<byte>, ptr: nat, b: byte, ghost rest: seq<byte>, ghost goal: seq<byte>) returns (next: nat)
    requires Writing(out[..], ptr, [b] + rest, goal)
    modifies out
    ensures next == ptr + 1 && Writing(out[..], next, rest, goal)
  {
    ghost var was := out[..];
    assert |was[..ptr] + ([b] + rest)| == ptr + 1 + |rest|;
    out[ptr] := b;
    WritingStep(was, out[..], ptr, b, rest, goal);
    next := ptr + 1;
  }

  /** *ptr = 0, where something else will be written later */
  method Zero(out: array<byte>, ptr: nat, ghost rest: seq<byte>, ghost goal: seq<byte>)
    requires Writing(out[..], ptr, rest, goal) && ptr < out.Length
    modifies out
    ensures Writing(out[..], ptr, rest, goal) && out[ptr] == 0
  {
    ghost var was := out[..ptr];
    out[ptr] := 0;
    assert out[..][..ptr] == was;
  }

  /** The text is complete: *ptr = 0 */
  method Finish(out: array<byte>, ptr: nat, ghost goal: seq<byte>)
    requires Writing(out[..], ptr, [], goal) && |goal| < out.Length
    modifies out
    ensures ptr == |goal| && Holds(out[..], 0, goal)
  {
    WritingEnd(out[..], ptr, goal);
    ghost var was := out[..ptr];
    out[ptr] := 0;
    assert out[..][..ptr] == was;
  }

  lemma SuffixCons(w: seq<byte>, j: nat, rest: seq<byte>)
    requires j < |w|
    ensures w[j..] + rest == [w[j]] + (w[j + 1..] + rest)
  {
    assert w[j..] == [w[j]] + w[j + 1..];
  }

  /** strcpy without the terminator. */
  method PutAll(out: array<byte>, ptr: nat, w: seq<byte>, ghost rest: seq<byte>, ghost goal: seq<byte>)
    returns (next: nat)
    requires Writing(out[..], ptr, w + rest, goal)
    modifies out
    ensures next == ptr + |w| && Writing(out[..], next, rest, goal)
  {
    hide Writing;
    next := ptr;
    var j := 0;
    assert w[0..] == w;
    while j < |w|
      invariant 0 <= j <= |w| && next == ptr + j
      invariant Writing(out[..], next, w[j..] + rest, goal)
    {
      SuffixCons(w, j, rest);
      next := Put(out, next, w[j], w[j + 1..] + rest, goal);
      j := j + 1;
    }
    assert w[|w|..] + rest == rest;
  }

  /** memcpy of a finished text into out. */
  method PutText(out: array<byte>, ptr: nat, src: array<byte>, len: nat, ghost text: seq<byte>,
                 ghost rest: seq<byte>, ghost goal: seq<byte>)
    returns (next: nat)
    requires src != out && Holds(src[..], 0, text) && len == |text|
    requires Writing(out[..], ptr, text + rest, goal)
    modifies out
    ensures next == ptr + len && Writing(out[..], next, rest, goal)
  {
    hide Writing;
    assert src[..len] == text;
    next := PutAll(out, ptr, src[..len], rest, goal);
  }

  method StrLen(src: array<byte>, from: nat, ghost text: seq<byte>) returns (n: nat)
    requires Holds(src[..], from, text) && NulFree(text)
    ensures n == |text|
  {
    n := 0;
    assert src[..][from..from + |text|] == text;
    while src[from + n] != 0
      invariant n <= |text|
      decreases |text| - n
    {
      assert n < |text| ==> text[n] == src[from + n];
      n := n + 1;
    }
  }

  lemma TabsStep(n: nat, rest: seq<byte>)
    requires n > 0
    ensures Tabs(n) + rest == [TAB] + (Tabs(n - 1) + rest)
  {
  }

  method PutTabs(out: array<byte>, ptr: nat, depth: nat, ghost rest: seq<byte>, ghost goal: seq<byte>)
    returns (next: nat)
    requires Writing(out[..], ptr, Tabs(depth) + rest, goal)
    modifies out
    ensures next == ptr + depth && Writing(out[..], next, rest, goal)
  {
    hide Writing, Tabs;
    next := ptr;
    var j := 0;
    while j < depth
      invariant 0 <= j <= depth && next == ptr + j
      invariant Writing(out[..], next, Tabs(depth - j) + rest, goal)
    {
      TabsStep(depth - j, rest);
      next := Put(out, next, TAB, Tabs(depth - j - 1) + rest, goal);
      j := j + 1;
    }
    NoTabs(rest);
  }

  lemma NoTabs(rest: seq<byte>)
    ensures Tabs(0) + rest == rest
  {
  }

  // ----- strings

  /** A byte of a string that is not written as it stands. */
  predicate Special(c: byte) {
    0 < c < 32 || c == QUOTE || c == BACKSLASH
  }

  lemma {:induction false} NothingSpecial(s: seq<byte>)
    requires NulFree(s) && forall i :: 0 <= i < |s| ==> !Special(s[i])
    ensures Escape(s) == s
  {
    if s != [] {
      NothingSpecial(s[1..]);
      assert s == [s[0]] + s[1..];
    }
  }

  /** The loop that looks for something to escape. */
  method NeedsEscape(str: seq<byte>) returns (flag: bool)
    ensures flag == exists i :: 0 <= i < |str| && Special(str[i])
  {
    flag := false;
    var i := 0;
    while i < |str|
      invariant 0 <= i <= |str|
      invariant flag == exists k :: 0 <= k < i && Special(str[k])
    {
      flag := flag || Special(str[i]);
      i := i + 1;
    }
  }

  /** The loop that counts the bytes of the escaped string. */
  method EscapedLength(str: seq<byte>) returns (len: nat)
    requires NulFree(str)
    ensures len == |Escape(str)|
  {
    len := 0;
    var i := 0;
    assert str[0..] == str;
    while i < |str|
      invariant 0 <= i <= |str|
      invariant len + |Escape(str[i..])| == |Escape(str)|
    {
      var token := str[i];
      assert str[i..][1..] == str[i + 1..];
      len := len + 1;
      if token in [QUOTE, BACKSLASH, 8, 12, LF, CR, TAB] {
        len := len + 1;
      } else if token < 32 {
        len := len + 5;
      }
      i := i + 1;
    }
  }

  /** Write one byte of a string. */
  method PutEscaped(out: array<byte>, ptr: nat, c: byte, ghost rest: seq<byte>, ghost goal: seq<byte>)
    returns (next: nat)
    requires Writing(out[..], ptr, EscapeByte(c) + rest, goal)
    modifies out
    ensures next == ptr + |EscapeByte(c)| && Writing(out[..], next, rest, goal)
  {
    hide Writing;
    if c > 31 && c != QUOTE && c != BACKSLASH {
      next := Put(out, ptr, c, rest, goal);
    } else {
      ghost var tail := EscapeByte(c)[1..];
      assert EscapeByte(c) + rest == [BACKSLASH] + (tail + rest);
      next := Put(out, ptr, BACKSLASH, tail + rest, goal);
      if c == BACKSLASH {
        next := PutAll(out, next, [BACKSLASH], rest, goal);
      } else if c == QUOTE {
        next := PutAll(out, next, [QUOTE], rest, goal);
      } else if c == 8 {
        next := PutAll(out, next, [98], rest, goal);
      } else if c == 12 {
        next := PutAll(out, next, [102], rest, goal);
      } else if c == LF {
        next := PutAll(out, next, [110], rest, goal);
      } else if c == CR {
        next := PutAll(out, next, [114], rest, goal);
      } else if c == TAB {
        next := PutAll(out, next, [116], rest, goal);
      } else {
        next := PutAll(out, next, [117, 48, 48, HexDigit(c / 16), HexDigit(c % 16)], rest, goal);
      }
    }
  }

  lemma EscapeStep(s: seq<byte>, i: nat, rest: seq<byte>)
    requires i < |s|
    ensures Escape(s[i..]) + rest == EscapeByte(s[i]) + (Escape(s[i + 1..]) + rest)
  {
    assert s[i..][1..] == s[i + 1..];
    Assoc(EscapeByte(s[i]), Escape(s[i + 1..]), rest);
  }

  /** Write a quoted string. */
  method PutString(out: array<byte>, ptr: nat, str: seq<byte>, flag: bool, ghost goal: seq<byte>) returns (next: nat)
    requires Writing(out[..], ptr, StringText(str), goal)
    requires !flag ==> Escape(str) == str
    modifies out
    ensures Writing(out[..], next, [], goal)
  {
    hide Writing, Escape, EscapeByte;
    assert StringText(str) == [QUOTE] + (Escape(str) + [QUOTE]);
    next := Put(out, ptr, QUOTE, Escape(str) + [QUOTE], goal);
    if !flag {
      next := PutAll(out, next, str, [QUOTE], goal);
    } else {
      var i := 0;
      assert str[0..] == str;
      while i < |str|
        invariant 0 <= i <= |str|
        invariant Writing(out[..], next, Escape(str[i..]) + [QUOTE], goal)
      {
        EscapeStep(str, i, [QUOTE]);
        next := PutEscaped(out, next, str[i], Escape(str[i + 1..]) + [QUOTE], goal);
        i := i + 1;
      }
      EscapeNone(str);
    }
    assert [QUOTE] + [] == [QUOTE];
    next := Put(out, next, QUOTE, [], goal);
  }

  lemma EscapeNone(str: seq<byte>)
    ensures Escape(str[|str|..]) + [QUOTE] == [QUOTE]
  {
  }

  /** Bytes to allocate for a string, and whether it has something to escape. */
  method StringRoom(str: Option<seq<byte>>) returns (room: nat, flag: bool)
    requires NulFree(TextOf(str))
    ensures room == |StringText(TextOf(str))| + 1
    ensures str.Some? && !flag ==> Escape(str.value) == str.value
  {
    flag := false;
    if str == None {
      room := 3;
    } else {
      flag := NeedsEscape(str.value);
      if !flag {
        NothingSpecial(str.value);
        room := |str.value| + 3;
      } else {
        var len := EscapedLength(str.value);
        room := len + 3;
      }
    }
  }

  // ----- numbers

  lemma {:induction false} DecimalLength(n: nat, k: nat, bound: nat)
    requires k > 0 && n < bound && bound == TenTo(k)
    ensures |Decimal(n)| <= k
    decreases k
  {
    if n >= 10 {
      DecimalLength(n / 10, k - 1, TenTo(k - 1));
    }
  }

  function TenTo(k: nat): nat {
    if k == 0 then 1 else 10 * TenTo(k - 1)
  }

  /** Every 32-bit integer fits the 21 bytes set aside for it. */
  lemma IntFits(n: int)
    requires -0x8000_0000 <= n <= 0x7fff_ffff
    ensures |IntText(n)| < 21
  {
    assert TenTo(10) == 10_000_000_000;
    DecimalLength(if n < 0 then -n else n, 10, TenTo(10));
  }
}
