// The intrusive list. The back pointer of an entry is the slot that points at
// it: the head of the list or the next field of the entry before.
module IntrusiveList {
  import opened Sequences

  datatype Link = Nil | To(entry: Entry) | Poison

  datatype Slot = Head(list: List) | Next(owner: Entry) | BadSlot

  class Entry {
    var next: Link
    var prev: Slot

    /** An entry that is on no list. */
    constructor ()
      ensures next == Poison && prev == BadSlot
    {
      next, prev := Poison, BadSlot;
    }

    /** ns_list_link_init */
    method LinkInit()
      modifies this
      ensures next == Poison && prev == BadSlot
    {
      next, prev := Poison, BadSlot;
    }
  }

  /** Element i of a list, as its predecessor points at it. */
  ghost function LinkAt(xs: seq<Entry>, i: int): Link {
    if 0 <= i < |xs| then To(xs[i]) else Nil
  }

  /** The slot in front of element i, when the first element is at the given slot. */
  ghost function SlotFrom(slot: Slot, xs: seq<Entry>, i: int): Slot {
    if 0 < i <= |xs| then Next(xs[i - 1]) else slot
  }

  /** The slot in front of element i of a list. */
  ghost function SlotAt(list: List, xs: seq<Entry>, i: int): Slot {
    SlotFrom(Head(list), xs, i)
  }

  ghost predicate Distinct(xs: seq<Entry>) {
    forall i, j :: 0 <= i < j < |xs| ==> xs[i] != xs[j]
  }

  lemma OnlyAt(xs: seq<Entry>, k: nat)
    requires Distinct(xs) && k < |xs|
    ensures forall i :: 0 <= i < |xs| && i != k ==> xs[i] != xs[k]
  {
  }

  /** The forward links: slot k holds the link to element k. */
  ghost predicate Nexts(list: List, xs: seq<Entry>)
    reads list`first, (set x | x in xs)`next
  {
    list.first == LinkAt(xs, 0) && forall i :: 0 <= i < |xs| ==> xs[i].next == LinkAt(xs, i + 1)
  }

  /** The back links: element k, or the end of the list, knows slot k. */
  ghost predicate Prevs(list: List, xs: seq<Entry>)
    reads list`lastNext, (set x | x in xs)`prev
  {
    list.lastNext == SlotAt(list, xs, |xs|) && forall i :: 0 <= i < |xs| ==> xs[i].prev == SlotAt(list, xs, i)
  }

  /** Every prev is the slot that points at the entry, and lastNext is the slot at the end. */
  ghost predicate Linked(list: List, xs: seq<Entry>)
    reads list`first, list`lastNext, xs
  {
    Distinct(xs) && Nexts(list, xs) && Prevs(list, xs)
  }

  // ----- one slot, one back link

  /** The forward links, but slot k holds another link. */
  ghost predicate NextsBut(list: List, xs: seq<Entry>, k: nat, link: Link)
    reads list`first, (set x | x in xs)`next
  {
    && list.first == (if k == 0 then link else LinkAt(xs, 0))
    && forall i :: 0 <= i < |xs| ==> xs[i].next == if i + 1 == k then link else LinkAt(xs, i + 1)
  }

  /** The back links, but element k, or the end, knows another slot. */
  ghost predicate PrevsBut(list: List, xs: seq<Entry>, k: nat, slot: Slot)
    reads list`lastNext, (set x | x in xs)`prev
  {
    && list.lastNext == (if k == |xs| then slot else SlotAt(list, xs, |xs|))
    && forall i :: 0 <= i < |xs| ==> xs[i].prev == if i == k then slot else SlotAt(list, xs, i)
  }

  /** *slot = link */
  method SetSlot(s: Slot, link: Link, ghost list: List, ghost xs: seq<Entry>, ghost k: nat)
    requires Distinct(xs) && Nexts(list, xs) && k <= |xs| && s == SlotAt(list, xs, k)
    modifies list`first, (set x | x in xs)`next
    ensures NextsBut(list, xs, k, link)
  {
    hide Distinct;
    if k > 0 {
      OnlyAt(xs, k - 1);
    }
    match s
    case Head(l) => l.first := link;
    case Next(e) => e.next := link;
  }

  /** The back link of the entry that next points at, or of the end. */
  method SetBack(list: List, next: Link, slot: Slot, ghost xs: seq<Entry>, ghost k: nat)
    requires Distinct(xs) && Prevs(list, xs) && k <= |xs| && next == LinkAt(xs, k)
    modifies list`lastNext, (set x | x in xs)`prev
    ensures PrevsBut(list, xs, k, slot)
  {
    hide Distinct;
    if k < |xs| {
      OnlyAt(xs, k);
    }
    if next.To? {
      next.entry.prev := slot;
    } else {
      list.lastNext := slot;
    }
  }

  // ----- what the changes amount to

  lemma InsertedDistinct(xs: seq<Entry>, k: nat, entry: Entry)
    requires Distinct(xs) && k <= |xs| && entry !in xs
    ensures Distinct(Inserted(xs, k, entry))
  {
  }

  lemma InsertedNexts(list: List, xs: seq<Entry>, k: nat, entry: Entry)
    requires k <= |xs| && NextsBut(list, xs, k, To(entry)) && entry.next == LinkAt(xs, k)
    ensures Nexts(list, Inserted(xs, k, entry))
  {
    var ys := Inserted(xs, k, entry);
    InsertedAt(xs, k, entry);
    hide Inserted;
    forall i | 0 <= i < |ys|
      ensures ys[i].next == LinkAt(ys, i + 1)
    {
      if i < k { assert ys[i] == xs[i]; } else if i > k { assert ys[i] == xs[i - 1]; }
    }
  }

  lemma InsertedPrevs(list: List, xs: seq<Entry>, k: nat, entry: Entry)
    requires k <= |xs| && PrevsBut(list, xs, k, Next(entry)) && entry.prev == SlotAt(list, xs, k)
    ensures Prevs(list, Inserted(xs, k, entry))
  {
    var ys := Inserted(xs, k, entry);
    InsertedAt(xs, k, entry);
    hide Inserted;
    forall i | 0 <= i < |ys|
      ensures ys[i].prev == SlotAt(list, ys, i)
    {
      if i < k { assert ys[i] == xs[i]; } else if i > k { assert ys[i] == xs[i - 1]; }
    }
  }

  /** entry has been linked in front of element k. */
  lemma InsertDone(list: List, xs: seq<Entry>, k: nat, entry: Entry)
    requires Distinct(xs) && entry !in xs && k <= |xs|
    requires NextsBut(list, xs, k, To(entry)) && entry.next == LinkAt(xs, k)
    requires PrevsBut(list, xs, k, Next(entry)) && entry.prev == SlotAt(list, xs, k)
    ensures Linked(list, Inserted(xs, k, entry))
  {
    InsertedDistinct(xs, k, entry);
    InsertedNexts(list, xs, k, entry);
    InsertedPrevs(list, xs, k, entry);
  }

  lemma WithoutDistinct(xs: seq<Entry>, k: nat)
    requires Distinct(xs) && k < |xs|
    ensures Distinct(Without(xs, k)) && xs[k] !in Without(xs, k)
  {
    WithoutAt(xs, k);
    hide Without;
  }

  /** The forward links of the other elements, when slot k holds another link. */
  ghost predicate OtherNexts(list: List, xs: seq<Entry>, k: nat, link: Link)
    requires k < |xs|
    reads list`first, (set x | x in xs && x != xs[k])`next
  {
    && list.first == (if k == 0 then link else LinkAt(xs, 0))
    && forall i :: 0 <= i < |xs| && xs[i] != xs[k] ==> xs[i].next == if i + 1 == k then link else LinkAt(xs, i + 1)
  }

  /** The back links of the other elements, when element k + 1, or the end, knows another slot. */
  ghost predicate OtherPrevs(list: List, xs: seq<Entry>, k: nat, slot: Slot)
    requires k < |xs|
    reads list`lastNext, (set x | x in xs && x != xs[k])`prev
  {
    && list.lastNext == (if k + 1 == |xs| then slot else SlotAt(list, xs, |xs|))
    && forall i :: 0 <= i < |xs| && xs[i] != xs[k] ==> xs[i].prev == if i == k + 1 then slot else SlotAt(list, xs, i)
  }

  lemma WithoutNexts(list: List, xs: seq<Entry>, k: nat)
    requires k < |xs| && Distinct(xs) && OtherNexts(list, xs, k, LinkAt(xs, k + 1))
    ensures Nexts(list, Without(xs, k))
  {
    var ys := Without(xs, k);
    WithoutAt(xs, k);
    OnlyAt(xs, k);
    hide Without, Distinct;
    forall i | 0 <= i < |ys|
      ensures ys[i].next == LinkAt(ys, i + 1)
    {
      if i < k { assert ys[i] == xs[i]; } else { assert ys[i] == xs[i + 1]; }
    }
  }

  lemma WithoutPrevs(list: List, xs: seq<Entry>, k: nat)
    requires k < |xs| && Distinct(xs) && OtherPrevs(list, xs, k, SlotAt(list, xs, k))
    ensures Prevs(list, Without(xs, k))
  {
    var ys := Without(xs, k);
    WithoutAt(xs, k);
    OnlyAt(xs, k);
    hide Without, Distinct;
    forall i | 0 <= i < |ys|
      ensures ys[i].prev == SlotAt(list, ys, i)
    {
      if i < k { assert ys[i] == xs[i]; } else { assert ys[i] == xs[i + 1]; }
    }
  }

  lemma ReplacedNexts(list: List, xs: seq<Entry>, k: nat, entry: Entry)
    requires k < |xs| && Distinct(xs) && OtherNexts(list, xs, k, To(entry)) && entry.next == LinkAt(xs, k + 1)
    ensures Nexts(list, xs[k := entry])
  {
    var ys := xs[k := entry];
    OnlyAt(xs, k);
    hide Distinct;
    forall i | 0 <= i < |ys|
      ensures ys[i].next == LinkAt(ys, i + 1)
    {
      if i != k { assert ys[i] == xs[i]; }
    }
  }

  lemma ReplacedPrevs(list: List, xs: seq<Entry>, k: nat, entry: Entry)
    requires k < |xs| && Distinct(xs) && OtherPrevs(list, xs, k, Next(entry)) && entry.prev == SlotAt(list, xs, k)
    ensures Prevs(list, xs[k := entry])
  {
    var ys := xs[k := entry];
    OnlyAt(xs, k);
    hide Distinct;
    forall i | 0 <= i < |ys|
      ensures ys[i].prev == SlotAt(list, ys, i)
    {
      if i != k { assert ys[i] == xs[i]; }
    }
  }

  lemma ReplacedDistinct(xs: seq<Entry>, k: nat, entry: Entry)
    requires Distinct(xs) && k < |xs| && entry !in xs
    ensures Distinct(xs[k := entry]) && xs[k] !in xs[k := entry]
  {
  }

  /** ys follows xs: the links of both, with the last slot of xs at ys[0]. */
  lemma JoinedNexts(list: List, xs: seq<Entry>, ys: seq<Entry>)
    requires ys != [] && NextsBut(list, xs, |xs|, To(ys[0])) && NextsFrom(ys)
    ensures Nexts(list, xs + ys)
  {
    var zs := xs + ys;
    forall i | 0 <= i < |zs|
      ensures zs[i].next == LinkAt(zs, i + 1)
    {
      if i < |xs| { assert zs[i] == xs[i]; } else { assert zs[i] == ys[i - |xs|]; }
    }
  }

  /** The back links of ys, but the first element knows another slot. */
  ghost predicate PrevsFrom(ys: seq<Entry>, slot: Slot)
    reads (set y | y in ys)`prev
  {
    forall i :: 0 <= i < |ys| ==> ys[i].prev == SlotFrom(slot, ys, i)
  }

  /** The links of a list that belongs to nobody for the moment. */
  ghost predicate NextsFrom(ys: seq<Entry>)
    reads (set y | y in ys)`next
  {
    forall i :: 0 <= i < |ys| ==> ys[i].next == LinkAt(ys, i + 1)
  }

  lemma LinksOf(list: List, xs: seq<Entry>)
    requires Linked(list, xs)
    ensures NextsFrom(xs) && PrevsFrom(xs, Head(list))
  {
  }

  /** The first element learns another slot. */
  method SetFirstBack(e: Entry, slot: Slot, ghost was: Slot, ghost ys: seq<Entry>)
    requires ys != [] && e == ys[0] && Distinct(ys) && PrevsFrom(ys, was)
    modifies e`prev
    ensures PrevsFrom(ys, slot)
  {
    OnlyAt(ys, 0);
    hide Distinct;
    e.prev := slot;
  }

  lemma JoinedPrevs(list: List, xs: seq<Entry>, ys: seq<Entry>)
    requires ys != [] && list.lastNext == Next(ys[|ys| - 1]) && PrevsFrom(ys, SlotAt(list, xs, |xs|))
    requires PrevsFrom(xs, Head(list))
    ensures Prevs(list, xs + ys)
  {
    var zs := xs + ys;
    forall i | 0 <= i < |zs|
      ensures zs[i].prev == SlotAt(list, zs, i)
    {
      if i < |xs| {
        assert zs[i] == xs[i] && (i > 0 ==> zs[i - 1] == xs[i - 1]);
      } else if i == |xs| {
        assert zs[i] == ys[0] && (i > 0 ==> zs[i - 1] == xs[i - 1]);
        assert ys[0].prev == SlotAt(list, xs, |xs|);
      } else {
        assert zs[i] == ys[i - |xs|] && zs[i - 1] == ys[i - |xs| - 1];
      }
    }
    assert zs[|zs| - 1] == ys[|ys| - 1];
  }

  lemma DistinctConcat(xs: seq<Entry>, ys: seq<Entry>)
    requires Distinct(xs) && Distinct(ys) && forall y :: y in ys ==> y !in xs
    ensures Distinct(xs + ys)
  {
    var zs := xs + ys;
    forall i, j | 0 <= i < j < |zs|
      ensures zs[i] != zs[j]
    {
      if i < |xs| <= j {
        assert zs[j] in ys && zs[i] in xs;
      }
    }
  }

  lemma FirstIs(list: List, xs: seq<Entry>)
    requires Linked(list, xs)
    ensures list.first == LinkAt(xs, 0) && list.lastNext == SlotAt(list, xs, |xs|)
  {
  }

  lemma LinksAt(list: List, xs: seq<Entry>, k: nat)
    requires Linked(list, xs) && k < |xs|
    ensures xs[k].next == LinkAt(xs, k + 1) && xs[k].prev == SlotAt(list, xs, k)
  {
  }

  lemma OthersOf(list: List, xs: seq<Entry>, k: nat, link: Link, slot: Slot)
    requires k < |xs| && NextsBut(list, xs, k, link) && PrevsBut(list, xs, k + 1, slot)
    ensures OtherNexts(list, xs, k, link) && OtherPrevs(list, xs, k, slot)
  {
  }

  // ----- the operations

  class List {
    var first: Link
    var lastNext: Slot
    ghost var xs: seq<Entry>

    constructor ()
      ensures Valid() && xs == []
    {
      first := Nil;
      lastNext := Head(this);
      xs := [];
    }

    /** ns_list_init */
    method Init()
      modifies this
      ensures Valid() && xs == []
    {
      first := Nil;
      lastNext := Head(this);
      xs := [];
    }

    ghost predicate Valid()
      reads this, xs
    {
      Linked(this, xs)
    }

    /** ns_list_add_to_start */
    method AddToStart(entry: Entry)
      requires Valid() && entry !in xs
      modifies this, entry, xs
      ensures Valid() && xs == [entry] + old(xs)
    {
      hide Distinct, Nexts, Prevs, NextsBut, PrevsBut;
      ghost var was := xs;
      FirstIs(this, was);
      entry.prev := Head(this);
      var next := first;
      entry.next := next;
      SetBack(this, next, Next(entry), was, 0);
      SetSlot(Head(this), To(entry), this, was, 0);
      InsertDone(this, was, 0, entry);
      xs := [entry] + was;
      assert Inserted(was, 0, entry) == xs;
    }

    /** ns_list_add_after */
    method AddAfter(current: Entry, entry: Entry, ghost k: nat)
      requires Valid() && entry !in xs && k < |xs| && xs[k] == current
      modifies this, entry, xs
      ensures Valid() && xs == Inserted(old(xs), k + 1, entry)
    {
      hide Distinct, Nexts, Prevs, NextsBut, PrevsBut, Inserted;
      ghost var was := xs;
      LinksAt(this, was, k);
      entry.prev := Next(current);
      var next := current.next;
      entry.next := next;
      SetBack(this, next, Next(entry), was, k + 1);
      SetSlot(Next(current), To(entry), this, was, k + 1);
      InsertDone(this, was, k + 1, entry);
      xs := Inserted(was, k + 1, entry);
    }

    /** ns_list_add_before */
    method AddBefore(current: Entry, entry: Entry, ghost k: nat)
      requires Valid() && entry !in xs && k < |xs| && xs[k] == current
      modifies this, entry, xs
      ensures Valid() && xs == Inserted(old(xs), k, entry)
    {
      hide Distinct, Nexts, Prevs, NextsBut, PrevsBut, Inserted;
      ghost var was := xs;
      LinksAt(this, was, k);
      entry.next := To(current);
      var prevNext := current.prev;
      entry.prev := prevNext;
      SetSlot(prevNext, To(entry), this, was, k);
      SetBack(this, To(current), Next(entry), was, k);
      InsertDone(this, was, k, entry);
      xs := Inserted(was, k, entry);
    }

    /** ns_list_add_to_end */
    method AddToEnd(entry: Entry)
      requires Valid() && entry !in xs
      modifies this, entry, xs
      ensures Valid() && xs == old(xs) + [entry]
    {
      hide Distinct, Nexts, Prevs, NextsBut, PrevsBut;
      ghost var was := xs;
      FirstIs(this, was);
      entry.next := Nil;
      var prevNext := lastNext;
      entry.prev := prevNext;
      SetSlot(prevNext, To(entry), this, was, |was|);
      SetBack(this, Nil, Next(entry), was, |was|);
      InsertDone(this, was, |was|, entry);
      xs := was + [entry];
      assert Inserted(was, |was|, entry) == xs;
    }

    /** ns_list_remove */
    method Remove(removed: Entry, ghost k: nat)
      requires Valid() && k < |xs| && xs[k] == removed
      modifies this, xs
      ensures Valid() && xs == Without(old(xs), k)
      ensures removed.next == Poison && removed.prev == BadSlot && removed !in xs
    {
      hide Distinct, Nexts, Prevs, NextsBut, PrevsBut, Without, OtherNexts, OtherPrevs;
      ghost var was := xs;
      LinksAt(this, was, k);
      var next := removed.next;
      var prevNext := removed.prev;
      SetBack(this, next, prevNext, was, k + 1);
      SetSlot(prevNext, next, this, was, k);
      OthersOf(this, was, k, next, prevNext);
      removed.LinkInit();
      WithoutNexts(this, was, k);
      WithoutPrevs(this, was, k);
      WithoutDistinct(was, k);
      xs := Without(was, k);
    }

    /** ns_list_replace */
    method Replace(current: Entry, replacement: Entry, ghost k: nat)
      requires Valid() && k < |xs| && xs[k] == current && replacement !in xs
      modifies this, xs, replacement
      ensures Valid() && xs == old(xs)[k := replacement]
      ensures current.next == Poison && current.prev == BadSlot && current !in xs
    {
      hide Distinct, Nexts, Prevs, NextsBut, PrevsBut, OtherNexts, OtherPrevs;
      ghost var was := xs;
      LinksAt(this, was, k);
      var prevNext := current.prev;
      replacement.prev := prevNext;
      var next := current.next;
      replacement.next := next;
      SetBack(this, next, Next(replacement), was, k + 1);
      SetSlot(prevNext, To(replacement), this, was, k);
      OthersOf(this, was, k, To(replacement), Next(replacement));
      current.LinkInit();
      ReplacedNexts(this, was, k, replacement);
      ReplacedPrevs(this, was, k, replacement);
      ReplacedDistinct(was, k, replacement);
      xs := was[k := replacement];
    }

    /** ns_list_concatenate */
    method Concatenate(src: List)
      requires Valid() && src.Valid() && src != this && forall y :: y in src.xs ==> y !in xs
      modifies this, src, xs, src.xs
      ensures Valid() && xs == old(xs) + old(src.xs)
      ensures src.Valid() && src.xs == []
    {
      hide Distinct, Nexts, Prevs, NextsBut, NextsFrom, PrevsFrom;
      ghost var was, more := xs, src.xs;
      FirstIs(this, was);
      FirstIs(src, more);
      LinksOf(this, was);
      LinksOf(src, more);
      var srcFirst := src.first;
      if srcFirst == Nil {
        assert was + more == was;
        return;
      }
      DistinctConcat(was, more);
      SetSlot(lastNext, srcFirst, this, was, |was|);
      SetFirstBack(srcFirst.entry, lastNext, Head(src), more);
      lastNext := src.lastNext;
      JoinedNexts(this, was, more);
      JoinedPrevs(this, was, more);
      xs := was + more;
      src.Init();
    }

    /** ns_list_get_next */
    method GetNext(current: Entry, ghost k: nat) returns (next: Link)
      requires Valid() && k < |xs| && xs[k] == current
      ensures next == LinkAt(xs, k + 1)
    {
      next := current.next;
    }

    /** ns_list_get_previous: the entry whose next field the back pointer is. */
    method GetPrevious(current: Entry, ghost k: nat) returns (previous: Link)
      requires Valid() && k < |xs| && xs[k] == current
      ensures previous == LinkAt(xs, k - 1)
    {
      if first == To(current) {
        assert xs[0] == current;
        previous := Nil;
      } else {
        previous := To(current.prev.owner);
      }
    }

    /** ns_list_get_last */
    method GetLast() returns (last: Link)
      requires Valid()
      ensures last == LinkAt(xs, |xs| - 1)
    {
      if first == Nil {
        last := Nil;
      } else {
        last := To(lastNext.owner);
      }
    }

    /** ns_list_count */
    method Count() returns (count: nat)
      requires Valid()
      ensures count == |xs|
    {
      count := 0;
      var p := first;
      while p.To?
        invariant count <= |xs| && p == LinkAt(xs, count)
        decreases |xs| - count
      {
        count := count + 1;
        p := p.entry.next;
      }
    }
  }

  /** No slot of a well-linked list points at an entry that is not on it. */
  lemma NoSlotPointsAt(list: List, e: Entry)
    requires list.Valid() && e !in list.xs
    ensures list.first != To(e) && list.lastNext != Next(e)
    ensures forall x :: x in list.xs ==> x.next != To(e) && x.prev != Next(e)
  {
    forall x | x in list.xs
      ensures x.next != To(e) && x.prev != Next(e)
    {
      var i :| 0 <= i < |list.xs| && list.xs[i] == x;
      assert i + 1 < |list.xs| ==> list.xs[i + 1] in list.xs;
      assert i > 0 ==> list.xs[i - 1] in list.xs;
    }
  }
}
