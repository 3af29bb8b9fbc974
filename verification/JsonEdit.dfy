// Editing child lists. Every operation keeps the lists doubly linked and has
// the effect of its sequence counterpart on the children.
module JsonEdit {
  import opened CText
  import opened JsonValue
  import opened JsonNode
  import opened Sequences

  /** An item that belongs to no list. */
  ghost predicate Detached(n: Node)
    reads n
  {
    n.next == null && n.prev == null
  }

  ghost function RootSet(ts: seq<Tree>): set<Node> {
    set r | r in Roots(ts)
  }

  /** t is a well-linked tree at n. */
  ghost predicate TreeAt(n: Node, t: Tree)
    reads Nodes(t)`child, Forest(t.kids)`next, Forest(t.kids)`prev
  {
    t.root == n && Apart(t) && Shape(t)
  }

  lemma AppendRoots(ts: seq<Tree>, u: Tree)
    ensures Roots(ts + [u]) == Roots(ts) + [u.root]
  {
  }

  lemma AppendApart(t: Tree, u: Tree)
    requires Apart(t) && Apart(u) && Nodes(t) !! Nodes(u)
    ensures Apart(Tree(t.root, t.kids + [u]))
  {
    ApartConcat(t.kids, [u]);
    ForestConcat(t.kids, [u]);
    Singleton(u);
  }

  /** The pointer to item number which; the last one is the null at the end. */
  method Walk(first: Node?, which: int, ghost rs: seq<Node>, ghost ts: seq<Tree>) returns (c: Node?, ghost i: nat)
    requires first == Nth(rs, 0) && Chain(rs) && ShapeAll(ts)
    ensures i == (if which < 0 then 0 else if which < |rs| then which else |rs|)
    ensures c == Nth(rs, i) && Chain(rs) && ShapeAll(ts)
  {
    hide ShapeAll;
    var left := which;
    c := first;
    i := 0;
    while c != null && left > 0
      invariant i <= |rs| && c == Nth(rs, i)
      invariant if which < 0 then i == 0 && left == which else left == which - i && left >= 0
    {
      c := c.next;
      left := left - 1;
      i := i + 1;
    }
  }

  /** The last node of a non-empty list. */
  method LastOf(first: Node, ghost rs: seq<Node>, ghost ts: seq<Tree>) returns (c: Node)
    requires rs != [] && first == rs[0] && Chain(rs) && ShapeAll(ts)
    ensures c == rs[|rs| - 1] && Chain(rs) && ShapeAll(ts)
  {
    hide ShapeAll;
    c := first;
    ghost var i := 0;
    while c.next != null
      invariant 0 <= i < |rs| && c == rs[i]
      decreases |rs| - i
    {
      c := c.next;
      i := i + 1;
    }
  }

  /** A link between two neighbours; the subtrees of ts do not see it. */
  method SuffixObject(prev: Node, item: Node, ghost rs: seq<Node>, ghost ts: seq<Tree>)
    requires rs != [] && prev == rs[|rs| - 1] && Chain(rs)
    requires Distinct(rs + [item]) && Detached(item)
    requires ShapeAll(ts) && {prev, item} !! Inner(ts)
    modifies prev`next, item`prev
    ensures Chain(rs + [item]) && ShapeAll(ts)
    ensures Values(ts) == old(Values(ts)) && Members(ts) == old(Members(ts))
  {
    hide ShapeAll, Inner, Values, Members, Distinct;
    LastIsNot(rs, item);
    FirstOnly(rs, |rs| - 1);
    prev.next := item;
    item.prev := prev;
    ghost var all := rs + [item];
    assert forall i :: 0 <= i < |rs| ==> all[i] == rs[i];
  }

  ghost predicate Distinct(rs: seq<Node>) {
    forall i, j :: 0 <= i < j < |rs| ==> rs[i] != rs[j]
  }

  lemma LastIsNot(rs: seq<Node>, item: Node)
    requires Distinct(rs + [item])
    ensures forall i :: 0 <= i < |rs| ==> rs[i] != item
    ensures Distinct(rs)
  {
    var all := rs + [item];
    forall i | 0 <= i < |rs|
      ensures rs[i] != item
    {
      assert all[i] != all[|rs|];
    }
    forall i, j | 0 <= i < j < |rs|
      ensures rs[i] != rs[j]
    {
      assert all[i] != all[j];
    }
  }

  lemma Rebuild(root: Node, ts: seq<Tree>)
    requires Apart(Tree(root, ts)) && ShapeAll(ts)
    requires root.child == Nth(Roots(ts), 0) && Chain(Roots(ts))
    ensures TreeAt(root, Tree(root, ts))
  {
  }

  lemma {:induction false} RootsDistinct(ts: seq<Tree>)
    requires ApartAll(ts)
    ensures Distinct(Roots(ts))
    ensures RootSet(ts) !! Inner(ts)
  {
    forall i, j | 0 <= i < j < |ts|
      ensures ts[i].root != ts[j].root
    {
      RootsApart(ts, i, j);
    }
    forall i | 0 <= i < |ts|
      ensures ts[i].root !in Inner(ts)
    {
      RootsNotInner(ts, i);
    }
  }

  lemma AppendReady(list: Node, item: Node, t: Tree, u: Tree)
    requires TreeAt(list, t) && TreeAt(item, u) && Nodes(t) !! Nodes(u)
    ensures var rs, ts := Roots(t.kids), t.kids + [u];
      && Apart(Tree(list, ts)) && ShapeAll(ts) && RootSet(ts) !! Inner(ts) && list !in Forest(ts)
      && Roots(ts) == rs + [item] && Distinct(rs + [item])
      && list.child == Nth(rs, 0) && Chain(rs)
  {
    AppendApart(t, u);
    AppendRoots(t.kids, u);
    RootsDistinct(t.kids + [u]);
    ShapeConcat(t.kids, [u]);
    ShapeSingleton(u);
  }

  /** Append an item. */
  method AddItemToArray(list: Node, item: Node, ghost t: Tree, ghost u: Tree) returns (ghost t': Tree)
    requires TreeAt(list, t) && TreeAt(item, u) && Detached(item)
    requires Nodes(t) !! Nodes(u)
    modifies list`child, RootSet(t.kids)`next, item`prev
    ensures t' == Tree(list, t.kids + [u]) && TreeAt(list, t')
  {
    hide TreeAt, Shape, ShapeAll, Apart, Inner, Forest, Nodes;
    ghost var rs, ts := Roots(t.kids), t.kids + [u];
    AppendReady(list, item, t, u);
    var c := list.child;
    if c == null {
      list.child := item;
    } else {
      c := LastOf(c, rs, ts);
      assert Roots(ts)[|rs| - 1] == c && Roots(ts)[|rs|] == item;
      SuffixObject(c, item, rs, ts);
    }
    Rebuild(list, ts);
    t' := Tree(list, ts);
  }

  /** The other nodes of rs, linked as if element k was not there. */
  ghost predicate Bypassed(rs: seq<Node>, k: nat)
    requires k < |rs|
    reads (set r | r in rs && r != rs[k])`next, (set r | r in rs && r != rs[k])`prev
  {
    && (forall i :: 0 <= i < |rs| && rs[i] != rs[k] && i + 1 != k ==> rs[i].next == Nth(rs, i + 1))
    && (forall i :: 0 <= i < |rs| && rs[i] != rs[k] && i - 1 != k ==> rs[i].prev == Nth(rs, i - 1))
    && (k > 0 && rs[k - 1] != rs[k] ==> rs[k - 1].next == Nth(rs, k + 1))
    && (k + 1 < |rs| && rs[k + 1] != rs[k] ==> rs[k + 1].prev == Nth(rs, k - 1))
  }

  lemma BypassedChain(rs: seq<Node>, k: nat)
    requires k < |rs| && Bypassed(rs, k) && Distinct(rs)
    ensures Chain(Without(rs, k))
  {
    var ws := Without(rs, k);
    FirstOnly(rs, k);
    assert |ws| == |rs| - 1;
    assert forall i :: 0 <= i < k ==> ws[i] == rs[i];
    assert forall i :: k <= i < |ws| ==> ws[i] == rs[i + 1];
    forall i | 0 <= i < |ws|
      ensures ws[i].next == Nth(ws, i + 1)
    {
      if i < k { assert ws[i] == rs[i]; } else { assert ws[i] == rs[i + 1]; }
    }
    forall i | 0 <= i < |ws|
      ensures ws[i].prev == Nth(ws, i - 1)
    {
      if i < k { assert ws[i] == rs[i]; } else { assert ws[i] == rs[i + 1]; }
    }
  }

  /** Point the neighbours of c, element k of the list, at each other. */
  method Bypass(c: Node, ghost rs: seq<Node>, ghost k: nat, ghost ts: seq<Tree>)
    requires k < |rs| && c == rs[k] && Chain(rs) && Distinct(rs)
    requires ShapeAll(ts) && (set r | r in rs) !! Inner(ts)
    modifies (set r | r in rs)`next, (set r | r in rs)`prev
    ensures Bypassed(rs, k) && ShapeAll(ts)
    ensures c.next == Nth(rs, k + 1) && c.prev == Nth(rs, k - 1)
  {
    hide ShapeAll, Inner;
    if c.prev != null {
      c.prev.next := c.next;
    }
    if c.next != null {
      c.next.prev := c.prev;
    }
  }

  /** Take c, element k of the list, out of its chain. */
  method Unlink(list: Node, c: Node, ghost rs: seq<Node>, ghost k: nat, ghost ts: seq<Tree>)
    requires k < |rs| && c == rs[k] && Chain(rs) && Distinct(rs)
    requires list.child == rs[0]
    requires ShapeAll(ts) && list !in Forest(ts) && (set r | r in rs) !! Inner(ts)
    modifies list`child, (set r | r in rs)`next, (set r | r in rs)`prev
    ensures Bypassed(rs, k) && list.child == Nth(rs, if k == 0 then 1 else 0)
    ensures Detached(c) && ShapeAll(ts)
  {
    hide ShapeAll, Forest, Inner, Bypassed;
    FirstOnly(rs, k);
    Bypass(c, rs, k, ts);
    if c == list.child {
      list.child := c.next;
    }
    c.prev, c.next := null, null;
  }

  lemma FirstOnly(rs: seq<Node>, k: nat)
    requires Distinct(rs) && k < |rs|
    ensures rs[k] == rs[0] <==> k == 0
    ensures forall i :: 0 <= i < |rs| && i != k ==> rs[i] != rs[k]
  {
  }

  lemma WithoutRoots(ts: seq<Tree>, k: nat)
    requires k < |ts|
    ensures Roots(Without(ts, k)) == Without(Roots(ts), k)
  {
  }

  lemma WithoutTrees(ts: seq<Tree>, k: nat)
    requires k < |ts| && ApartAll(ts)
    ensures ApartAll(Without(ts, k)) && Apart(ts[k]) && Nodes(ts[k]) !! Forest(Without(ts, k))
    ensures Forest(Without(ts, k)) <= Forest(ts)
    ensures ShapeAll(ts) ==> ShapeAll(Without(ts, k)) && Shape(ts[k])
  {
    hide Apart, ApartAll, Forest, Nodes, Shape, ShapeAll;
    var a, b := ts[..k], ts[k + 1..];
    assert ts == a + ([ts[k]] + b);
    ApartConcat(a, [ts[k]] + b);
    ApartConcat([ts[k]], b);
    ApartConcat(a, b);
    ForestConcat(a, [ts[k]] + b);
    ForestConcat([ts[k]], b);
    ForestConcat(a, b);
    Singleton(ts[k]);
    ShapeConcat(a, [ts[k]] + b);
    ShapeConcat([ts[k]], b);
    ShapeConcat(a, b);
    ShapeSingleton(ts[k]);
  }

  lemma TreeParts(list: Node, t: Tree)
    requires TreeAt(list, t)
    ensures var rs, ts := Roots(t.kids), t.kids;
      && t.root == list && Apart(t)
      && ShapeAll(ts) && list !in Forest(ts) && ApartAll(ts)
      && Distinct(rs) && RootSet(ts) !! Inner(ts)
      && list.child == Nth(rs, 0) && Chain(rs)
  {
    RootsDistinct(t.kids);
  }

  /** Remove item number which from the list; null if there is none. */
  method DetachItemFromArray(list: Node, which: int, ghost t: Tree) returns (c: Node?, ghost k: nat, ghost t': Tree)
    requires TreeAt(list, t)
    modifies list`child, RootSet(t.kids)`next, RootSet(t.kids)`prev
    ensures k == if which < 0 then 0 else which
    ensures (c == null) == (k >= |t.kids|)
    ensures c == null ==> t' == t && TreeAt(list, t)
    ensures c != null ==>
              && t' == Tree(list, Without(t.kids, k)) && TreeAt(list, t')
              && TreeAt(c, t.kids[k]) && Detached(c) && Nodes(t.kids[k]) !! Nodes(t')
  {
    hide TreeAt, Shape, ShapeAll, Apart, Inner, Forest, Nodes, Bypassed, Distinct;
    ghost var rs, ts := Roots(t.kids), t.kids;
    TreeParts(list, t);
    ghost var i;
    c, i := Walk(list.child, which, rs, ts);
    k := if which < 0 then 0 else which;
    t' := t;
    if c == null {
      DetachNone(list, t);
    } else {
      Unlink(list, c, rs, k, ts);
      DetachDone(list, t, k);
      t' := Tree(list, Without(t.kids, k));
    }
  }

  lemma DetachNone(list: Node, t: Tree)
    requires t.root == list && Apart(t) && ShapeAll(t.kids)
    requires list.child == Nth(Roots(t.kids), 0) && Chain(Roots(t.kids))
    ensures TreeAt(list, t)
  {
  }

  lemma DetachDone(list: Node, t: Tree, k: nat)
    requires t.root == list && Apart(t) && k < |t.kids| && ShapeAll(t.kids)
    requires Bypassed(Roots(t.kids), k) && list.child == Nth(Roots(t.kids), if k == 0 then 1 else 0)
    ensures TreeAt(list, Tree(list, Without(t.kids, k)))
    ensures TreeAt(t.kids[k].root, t.kids[k])
    ensures Nodes(t.kids[k]) !! Nodes(Tree(list, Without(t.kids, k)))
  {
    RootsDistinct(t.kids);
    BypassedChain(Roots(t.kids), k);
    WithoutRoots(t.kids, k);
    WithoutTrees(t.kids, k);
    RootIn(t.kids, k);
    Rebuild(list, Without(t.kids, k));
  }

  // ----- insert

  /** rs with item put in front of element k. */
  ghost predicate Spliced(rs: seq<Node>, k: nat, item: Node)
    requires k < |rs|
    reads (set r | r in rs)`next, (set r | r in rs)`prev, item`next, item`prev
  {
    && (forall i :: 0 <= i < |rs| && i + 1 != k ==> rs[i].next == Nth(rs, i + 1))
    && (forall i :: 0 <= i < |rs| && rs[i] != rs[k] ==> rs[i].prev == Nth(rs, i - 1))
    && (k > 0 ==> rs[k - 1].next == item)
    && rs[k].prev == item && item.next == rs[k] && item.prev == Nth(rs, k - 1)
  }

  lemma SplicedChain(rs: seq<Node>, k: nat, item: Node)
    requires k < |rs| && Spliced(rs, k, item) && Distinct(rs)
    ensures Chain(Inserted(rs, k, item))
  {
    var ns := Inserted(rs, k, item);
    InsertedAt(rs, k, item);
    FirstOnly(rs, k);
    hide Inserted, Distinct;
    forall i | 0 <= i < |ns|
      ensures ns[i].next == Nth(ns, i + 1) && ns[i].prev == Nth(ns, i - 1)
    {
      if i < k { assert ns[i] == rs[i]; } else if i > k { assert ns[i] == rs[i - 1]; }
    }
  }

  /** item points at its neighbours, and c, element k, points back at item. */
  ghost predicate HalfSpliced(rs: seq<Node>, k: nat, item: Node)
    requires k < |rs|
    reads (set r | r in rs)`next, (set r | r in rs)`prev, item`next, item`prev
  {
    && (forall i :: 0 <= i < |rs| ==> rs[i].next == Nth(rs, i + 1))
    && (forall i :: 0 <= i < |rs| && rs[i] != rs[k] ==> rs[i].prev == Nth(rs, i - 1))
    && rs[k].prev == item && item.next == rs[k] && item.prev == Nth(rs, k - 1)
  }

  method LinkItem(c: Node, item: Node, ghost rs: seq<Node>, ghost k: nat, ghost ts: seq<Tree>)
    requires k < |rs| && c == rs[k] && Chain(rs) && Distinct(rs) && item !in rs
    requires ShapeAll(ts) && c !in Inner(ts) && item !in Inner(ts)
    modifies c`prev, item`next, item`prev
    ensures HalfSpliced(rs, k, item) && ShapeAll(ts)
  {
    hide ShapeAll, Inner, Distinct;
    FirstOnly(rs, k);
    assert c.prev == Nth(rs, k - 1);
    item.next := c;
    item.prev := c.prev;
    c.prev := item;
  }

  /** Link item into the list in front of c, element k. */
  method LinkBefore(list: Node, c: Node, item: Node, ghost rs: seq<Node>, ghost k: nat, ghost ts: seq<Tree>)
    requires k < |rs| && c == rs[k] && Chain(rs) && Distinct(rs) && item !in rs
    requires list.child == rs[0]
    requires ShapeAll(ts) && list !in Forest(ts) && (set r | r in rs) !! Inner(ts) && item !in Inner(ts)
    modifies list`child, (set r | r in rs)`next, (set r | r in rs)`prev, item`next, item`prev
    ensures Spliced(rs, k, item) && list.child == (if k == 0 then item else rs[0])
    ensures ShapeAll(ts)
  {
    hide ShapeAll, Forest, Inner;
    FirstOnly(rs, k);
    LinkItem(c, item, rs, k, ts);
    if c == list.child {
      list.child := item;
    } else {
      SpliceNext(item, rs, k, ts);
    }
  }

  method SpliceNext(item: Node, ghost rs: seq<Node>, ghost k: nat, ghost ts: seq<Tree>)
    requires 0 < k < |rs| && HalfSpliced(rs, k, item) && Distinct(rs) && item !in rs
    requires ShapeAll(ts) && rs[k - 1] !in Inner(ts)
    modifies {rs[k - 1]}`next
    ensures Spliced(rs, k, item) && ShapeAll(ts)
  {
    hide ShapeAll, Inner;
    FirstOnly(rs, k - 1);
    item.prev.next := item;
  }

  lemma InsertReady(list: Node, item: Node, t: Tree, u: Tree)
    requires TreeAt(list, t) && TreeAt(item, u) && Nodes(t) !! Nodes(u)
    ensures var rs, ts := Roots(t.kids), t.kids + [u];
      && t.root == list && u.root == item && Apart(Tree(list, ts)) && ShapeAll(ts)
      && (set r | r in rs) !! Inner(ts) && list !in Forest(ts) && item !in Inner(ts)
      && item !in rs && Distinct(rs)
      && list.child == Nth(rs, 0) && Chain(rs)
  {
    AppendReady(list, item, t, u);
    LastIsNot(Roots(t.kids), item);
    assert Roots(t.kids + [u])[|t.kids|] == item;
    assert forall r :: r in Roots(t.kids) ==> r in Roots(t.kids + [u]);
  }

  lemma InsertedTrees(ts: seq<Tree>, k: nat, u: Tree)
    requires k <= |ts| && ApartAll(ts + [u])
    ensures ApartAll(Inserted(ts, k, u)) && Forest(Inserted(ts, k, u)) == Forest(ts + [u])
    ensures ShapeAll(ts + [u]) ==> ShapeAll(Inserted(ts, k, u))
  {
    hide Apart, ApartAll, Forest, Nodes, Shape, ShapeAll;
    var a, b := ts[..k], ts[k..];
    assert ts == a + b;
    Assoc3(a, [u], b);
    ApartConcat(a, b);
    ApartConcat(a + b, [u]);
    ApartConcat(a, [u] + b);
    ApartConcat([u], b);
    ForestConcat(a, b);
    ForestConcat(a + b, [u]);
    ForestConcat(a, [u] + b);
    ForestConcat([u], b);
    ShapeConcat(a, b);
    ShapeConcat(a + b, [u]);
    ShapeConcat(a, [u] + b);
    ShapeConcat([u], b);
  }

  lemma Assoc3(a: seq<Tree>, b: seq<Tree>, c: seq<Tree>)
    ensures a + b + c == a + (b + c)
  {
  }

  lemma InsertDone(list: Node, item: Node, t: Tree, u: Tree, k: nat)
    requires t.root == list && u.root == item && k < |t.kids|
    requires Apart(Tree(list, t.kids + [u])) && ShapeAll(t.kids + [u])
    requires Spliced(Roots(t.kids), k, item)
    requires list.child == (if k == 0 then item else Roots(t.kids)[0])
    ensures TreeAt(list, Tree(list, Inserted(t.kids, k, u)))
  {
    var ts := Inserted(t.kids, k, u);
    ApartConcat(t.kids, [u]);
    RootsDistinct(t.kids);
    hide Spliced, Distinct, Inner, ShapeAll, Shape;
    SplicedChain(Roots(t.kids), k, item);
    assert Roots(ts) == Inserted(Roots(t.kids), k, item);
    InsertedTrees(t.kids, k, u);
    Rebuild(list, ts);
  }

  /** Insert an item in front of item number which; past the end it is appended. */
  method InsertItemInArray(list: Node, which: int, item: Node, ghost t: Tree, ghost u: Tree)
    returns (ghost k: nat, ghost t': Tree)
    requires TreeAt(list, t) && TreeAt(item, u) && Detached(item)
    requires Nodes(t) !! Nodes(u)
    modifies list`child, RootSet(t.kids)`next, RootSet(t.kids)`prev, item`next, item`prev
    ensures k == if which < 0 then 0 else if which < |t.kids| then which else |t.kids|
    ensures t' == Tree(list, Inserted(t.kids, k, u)) && TreeAt(list, t')
  {
    hide TreeAt, Shape, ShapeAll, Apart, Inner, Forest, Nodes, Spliced, Distinct;
    ghost var rs, ts := Roots(t.kids), t.kids + [u];
    InsertReady(list, item, t, u);
    var c;
    c, k := Walk(list.child, which, rs, ts);
    if c == null {
      AppendAgain(list, item, t, u);
      t' := AddItemToArray(list, item, t, u);
      assert Inserted(t.kids, k, u) == t.kids + [u];
    } else {
      LinkBefore(list, c, item, rs, k, ts);
      InsertDone(list, item, t, u, k);
      t' := Tree(list, Inserted(t.kids, k, u));
    }
  }

  lemma AppendAgain(list: Node, item: Node, t: Tree, u: Tree)
    requires t.root == list && u.root == item
    requires Apart(Tree(list, t.kids + [u])) && ShapeAll(t.kids + [u])
    requires list.child == Nth(Roots(t.kids), 0) && Chain(Roots(t.kids))
    ensures TreeAt(list, t) && TreeAt(item, u) && Nodes(t) !! Nodes(u)
  {
    ShapeConcat(t.kids, [u]);
    ShapeSingleton(u);
    ApartConcat(t.kids, [u]);
    ForestConcat(t.kids, [u]);
    Singleton(u);
  }

  // ----- replace

  /** The other nodes of rs, linked with item in the place of element k. */
  ghost predicate Swapped(rs: seq<Node>, k: nat, item: Node)
    requires k < |rs|
    reads (set r | r in rs && r != rs[k])`next, (set r | r in rs && r != rs[k])`prev, item`next, item`prev
  {
    && (forall i :: 0 <= i < |rs| && rs[i] != rs[k] && i + 1 != k ==> rs[i].next == Nth(rs, i + 1))
    && (forall i :: 0 <= i < |rs| && rs[i] != rs[k] && i - 1 != k ==> rs[i].prev == Nth(rs, i - 1))
    && (k > 0 && rs[k - 1] != rs[k] ==> rs[k - 1].next == item)
    && (k + 1 < |rs| && rs[k + 1] != rs[k] ==> rs[k + 1].prev == item)
    && item.next == Nth(rs, k + 1) && item.prev == Nth(rs, k - 1)
  }

  lemma SwappedChain(rs: seq<Node>, k: nat, item: Node)
    requires k < |rs| && Swapped(rs, k, item) && Distinct(rs)
    ensures Chain(rs[k := item])
  {
    FirstOnly(rs, k);
    hide Distinct;
    var ns := rs[k := item];
    forall i | 0 <= i < |ns|
      ensures ns[i].next == Nth(ns, i + 1)
    {
      if i != k { assert ns[i] == rs[i]; }
    }
    forall i | 0 <= i < |ns|
      ensures ns[i].prev == Nth(ns, i - 1)
    {
      if i != k { assert ns[i] == rs[i]; }
    }
  }

  /** item takes the neighbours of c, and the following neighbour points back at it. */
  method TakeNeighbours(c: Node, item: Node, ghost rs: seq<Node>, ghost k: nat, ghost ts: seq<Tree>)
    requires k < |rs| && c == rs[k] && Chain(rs) && Distinct(rs) && item !in rs
    requires ShapeAll(ts) && (set r | r in rs) !! Inner(ts) && item !in Inner(ts)
    modifies item`next, item`prev, (set r | r in rs)`prev
    ensures HalfSwapped(rs, k, item) && ShapeAll(ts)
  {
    hide ShapeAll, Inner;
    FirstOnly(rs, k);
    assert c.next == Nth(rs, k + 1) && c.prev == Nth(rs, k - 1);
    item.next := c.next;
    item.prev := c.prev;
    if item.next != null {
      item.next.prev := item;
    }
  }

  ghost predicate HalfSwapped(rs: seq<Node>, k: nat, item: Node)
    requires k < |rs|
    reads (set r | r in rs)`next, (set r | r in rs)`prev, item`next, item`prev
  {
    && (forall i :: 0 <= i < |rs| ==> rs[i].next == Nth(rs, i + 1))
    && (forall i :: 0 <= i < |rs| && i - 1 != k ==> rs[i].prev == Nth(rs, i - 1))
    && (k + 1 < |rs| ==> rs[k + 1].prev == item)
    && item.next == Nth(rs, k + 1) && item.prev == Nth(rs, k - 1)
  }

  lemma SwapFirst(rs: seq<Node>, item: Node)
    requires rs != [] && HalfSwapped(rs, 0, item) && Distinct(rs)
    ensures Swapped(rs, 0, item)
  {
  }

  method SwapPrevious(item: Node, ghost rs: seq<Node>, ghost k: nat, ghost ts: seq<Tree>)
    requires 0 < k < |rs| && HalfSwapped(rs, k, item) && Distinct(rs) && item !in rs
    requires ShapeAll(ts) && rs[k - 1] !in Inner(ts)
    modifies {rs[k - 1]}`next
    ensures Swapped(rs, k, item) && ShapeAll(ts)
  {
    hide ShapeAll, Inner;
    FirstOnly(rs, k - 1);
    item.prev.next := item;
  }

  /** Put item in the place of c, element k of the list. */
  method Swap(list: Node, c: Node, item: Node, ghost rs: seq<Node>, ghost k: nat, ghost ts: seq<Tree>)
    requires k < |rs| && c == rs[k] && Chain(rs) && Distinct(rs) && item !in rs
    requires list.child == rs[0]
    requires ShapeAll(ts) && list !in Forest(ts) && (set r | r in rs) !! Inner(ts) && item !in Inner(ts)
    modifies list`child, (set r | r in rs)`next, (set r | r in rs)`prev, item`next, item`prev
    ensures Swapped(rs, k, item) && list.child == (if k == 0 then item else rs[0])
    ensures Detached(c) && ShapeAll(ts)
  {
    hide ShapeAll, Forest, Inner, Swapped, HalfSwapped;
    FirstOnly(rs, k);
    TakeNeighbours(c, item, rs, k, ts);
    if c == list.child {
      SwapFirst(rs, item);
      list.child := item;
    } else {
      SwapPrevious(item, rs, k, ts);
    }
    c.next, c.prev := null, null;
  }

  lemma ReplacedTrees(ts: seq<Tree>, k: nat, u: Tree)
    requires k < |ts| && ApartAll(ts + [u])
    ensures ApartAll(ts[k := u]) && Forest(ts[k := u]) <= Forest(ts + [u])
    ensures Apart(ts[k]) && Nodes(ts[k]) !! Forest(ts[k := u])
    ensures ShapeAll(ts + [u]) ==> ShapeAll(ts[k := u]) && Shape(ts[k])
  {
    hide Apart, ApartAll, Forest, Nodes, ShapeAll, Shape;
    ApartConcat(ts, [u]);
    ForestConcat(ts, [u]);
    ShapeConcat(ts, [u]);
    Singleton(u);
    WithoutTrees(ts, k);
    var w := Without(ts, k);
    ApartConcat(w, [u]);
    InsertedTrees(w, k, u);
    ForestConcat(w, [u]);
    ShapeConcat(w, [u]);
    UpdateIsInsert(ts, k, u);
    RootIn(ts, k);
  }

  lemma UpdateIsInsert(ts: seq<Tree>, k: nat, u: Tree)
    requires k < |ts|
    ensures ts[k := u] == Inserted(Without(ts, k), k, u)
  {
    var w := Without(ts, k);
    assert w[..k] == ts[..k] && w[k..] == ts[k + 1..];
  }

  lemma ReplaceDone(list: Node, item: Node, t: Tree, u: Tree, k: nat)
    requires t.root == list && u.root == item && k < |t.kids|
    requires Apart(Tree(list, t.kids + [u])) && ShapeAll(t.kids + [u])
    requires Swapped(Roots(t.kids), k, item)
    requires list.child == (if k == 0 then item else Roots(t.kids)[0])
    ensures TreeAt(list, Tree(list, t.kids[k := u]))
    ensures TreeAt(t.kids[k].root, t.kids[k])
    ensures Nodes(t.kids[k]) !! Nodes(Tree(list, t.kids[k := u]))
  {
    var ts := t.kids[k := u];
    ApartConcat(t.kids, [u]);
    ForestConcat(t.kids, [u]);
    RootsDistinct(t.kids);
    RootIn(t.kids, k);
    hide Swapped, Distinct, Inner;
    SwappedChain(Roots(t.kids), k, item);
    assert Roots(ts) == Roots(t.kids)[k := item];
    ReplacedTrees(t.kids, k, u);
    Rebuild(list, ts);
  }

  /** Replace item number which; past the end nothing changes. */
  method ReplaceItemInArray(list: Node, which: int, item: Node, ghost t: Tree, ghost u: Tree)
    returns (ghost k: nat, ghost t': Tree)
    requires TreeAt(list, t) && TreeAt(item, u) && Detached(item)
    requires Nodes(t) !! Nodes(u)
    modifies list`child, RootSet(t.kids)`next, RootSet(t.kids)`prev, item`next, item`prev
    ensures k == if which < 0 then 0 else which
    ensures k >= |t.kids| ==> t' == t && TreeAt(list, t)
    ensures k < |t.kids| ==>
              && t' == Tree(list, t.kids[k := u]) && TreeAt(list, t')
              && TreeAt(t.kids[k].root, t.kids[k]) && Detached(t.kids[k].root)
              && Nodes(t.kids[k]) !! Nodes(t')
  {
    hide TreeAt, Shape, ShapeAll, Apart, Inner, Forest, Nodes, Swapped, Distinct;
    ghost var rs, ts := Roots(t.kids), t.kids + [u];
    InsertReady(list, item, t, u);
    var c;
    ghost var i;
    c, i := Walk(list.child, which, rs, ts);
    k := if which < 0 then 0 else which;
    t' := t;
    if c == null {
      AppendAgain(list, item, t, u);
    } else {
      Swap(list, c, item, rs, k, ts);
      ReplaceDone(list, item, t, u, k);
      t' := Tree(list, t.kids[k := u]);
    }
  }

  // ----- deep copy

  /** A well-linked list of copies under root, with the given values. */
  ghost predicate Listed(root: Node, copies: seq<Tree>, vs: seq<Json>, ms: seq<Member>)
    reads {root}`child, Forest(copies)
  {
    RootsIn(copies);
    && Apart(Tree(root, copies)) && ShapeAll(copies)
    && root.child == Nth(Roots(copies), 0) && Chain(Roots(copies))
    && Values(copies) == vs && Members(copies) == ms
  }

  lemma AppendValue(a: seq<Tree>, x: Tree)
    ensures Values(a + [x]) == Values(a) + [Value(x)]
    ensures Members(a + [x]) == Members(a) + [Member(TextOf(x.root.name), Value(x))]
  {
    ValuesConcat(a, [x]);
    assert [x][1..] == [];
  }

  lemma SameValue(t: Tree, u: Tree)
    requires t.root.kind == u.root.kind && t.root.valuestring == u.root.valuestring
    requires t.root.valuedouble == u.root.valuedouble && t.root.valueint == u.root.valueint
    requires Values(t.kids) == Values(u.kids) && Members(t.kids) == Members(u.kids)
    ensures Value(t) == Value(u)
  {
  }

  lemma CopyReady(root: Node, copies: seq<Tree>, vs: seq<Json>, ms: seq<Member>, child: Node, x: Tree)
    requires Listed(root, copies, vs, ms) && TreeAt(child, x)
    requires Nodes(x) !! Forest(copies) && root !in Nodes(x)
    ensures TreeAt(root, Tree(root, copies)) && Nodes(Tree(root, copies)) !! Nodes(x)
    ensures Values(copies + [x]) == vs + [Value(x)]
    ensures Members(copies + [x]) == ms + [Member(TextOf(child.name), Value(x))]
    ensures |copies| == |vs|
  {
    AppendValue(copies, x);
  }

  lemma CopyDone(root: Node, copies: seq<Tree>, vs: seq<Json>, ms: seq<Member>)
    requires TreeAt(root, Tree(root, copies))
    requires Values(copies) == vs && Members(copies) == ms
    ensures Listed(root, copies, vs, ms)
  {
  }

  /** Link the copy of a child behind the copies made before. */
  method LinkCopy(root: Node, last: Node?, child: Node, ghost copies: seq<Tree>, ghost x: Tree,
                  ghost vs: seq<Json>, ghost ms: seq<Member>)
    requires Listed(root, copies, vs, ms) && last == Nth(Roots(copies), |copies| - 1)
    requires TreeAt(child, x) && Detached(child)
    requires Nodes(x) !! Forest(copies) && root !in Nodes(x)
    modifies {root}`child, RootSet(copies)`next, {child}`prev
    ensures Listed(root, copies + [x], vs + [old(Value(x))], ms + [Member(TextOf(child.name), old(Value(x)))])
  {
    hide TreeAt, Shape, ShapeAll, Apart, Inner, Forest, Nodes, Distinct, Values, Members, Value, Listed;
    ghost var t, rs := Tree(root, copies), Roots(copies);
    CopyReady(root, copies, vs, ms, child, x);
    AppendReady(root, child, t, x);
    if last == null {
      root.child := child;
    } else {
      SuffixObject(last, child, rs, copies + [x]);
    }
    Rebuild(root, copies + [x]);
    CopyDone(root, copies + [x], vs + [old(Value(x))], ms + [Member(TextOf(child.name), old(Value(x)))]);
  }

  /** The children to copy: a well-linked list with the given values. */
  ghost predicate Source(ts: seq<Tree>, vs: seq<Json>, ms: seq<Member>)
    reads Forest(ts)
  {
    RootsIn(ts);
    ApartAll(ts) && ShapeAll(ts) && Chain(Roots(ts)) && Values(ts) == vs && Members(ts) == ms
  }

  lemma {:induction false} ValueAt(ts: seq<Tree>, i: nat)
    requires i < |ts|
    ensures Values(ts)[i] == Value(ts[i])
    ensures Members(ts)[i] == Member(TextOf(ts[i].root.name), Value(ts[i]))
  {
    if i > 0 {
      ValueAt(ts[1..], i - 1);
    }
  }

  lemma {:induction false} ApartOf(ts: seq<Tree>, i: nat)
    requires i < |ts| && ApartAll(ts)
    ensures Apart(ts[i])
  {
    if i > 0 {
      ApartOf(ts[1..], i - 1);
    }
  }

  lemma SourceAt(ts: seq<Tree>, vs: seq<Json>, ms: seq<Member>, i: nat)
    requires Source(ts, vs, ms) && i < |ts|
    ensures TreeAt(ts[i].root, ts[i]) && Nodes(ts[i]) <= Forest(ts)
    ensures |vs| == |ms| == |ts|
    ensures vs[i] == Value(ts[i]) && ms[i] == Member(TextOf(ts[i].root.name), vs[i])
    ensures ts[i].root.next == Nth(Roots(ts), i + 1)
  {
    ShapeOf(ts, i);
    ApartOf(ts, i);
    RootIn(ts, i);
    ValueAt(ts, i);
    assert Roots(ts)[i] == ts[i].root;
  }

  /** Copy child number i and link the copy. */
  method CopyNext(root: Node, last: Node?, c: Node, ghost copies: seq<Tree>, ghost ts: seq<Tree>,
                  ghost i: nat, ghost vs: seq<Json>, ghost ms: seq<Member>)
    returns (child: Node, ghost x: Tree)
    requires Source(ts, vs, ms) && i < |ts| && c == ts[i].root && |vs| == |ms| == |ts|
    requires Listed(root, copies, vs[..i], ms[..i]) && last == Nth(Roots(copies), |copies| - 1)
    requires root !in Forest(ts) && Forest(copies) !! Forest(ts)
    modifies {root}`child, RootSet(copies)`next
    ensures Source(ts, vs, ms) && c.next == Nth(Roots(ts), i + 1)
    ensures Listed(root, copies + [x], vs[..i + 1], ms[..i + 1])
    ensures fresh(Nodes(x)) && x.root == child
    decreases ts, 0
  {
    hide TreeAt, Shape, ShapeAll, Apart, ApartAll, Inner, Forest, Nodes, Distinct;
    hide Values, Members, Value, Listed, Source;
    SourceAt(ts, vs, ms, i);
    Allocated(ts);
    Allocated(copies);
    RootsIn(copies);
    child, x := Duplicate(c, true, ts[i]);
    Allocated(ts);
    LinkCopy(root, last, child, copies, x, vs[..i], ms[..i]);
    assert vs[..i + 1] == vs[..i] + [vs[i]];
    assert ms[..i + 1] == ms[..i] + [ms[i]];
    SourceAt(ts, vs, ms, i);
  }

  /** A new node with the data of another. */
  method CopyFields(item: Node) returns (copy: Node)
    ensures fresh(copy) && Detached(copy) && copy.child == null
    ensures copy.kind == item.kind && copy.valueint == item.valueint && copy.valuedouble == item.valuedouble
    ensures copy.valuestring == item.valuestring && copy.name == item.name
  {
    copy := new Node();
    copy.kind := item.kind;
    copy.valueint := item.valueint;
    copy.valuedouble := item.valuedouble;
    copy.valuestring := item.valuestring;
    copy.name := item.name;
  }

  /** The loop of Duplicate over the children. */
  method CopyChildren(root: Node, first: Node?, ghost ts: seq<Tree>, ghost vs: seq<Json>, ghost ms: seq<Member>)
    returns (ghost copies: seq<Tree>)
    requires Source(ts, vs, ms) && first == Nth(Roots(ts), 0) && |vs| == |ms| == |ts|
    requires root.child == null && root !in Forest(ts)
    modifies {root}`child
    ensures Source(ts, vs, ms) && Listed(root, copies, vs, ms)
    ensures fresh(Forest(copies))
    decreases ts, 1
  {
    hide Listed, Source, Forest, Nodes;
    var c, last: Node? := first, null;
    copies := [];
    ghost var i := 0;
    ListedNone(root, vs, ms);
    while c != null
      invariant i <= |ts| && |copies| == i
      invariant Source(ts, vs, ms) && c == Nth(Roots(ts), i)
      invariant Listed(root, copies, vs[..i], ms[..i]) && last == Nth(Roots(copies), i - 1)
      invariant fresh(Forest(copies)) && Forest(copies) !! Forest(ts)
      decreases |ts| - i
    {
      Allocated(ts);
      RootsIn(copies);
      ghost var x;
      last, x := CopyNext(root, last, c, copies, ts, i, vs, ms);
      AppendForest(copies, x);
      copies := copies + [x];
      c := c.next;
      i := i + 1;
    }
    assert vs[..i] == vs && ms[..i] == ms;
  }

  lemma ListedNone(root: Node, vs: seq<Json>, ms: seq<Member>)
    requires root.child == null
    ensures Listed(root, [], vs[..0], ms[..0]) && Forest([]) == {}
  {
  }

  lemma AppendForest(ts: seq<Tree>, x: Tree)
    ensures Forest(ts + [x]) == Forest(ts) + Nodes(x)
    ensures Roots(ts + [x])[|ts|] == x.root
  {
    ForestConcat(ts, [x]);
    Singleton(x);
  }

  /**
   * Duplicate: a new node with the same data; with recurse, an equal tree made
   * of new nodes. The result is attached to nothing and the original is intact.
   */
  method Duplicate(item: Node, recurse: bool, ghost t: Tree) returns (copy: Node, ghost t': Tree)
    requires TreeAt(item, t)
    ensures fresh(copy) && fresh(Nodes(t')) && TreeAt(copy, t') && Detached(copy) && t'.root == copy
    ensures copy.kind == item.kind && copy.valueint == item.valueint && copy.valuedouble == item.valuedouble
    ensures copy.valuestring == item.valuestring && copy.name == item.name
    ensures if recurse then Value(t') == old(Value(t)) else t'.kids == []
    decreases t, 1
  {
    hide TreeAt, Source, Listed, Forest, Nodes, Values, Members, Value;
    ghost var vs, ms := Values(t.kids), Members(t.kids);
    SourceOf(item, t);
    Allocated(t.kids);
    copy := CopyFields(item);
    t' := Tree(copy, []);
    BareNode(copy);
    if recurse {
      Allocated(t.kids);
      ghost var copies := CopyChildren(copy, item.child, t.kids, vs, ms);
      t' := Tree(copy, copies);
      CopyResult(item, t, copy, copies, vs, ms);
    }
  }

  lemma BareNode(n: Node)
    requires n.child == null
    ensures TreeAt(n, Tree(n, [])) && Nodes(Tree(n, [])) == {n}
  {
  }

  lemma CopyResult(item: Node, t: Tree, copy: Node, copies: seq<Tree>, vs: seq<Json>, ms: seq<Member>)
    requires Listed(copy, copies, vs, ms) && item == t.root
    requires Values(t.kids) == vs && Members(t.kids) == ms
    requires copy.kind == item.kind && copy.valuedouble == item.valuedouble && copy.valueint == item.valueint
    requires copy.valuestring == item.valuestring
    ensures TreeAt(copy, Tree(copy, copies)) && Value(Tree(copy, copies)) == Value(t)
    ensures Nodes(Tree(copy, copies)) == {copy} + Forest(copies)
  {
    SameValue(Tree(copy, copies), t);
  }

  lemma SourceOf(item: Node, t: Tree)
    requires TreeAt(item, t)
    ensures Source(t.kids, Values(t.kids), Members(t.kids))
    ensures item == t.root && item !in Forest(t.kids) && Nodes(t) == {item} + Forest(t.kids)
    ensures item.child == Nth(Roots(t.kids), 0)
  {
  }
}
