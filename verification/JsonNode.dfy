// The nodes of the JSON library. A ghost tree says which node has which
// children; Shape says that the child lists are linked accordingly, and Value
// reads off the JSON value. Value does not depend on the links.
module JsonNode {
  import opened CText
  import opened JsonValue

  datatype Kind = KFalse | KTrue | KNull | KNumber | KString | KArray | KObject

  class Node {
    var next: Node?
    var prev: Node?
    var child: Node?
    var kind: Kind
    var valuestring: Option<seq<byte>>
    var valueint: int
    var valuedouble: real
    var name: Option<seq<byte>>

    /** A node with all its bytes zero. */
    constructor ()
      ensures next == null && prev == null && child == null
      ensures kind == KFalse && valuestring == None && valueint == 0 && valuedouble == 0.0 && name == None
    {
      next, prev, child := null, null, null;
      kind, valuestring, valueint, valuedouble, name := KFalse, None, 0, 0.0, None;
    }
  }

  datatype Tree = Tree(root: Node, kids: seq<Tree>)

  ghost function Nodes(t: Tree): set<Node>
    decreases t, 1
  {
    {t.root} + Forest(t.kids)
  }

  ghost function Forest(ts: seq<Tree>): set<Node>
    decreases ts, 0
  {
    if ts == [] then {} else Nodes(ts[0]) + Forest(ts[1..])
  }

  /** The nodes below the roots of a forest. */
  ghost function Inner(ts: seq<Tree>): (r: set<Node>)
    ensures r <= Forest(ts)
    decreases ts, 0
  {
    if ts == [] then {} else Forest(ts[0].kids) + Inner(ts[1..])
  }

  ghost function Roots(ts: seq<Tree>): (r: seq<Node>)
    ensures |r| == |ts|
    ensures forall i :: 0 <= i < |ts| ==> r[i] == ts[i].root
  {
    seq(|ts|, i requires 0 <= i < |ts| => ts[i].root)
  }

  lemma {:induction false} RootIn(ts: seq<Tree>, i: nat)
    requires i < |ts|
    ensures Nodes(ts[i]) <= Forest(ts) && ts[i].root in Forest(ts)
  {
    if i > 0 {
      RootIn(ts[1..], i - 1);
    }
  }

  lemma RootsIn(ts: seq<Tree>)
    ensures forall r :: r in Roots(ts) ==> r in Forest(ts)
  {
    forall i | 0 <= i < |ts|
      ensures ts[i].root in Forest(ts)
    {
      RootIn(ts, i);
    }
  }

  /** The nodes of a forest exist, so a call that creates others leaves them alone. */
  lemma {:induction false} Allocated(ts: seq<Tree>)
    ensures forall n :: n in Forest(ts) ==> allocated(n)
    ensures Inner(ts) <= Forest(ts)
    decreases ts
  {
    if ts != [] {
      var t := ts[0];
      Allocated(t.kids);
      Allocated(ts[1..]);
      assert Nodes(t) == {t.root} + Forest(t.kids);
    }
  }

  // ----- no node occurs twice

  ghost predicate Apart(t: Tree)
    decreases t, 1
  {
    t.root !in Forest(t.kids) && ApartAll(t.kids)
  }

  ghost predicate ApartAll(ts: seq<Tree>)
    decreases ts, 0
  {
    ts == [] || (Apart(ts[0]) && ApartAll(ts[1..]) && Nodes(ts[0]) !! Forest(ts[1..]))
  }

  lemma {:induction false} ForestConcat(a: seq<Tree>, b: seq<Tree>)
    ensures Forest(a + b) == Forest(a) + Forest(b)
  {
    if a == [] {
      assert a + b == b;
    } else {
      ForestConcat(a[1..], b);
      assert (a + b)[1..] == a[1..] + b;
    }
  }

  lemma {:induction false} ApartConcat(a: seq<Tree>, b: seq<Tree>)
    ensures ApartAll(a + b) <==> ApartAll(a) && ApartAll(b) && Forest(a) !! Forest(b)
  {
    if a == [] {
      assert a + b == b;
    } else {
      ApartConcat(a[1..], b);
      ForestConcat(a[1..], b);
      assert (a + b)[1..] == a[1..] + b && (a + b)[0] == a[0];
    }
  }

  lemma Singleton(t: Tree)
    ensures Forest([t]) == Nodes(t)
    ensures ApartAll([t]) <==> Apart(t)
  {
    assert [t][1..] == [];
  }

  lemma {:induction false} RootsApart(ts: seq<Tree>, i: nat, j: nat)
    requires ApartAll(ts) && i < j < |ts|
    ensures ts[i].root != ts[j].root && ts[i].root !in Nodes(ts[j])
  {
    if i == 0 {
      RootIn(ts[1..], j - 1);
    } else {
      RootsApart(ts[1..], i - 1, j - 1);
    }
  }

  lemma {:induction false} RootsNotInner(ts: seq<Tree>, i: nat)
    requires ApartAll(ts) && i < |ts|
    ensures ts[i].root !in Inner(ts)
  {
    if i == 0 {
    } else {
      RootsNotInner(ts[1..], i - 1);
      RootIn(ts[1..], i - 1);
    }
  }

  // ----- the links

  ghost predicate Chain(rs: seq<Node>)
    reads (set r | r in rs)`next, (set r | r in rs)`prev
  {
    && (forall i :: 0 <= i < |rs| ==> rs[i].next == Nth(rs, i + 1))
    && (forall i :: 0 <= i < |rs| ==> rs[i].prev == Nth(rs, i - 1))
  }

  /** Element i of a list, or null outside of it. */
  ghost function Nth(rs: seq<Node>, i: int): Node? {
    if 0 <= i < |rs| then rs[i] else null
  }

  ghost predicate Shape(t: Tree)
    reads Nodes(t)`child, Forest(t.kids)`next, Forest(t.kids)`prev
    decreases t, 1
  {
    RootsIn(t.kids);
    && t.root.child == Nth(Roots(t.kids), 0)
    && Chain(Roots(t.kids))
    && ShapeAll(t.kids)
  }

  ghost predicate ShapeAll(ts: seq<Tree>)
    reads Forest(ts)`child, Inner(ts)`next, Inner(ts)`prev
    decreases ts, 0
  {
    ts == [] || (Shape(ts[0]) && ShapeAll(ts[1..]))
  }

  lemma {:induction false} ShapeConcat(a: seq<Tree>, b: seq<Tree>)
    ensures ShapeAll(a + b) <==> ShapeAll(a) && ShapeAll(b)
  {
    if a == [] {
      assert a + b == b;
    } else {
      ShapeConcat(a[1..], b);
      assert (a + b)[1..] == a[1..] + b && (a + b)[0] == a[0];
    }
  }

  lemma ShapeSingleton(t: Tree)
    ensures ShapeAll([t]) <==> Shape(t)
  {
    assert [t][1..] == [];
  }

  lemma {:induction false} ShapeOf(ts: seq<Tree>, i: nat)
    requires i < |ts| && ShapeAll(ts)
    ensures Shape(ts[i])
  {
    if i > 0 {
      ShapeOf(ts[1..], i - 1);
    }
  }

  // ----- the value

  ghost function Value(t: Tree): Json
    reads Nodes(t)`kind, Nodes(t)`valuestring, Nodes(t)`valuedouble, Nodes(t)`valueint, Nodes(t)`name
    decreases t, 1
  {
    match t.root.kind
    case KFalse => False
    case KTrue => True
    case KNull => Null
    case KNumber => Number(t.root.valuedouble, t.root.valueint)
    case KString => String(TextOf(t.root.valuestring))
    case KArray => Array(Values(t.kids))
    case KObject => Object(Members(t.kids))
  }

  ghost function Values(ts: seq<Tree>): (r: seq<Json>)
    reads Forest(ts)`kind, Forest(ts)`valuestring, Forest(ts)`valuedouble, Forest(ts)`valueint, Forest(ts)`name
    ensures |r| == |ts|
    decreases ts, 0
  {
    if ts == [] then [] else [Value(ts[0])] + Values(ts[1..])
  }

  ghost function Members(ts: seq<Tree>): (r: seq<Member>)
    reads Forest(ts)`kind, Forest(ts)`valuestring, Forest(ts)`valuedouble, Forest(ts)`valueint, Forest(ts)`name
    ensures |r| == |ts|
    decreases ts, 0
  {
    if ts == [] then [] else [Member(TextOf(ts[0].root.name), Value(ts[0]))] + Members(ts[1..])
  }

  lemma {:induction false} ValuesConcat(a: seq<Tree>, b: seq<Tree>)
    ensures Values(a + b) == Values(a) + Values(b)
    ensures Members(a + b) == Members(a) + Members(b)
  {
    if a == [] {
      assert a + b == b;
    } else {
      ValuesConcat(a[1..], b);
      assert (a + b)[1..] == a[1..] + b && (a + b)[0] == a[0];
    }
  }
}
