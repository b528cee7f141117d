/**
The DOM mirror of chromedp/util.go and chromedp/target.go: a tree of nodes and an
index from node id to node, edited in place by the stream of DOM events.
*/
module Dom {
  import Attributes

  /** A `chan struct{}` that is only ever closed. */
  class Channel {
    var closed: bool

    constructor ()
      ensures !closed
    {
      closed := false;
    }

    /** Closing twice panics. */
    method Close()
      requires !closed
      modifies this
      ensures closed
    {
      closed := true;
    }
  }

  class Node {
    const nodeID: int
    var children: seq<Node>
    var shadowRoots: seq<Node>
    var pseudoElements: seq<Node>
    var contentDocument: Node?
    var templateContent: Node?
    var parent: Node?
    var invalidated: Channel?
    var attributes: seq<string>
    var value: string
    var childNodeCount: int

    /** The node that lists this one, and a depth below it; they only serve the proofs. */
    ghost var up: Node?
    ghost var depth: nat

    constructor (id: int)
      ensures nodeID == id && Kids() == [] && up == null && parent == null && invalidated == null && attributes == []
    {
      nodeID := id;
      children, shadowRoots, pseudoElements := [], [], [];
      contentDocument, templateContent, parent, invalidated := null, null, null, null;
      attributes, value, childNodeCount := [], "", 0;
      up, depth := null, 0;
    }

    /** All the nodes this one lists, in the order `walk` takes them. */
    function Kids(): seq<Node>
      reads this`children, this`shadowRoots, this`pseudoElements, this`contentDocument, this`templateContent
    {
      children + shadowRoots + pseudoElements + Opt(contentDocument) + Opt(templateContent)
    }
  }

  function Opt(n: Node?): seq<Node> { if n == null then [] else [n] }

  // ---------- child lists ----------

  /** The position of the first node with the id, or -1. */
  function Find(ns: seq<Node>, id: int): (i: int)
    ensures -1 <= i < |ns|
    ensures i >= 0 ==> ns[i].nodeID == id
    ensures i < 0 ==> forall k :: 0 <= k < |ns| ==> ns[k].nodeID != id
  {
    if ns == [] then -1
    else if ns[0].nodeID == id then 0
    else var r := Find(ns[1..], id); if r < 0 then -1 else r + 1
  }

  lemma {:induction false} FindIs(ns: seq<Node>, id: int, i: int)
    requires -1 <= i < |ns|
    requires i >= 0 ==> ns[i].nodeID == id
    requires forall k :: 0 <= k < (if i < 0 then |ns| else i) ==> ns[k].nodeID != id
    ensures Find(ns, id) == i
  {
    if ns != [] && ns[0].nodeID != id {
      FindIs(ns[1..], id, if i < 0 then -1 else i - 1);
    }
  }

  /** After the node with the id, or at the front when there is none. */
  function Inserted(ns: seq<Node>, prevID: int, c: Node): seq<Node> {
    var i := Find(ns, prevID);
    ns[..i + 1] + [c] + ns[i + 1..]
  }

  method InsertNode(ns: seq<Node>, prevID: int, c: Node) returns (r: seq<Node>)
    ensures r == Inserted(ns, prevID, c)
  {
    var i, found := 0, false;
    while i < |ns|
      invariant 0 <= i <= |ns| && !found
      invariant forall k :: 0 <= k < i ==> ns[k].nodeID != prevID
    {
      if ns[i].nodeID == prevID {
        found := true;
        break;
      }
      i := i + 1;
    }
    if !found {
      FindIs(ns, prevID, -1);
      return [c] + ns;
    }
    FindIs(ns, prevID, i);
    i := i + 1;
    r := ns[..i] + [c] + ns[i..];
  }

  function Removed(ns: seq<Node>, id: int): seq<Node> {
    var i := Find(ns, id);
    if i < 0 then ns else ns[..i] + ns[i + 1..]
  }

  method RemoveNode(ns: seq<Node>, id: int) returns (r: seq<Node>)
    ensures r == Removed(ns, id)
  {
    if |ns| == 0 {
      return ns;
    }
    var i, found := 0, false;
    while i < |ns|
      invariant 0 <= i <= |ns| && !found
      invariant forall k :: 0 <= k < i ==> ns[k].nodeID != id
    {
      if ns[i].nodeID == id {
        found := true;
        break;
      }
      i := i + 1;
    }
    if !found {
      FindIs(ns, id, -1);
      return ns;
    }
    FindIs(ns, id, i);
    return ns[..i] + ns[i + 1..];
  }

  /** Inserting a child with a new id and removing it again restores the list, wherever it went. */
  lemma {:induction false} InsertThenRemove(ns: seq<Node>, prevID: int, c: Node)
    requires forall k :: 0 <= k < |ns| ==> ns[k].nodeID != c.nodeID
    ensures Removed(Inserted(ns, prevID, c), c.nodeID) == ns
  {
    var i := Find(ns, prevID);
    var longer := Inserted(ns, prevID, c);
    FindIs(longer, c.nodeID, i + 1);
    assert longer[..i + 1] + longer[i + 2..] == ns[..i + 1] + ns[i + 1..] == ns;
  }

  /** Behind the first node of the id, and in front of all without one. */
  lemma {:induction false} InsertedInPlace(a: seq<Node>, p: Node, b: seq<Node>, c: Node, other: int)
    requires forall k :: 0 <= k < |a| ==> a[k].nodeID != p.nodeID
    requires forall k :: 0 <= k < |a| ==> a[k].nodeID != other
    ensures Inserted(a + [p] + b, p.nodeID, c) == a + [p, c] + b
    ensures Inserted(a, other, c) == [c] + a
  {
    FindIs(a + [p] + b, p.nodeID, |a|);
    FindIs(a, other, -1);
    assert (a + [p] + b)[..|a| + 1] == a + [p] && (a + [p] + b)[|a| + 1..] == b;
  }

  /** The first node of the id goes, and no other. */
  lemma {:induction false} RemovedInPlace(a: seq<Node>, p: Node, b: seq<Node>)
    requires forall k :: 0 <= k < |a| ==> a[k].nodeID != p.nodeID
    ensures Removed(a + [p] + b, p.nodeID) == a + b && Removed(a, p.nodeID) == a
  {
    FindIs(a + [p] + b, p.nodeID, |a|);
    FindIs(a, p.nodeID, -1);
    assert (a + [p] + b)[..|a|] == a && (a + [p] + b)[|a| + 1..] == b;
  }

  /** The tree goes down by all five ways, and by no other. */
  lemma {:induction false} KidsAreAll(n: Node, c: Node)
    ensures c in n.Kids()
      <==> || c in n.children || c in n.shadowRoots || c in n.pseudoElements
           || n.contentDocument == c || n.templateContent == c
  {
    var singles := Opt(n.contentDocument) + Opt(n.templateContent);
    assert n.Kids() == n.children + n.shadowRoots + n.pseudoElements + singles;
    assert c in singles <==> c in Opt(n.contentDocument) || c in Opt(n.templateContent);
  }

  predicate Unique(ns: seq<Node>) {
    forall x :: x in ns ==> multiset(ns)[x] == 1
  }

  // ---------- the invariant ----------

  /** `x` is in the index, under its own id. */
  predicate Indexed(m: map<int, Node>, x: Node) {
    x.nodeID in m && m[x.nodeID] == x
  }

  ghost predicate Keyed(m: map<int, Node>, U: set<Node>) {
    forall k :: k in m ==> m[k].nodeID == k && m[k] in U
  }

  /** Every node is listed at most once, by the node `up` names; ids are distinct. */
  ghost predicate Forest(U: set<Node>)
    reads U`children, U`shadowRoots, U`pseudoElements, U`contentDocument, U`templateContent, U`up, U`depth
  {
    && (forall x, c :: x in U && c in x.Kids() ==> c in U && c.up == x && x.depth < c.depth)
    && (forall x :: x in U ==> Unique(x.Kids()))
    && (forall x, y :: x in U && y in U && x.nodeID == y.nodeID ==> x == y)
  }

  /** An indexed kid points back at the node that lists it, which is indexed too. */
  ghost predicate Linked(m: map<int, Node>, U: set<Node>)
    reads U`children, U`shadowRoots, U`pseudoElements, U`contentDocument, U`templateContent, U`parent, U`invalidated
  {
    forall x, c :: x in U && c in x.Kids() && c in U && Indexed(m, c) ==>
      Indexed(m, x) && c.parent == x && c.invalidated == x.invalidated
  }

  /** The kids of every indexed node are indexed, but for those of the nodes being walked. */
  ghost predicate Complete(m: map<int, Node>, U: set<Node>, busy: set<Node>)
    reads U`children, U`shadowRoots, U`pseudoElements, U`contentDocument, U`templateContent
  {
    forall x, c :: x in U && x !in busy && c in x.Kids() && Indexed(m, x) ==> Indexed(m, c)
  }

  ghost predicate Grown(before: map<int, Node>, after: map<int, Node>, U: set<Node>) {
    forall x :: x in U && Indexed(before, x) ==> Indexed(after, x)
  }

  /** Indexing a node whose own parent is indexed and linked to it. */
  lemma {:induction false} IndexOne(m: map<int, Node>, n: Node, U: set<Node>, busy: set<Node>)
    requires n in U && Forest(U) && Keyed(m, U) && Linked(m, U) && Complete(m, U, busy + {n})
    requires forall x :: x in U && n in x.Kids() ==> Indexed(m, x) && n.parent == x && n.invalidated == x.invalidated
    ensures
      var m' := m[n.nodeID := n];
      Keyed(m', U) && Linked(m', U) && Complete(m', U, busy + {n}) && Indexed(m', n) && Grown(m, m', U)
  {
    hide Node.Kids, Unique;
    var m' := m[n.nodeID := n];
    forall x | x in U
      ensures Indexed(m', x) <==> Indexed(m, x) || x == n
    {
    }
  }

  lemma {:induction false} Wider(m: map<int, Node>, U: set<Node>, busy: set<Node>, c: Node)
    requires Complete(m, U, busy)
    ensures Complete(m, U, busy + {c})
  {
  }

  lemma {:induction false} KidOf(n: Node, c: Node, U: set<Node>)
    requires Forest(U) && n in U && c in n.Kids()
    ensures c in U && c.up == n && n.depth < c.depth && c != n
    ensures forall x :: x in U && c in x.Kids() ==> x == n
  {
    hide Node.Kids, Unique;
  }

  ghost function NodesOf(m: map<int, Node>): set<Node> { set k | k in m :: m[k] }

  lemma {:induction false} NodesAreIndexed(m: map<int, Node>, U: set<Node>)
    requires Keyed(m, U)
    ensures forall x :: x in NodesOf(m) <==> Indexed(m, x)
    ensures NodesOf(m) <= U && Keyed(m, NodesOf(m))
  {
  }

  /** What an event leaves: the index is closed under listing. */
  ghost predicate Closed(m: map<int, Node>, U: set<Node>)
    reads U`children, U`shadowRoots, U`pseudoElements, U`contentDocument, U`templateContent, U`up, U`depth
    reads U`parent, U`invalidated
  {
    Keyed(m, U) && Forest(U) && Linked(m, U) && Complete(m, U, {})
  }

  lemma {:induction false} ClosedWithin(m: map<int, Node>, U: set<Node>)
    requires Closed(m, U)
    ensures Closed(m, NodesOf(m)) && NodesOf(m) <= U
  {
    hide Node.Kids, Unique;
    NodesAreIndexed(m, U);
    var V := NodesOf(m);
    forall x, c | x in V && c in x.Kids()
      ensures c in V
    {
      assert Indexed(m, x) && x in U;
    }
  }

  /** Before the walk: nodes of the payload are not indexed, and only `n` may have kids that are not. */
  lemma {:induction false} BeforeWalk(m: map<int, Node>, P: set<Node>, n: Node, kids: seq<Node>)
    requires Keyed(m, NodesOf(m)) && LinkedBut(m, NodesOf(m), n)
    requires LinkedIn(m, NodesOf(m), n, kids) && ForestBut(NodesOf(m), n)
    requires forall c :: c in n.Kids() && c in NodesOf(m) ==> c in kids
    requires Forest(NodesOf(m) + P) && Forest(P) && Indexed(m, n)
    requires NodesOf(m) !! P && forall x :: x in P ==> x.nodeID !in m
    ensures
      var U := NodesOf(m) + P;
      n in U && Keyed(m, U) && Linked(m, U) && Complete(m, U, {} + {n})
    ensures forall x :: x in NodesOf(m) + P && n in x.Kids() ==>
      Indexed(m, x) && n.parent == x && n.invalidated == x.invalidated
  {
    hide Node.Kids, Unique;
    NodesAreIndexed(m, NodesOf(m));
    forall x, c | x in NodesOf(m) + P && x !in {} + {n} && c in x.Kids() && Indexed(m, x)
      ensures Indexed(m, c)
    {
      assert x in NodesOf(m) && x != n;
      assert c in NodesOf(m);
    }
  }

  /** A node is done once all its kids are indexed. */
  lemma {:induction false} Finish(m: map<int, Node>, n: Node, U: set<Node>, busy: set<Node>)
    requires Complete(m, U, busy + {n}) && forall c :: c in n.Kids() ==> Indexed(m, c)
    ensures Complete(m, U, busy)
  {
  }

  lemma {:induction false} DepthBound(U: set<Node>) returns (bound: nat)
    ensures forall x :: x in U ==> x.depth <= bound
  {
    if U == {} {
      bound := 0;
    } else {
      var x :| x in U;
      var b := DepthBound(U - {x});
      bound := if x.depth > b then x.depth else b;
    }
  }

  /** A forest but for the list of `n`. */
  ghost predicate ForestBut(U: set<Node>, n: Node)
    reads (U - {n})`children, (U - {n})`shadowRoots, (U - {n})`pseudoElements, (U - {n})`contentDocument
    reads (U - {n})`templateContent
    reads U`up, U`depth
  {
    && (forall x, c :: x in U - {n} && c in x.Kids() ==> c in U && c.up == x && x.depth < c.depth)
    && (forall x :: x in U - {n} ==> Unique(x.Kids()))
    && (forall x, y :: x in U && y in U && x.nodeID == y.nodeID ==> x == y)
  }

  ghost predicate LinkedBut(m: map<int, Node>, U: set<Node>, n: Node)
    reads (U - {n})`children, (U - {n})`shadowRoots, (U - {n})`pseudoElements, (U - {n})`contentDocument
    reads (U - {n})`templateContent
    reads U`parent, U`invalidated
  {
    forall x, c :: x in U - {n} && c in x.Kids() && c in U && Indexed(m, c) ==>
      Indexed(m, x) && c.parent == x && c.invalidated == x.invalidated
  }

  ghost predicate LinkedIn(m: map<int, Node>, U: set<Node>, n: Node, kids: seq<Node>)
    reads n`invalidated, U`parent, U`invalidated
  {
    forall c :: c in kids && c in U && Indexed(m, c) ==> c.parent == n && c.invalidated == n.invalidated
  }

  /** Nodes whose place is right for kids of `n`. */
  ghost predicate BelowIn(S: set<Node>, n: Node, kids: seq<Node>)
    reads n`depth, S`up, S`depth
  {
    forall c :: c in kids ==> c in S && c.up == n && n.depth < c.depth
  }

  /** Replacing the list of `n` by old kids and new tops leaves a forest. */
  lemma {:induction false} Grafted(m: map<int, Node>, U: set<Node>, P: set<Node>, n: Node, kids: seq<Node>,
      tops: seq<Node>)
    requires Keyed(m, U) && U == NodesOf(m) && forall x :: x in P ==> x.nodeID !in m
    requires n in U && ForestBut(U, n) && Forest(P) && U !! P
    requires BelowIn(U, n, kids) && BelowIn(P, n, tops) && Unique(kids) && Unique(tops)
    requires multiset(n.Kids()) <= multiset(kids) + multiset(tops)
    ensures Forest(U + P) && forall c :: c in n.Kids() && c in U ==> c in kids
  {
    hide Node.Kids;
    NodesAreIndexed(m, U);
    forall c | c in n.Kids()
      ensures c in U + P && c.up == n && n.depth < c.depth && multiset(n.Kids())[c] == 1
    {
      assert multiset(n.Kids())[c] <= multiset(kids)[c] + multiset(tops)[c];
      assert c in kids || c in tops;
    }
  }

  /** The kids that are not children, shadow roots or pseudo elements are single fields. */
  ghost function Singles(n: Node): multiset<Node>
    reads n`contentDocument, n`templateContent
  {
    multiset(Opt(n.contentDocument)) + multiset(Opt(n.templateContent))
  }

  lemma {:induction false} KidsCount(n: Node)
    ensures multiset(n.Kids())
         == multiset(n.children) + multiset(n.shadowRoots) + multiset(n.pseudoElements) + Singles(n)
    ensures forall c :: c in n.children || c in n.shadowRoots || c in n.pseudoElements ==> c in n.Kids()
  {
  }

  /** One node more in one of the three lists is one node more among the kids. */
  lemma {:induction false} OneMore(k: multiset<Node>, k': multiset<Node>, a: multiset<Node>,
      a': multiset<Node>, b: multiset<Node>,
                b': multiset<Node>, c: multiset<Node>, c': multiset<Node>, s: multiset<Node>, x: Node)
    requires k == a + b + c + s && k' == a' + b' + c' + s
    requires
      || (a' == a + multiset{x} && b' == b && c' == c)
      || (a' == a && b' == b + multiset{x} && c' == c)
      || (a' == a && b' == b && c' == c + multiset{x})
    ensures k' == k + multiset{x}
  {
  }

  lemma {:induction false} KidsOneMore(n: Node, k: multiset<Node>, a: multiset<Node>, b: multiset<Node>,
      c: multiset<Node>, s: multiset<Node>, tops: seq<Node>)
    requires k == a + b + c + s && s == Singles(n) && |tops| == 1
    requires
      var x := multiset{tops[0]};
      || (multiset(n.children) == a + x && multiset(n.shadowRoots) == b && multiset(n.pseudoElements) == c)
      || (multiset(n.children) == a && multiset(n.shadowRoots) == b + x && multiset(n.pseudoElements) == c)
      || (multiset(n.children) == a && multiset(n.shadowRoots) == b && multiset(n.pseudoElements) == c + x)
    ensures multiset(n.Kids()) <= k + multiset(tops)
  {
    KidsCount(n);
    var a', b', c' := multiset(n.children), multiset(n.shadowRoots), multiset(n.pseudoElements);
    OneMore(k, multiset(n.Kids()), a, a', b, b', c, c', s, tops[0]);
    assert tops == [tops[0]];
  }

  lemma {:induction false} KidsReplaced(n: Node, k: multiset<Node>, a: multiset<Node>, b: multiset<Node>,
      c: multiset<Node>, s: multiset<Node>)
    requires k == a + b + c + s && s == Singles(n)
    requires multiset(n.shadowRoots) == b && multiset(n.pseudoElements) == c
    ensures multiset(n.Kids()) <= k + multiset(n.children)
  {
    KidsCount(n);
  }

  lemma {:induction false} InsertedCount(ns: seq<Node>, prevID: int, c: Node)
    ensures multiset(Inserted(ns, prevID, c)) == multiset(ns) + multiset{c}
  {
    var i := Find(ns, prevID) + 1;
    assert ns == ns[..i] + ns[i..];
  }

  /** What an edit of the list of `n` starts from. */
  lemma {:induction false} BeforeEdit(m: map<int, Node>, n: Node)
    requires Closed(m, NodesOf(m)) && Indexed(m, n)
    ensures ForestBut(NodesOf(m), n) && LinkedBut(m, NodesOf(m), n)
    ensures BelowIn(NodesOf(m), n, n.Kids()) && LinkedIn(m, NodesOf(m), n, n.Kids()) && Unique(n.Kids())
  {
    hide Node.Kids, Unique;
    NodesAreIndexed(m, NodesOf(m));
  }

  /** The list of `n` lost some of its kids, and the index nothing. */
  lemma {:induction false} Shortened(m: map<int, Node>, n: Node, kids: seq<Node>)
    requires Keyed(m, NodesOf(m)) && Indexed(m, n)
    requires ForestBut(NodesOf(m), n) && LinkedBut(m, NodesOf(m), n)
    requires BelowIn(NodesOf(m), n, kids) && LinkedIn(m, NodesOf(m), n, kids) && Unique(n.Kids())
    requires forall c :: c in n.Kids() ==> c in kids
    ensures Closed(m, NodesOf(m))
  {
    hide Node.Kids, Unique;
    NodesAreIndexed(m, NodesOf(m));
    forall y, c | y in NodesOf(m) && c in y.Kids()
      ensures c in NodesOf(m) && c.up == y && y.depth < c.depth && c.parent == y && c.invalidated == y.invalidated
    {
      assert y != n ==> y in NodesOf(m) - {n};
    }
    forall y | y in NodesOf(m)
      ensures Unique(y.Kids())
    {
      assert y != n ==> y in NodesOf(m) - {n};
    }
  }

  /** `x` leaves the index, and the list of `n` if it was there; nobody else lists it. */
  lemma {:induction false} Dropped(m: map<int, Node>, n: Node, kids: seq<Node>, x: Node)
    requires Keyed(m, NodesOf(m)) && Indexed(m, n) && Indexed(m, x)
    requires ForestBut(NodesOf(m), n) && LinkedBut(m, NodesOf(m), n)
    requires BelowIn(NodesOf(m), n, kids) && LinkedIn(m, NodesOf(m), n, kids) && Unique(n.Kids())
    requires forall c :: c in n.Kids() ==> c in kids
    requires forall y :: y in NodesOf(m) ==> x !in y.Kids()
    ensures Closed(m - {x.nodeID}, NodesOf(m - {x.nodeID}))
  {
    hide Node.Kids, Unique;
    var m' := m - {x.nodeID};
    NodesAreIndexed(m, NodesOf(m));
    assert Keyed(m', NodesOf(m'));
    NodesAreIndexed(m', NodesOf(m'));
    forall y | y in NodesOf(m)
      ensures y in NodesOf(m') <==> y != x
    {
      assert Indexed(m, y);
      assert y in NodesOf(m') <==> Indexed(m', y);
    }
    forall y, c | y in NodesOf(m') && c in y.Kids()
      ensures c in NodesOf(m') && c.up == y && y.depth < c.depth && c.parent == y && c.invalidated == y.invalidated
    {
      assert y in NodesOf(m);
      assert y != n ==> y in NodesOf(m) - {n};
      assert c in NodesOf(m);
    }
    forall y | y in NodesOf(m')
      ensures Unique(y.Kids())
    {
      assert y != n ==> y in NodesOf(m) - {n};
    }
    assert Forest(NodesOf(m'));
    assert Linked(m', NodesOf(m'));
    assert Complete(m', NodesOf(m'), {});
  }

  class Frame {
    var root: Node?
    var nodes: map<int, Node>

    constructor ()
      ensures Valid() && root == null && nodes == map[]
    {
      root := null;
      nodes := map[];
    }

    ghost function Known(): set<Node>
      reads this
    {
      NodesOf(nodes)
    }

    /** The index is closed under listing, and the root is in it with an open channel. */
    ghost predicate Valid()
      reads this
      reads Known()`children, Known()`shadowRoots, Known()`pseudoElements, Known()`contentDocument
      reads Known()`templateContent
      reads Known()`up, Known()`depth, Known()`parent, Known()`invalidated
      reads (if root == null then {} else {root})`up, (if root == null then {} else {root})`invalidated
      reads if root == null || root.invalidated == null then {} else {root.invalidated}
    {
      Closed(nodes, Known()) && RootOpen()
    }

    ghost predicate RootOpen()
      reads this, (if root == null then {} else {root})`up, (if root == null then {} else {root})`invalidated
      reads if root == null || root.invalidated == null then {} else {root.invalidated}
    {
      root != null ==>
        && Indexed(nodes, root) && root.up == null
        && root.invalidated != null && !root.invalidated.closed
    }

    /** Indexes the subtree of `n`, and points each node of it at its parent and at the channel. */
    method Walk(n: Node, ghost U: set<Node>, ghost busy: set<Node>, ghost bound: nat)
      requires n in U && Forest(U) && Keyed(nodes, U) && Linked(nodes, U) && Complete(nodes, U, busy + {n})
      requires forall x :: x in busy ==> x in U && x.depth < n.depth
      requires forall x :: x in U ==> x.depth <= bound
      requires forall x :: x in U && n in x.Kids() ==>
        Indexed(nodes, x) && n.parent == x && n.invalidated == x.invalidated
      modifies this`nodes, U`parent, U`invalidated
      ensures Keyed(nodes, U) && Linked(nodes, U) && Complete(nodes, U, busy) && Indexed(nodes, n)
      ensures Grown(old(nodes), nodes, U)
      ensures forall x :: x in U && (x.depth <= n.depth || Indexed(old(nodes), x)) ==>
        x.parent == old(x.parent) && x.invalidated == old(x.invalidated)
      decreases bound - n.depth, 1, 0
    {
      hide Forest, Keyed, Linked, Complete, Indexed;
      IndexOne(nodes, n, U, busy);
      nodes := nodes[n.nodeID := n];
      WalkAll(n, n.children, U, busy, bound);
      WalkAll(n, n.shadowRoots, U, busy, bound);
      WalkAll(n, n.pseudoElements, U, busy, bound);
      WalkAll(n, Opt(n.contentDocument), U, busy, bound);
      WalkAll(n, Opt(n.templateContent), U, busy, bound);
      Finish(nodes, n, U, busy);
    }

    /** One of the loops of `walk` over a list of kids of `n`. */
    method WalkAll(n: Node, list: seq<Node>, ghost U: set<Node>, ghost busy: set<Node>, ghost bound: nat)
      requires n in U && Forest(U) && Keyed(nodes, U) && Linked(nodes, U) && Complete(nodes, U, busy + {n})
      requires Indexed(nodes, n)
      requires forall x :: x in busy ==> x in U && x.depth < n.depth
      requires forall x :: x in U ==> x.depth <= bound
      requires forall c :: c in list ==> c in n.Kids()
      modifies this`nodes, U`parent, U`invalidated
      ensures Keyed(nodes, U) && Linked(nodes, U) && Complete(nodes, U, busy + {n})
      ensures Grown(old(nodes), nodes, U)
      ensures forall c :: c in list ==> c in U && Indexed(nodes, c)
      ensures forall x :: x in U && (x.depth <= n.depth || Indexed(old(nodes), x)) ==>
        x.parent == old(x.parent) && x.invalidated == old(x.invalidated)
      decreases bound - n.depth, 0, |list|
    {
      hide Forest, Keyed, Linked, Complete, Indexed;
      if list == [] {
        return;
      }
      var c := list[0];
      assert c in list;
      KidOf(n, c, U);
      Adopt(n, c, U);
      Wider(nodes, U, busy + {n}, c);
      Walk(c, U, busy + {n}, bound);
      WalkAll(n, list[1..], U, busy, bound);
    }

    /** The two assignments to a kid before `walk` goes into it. */
    method Adopt(n: Node, c: Node, ghost U: set<Node>)
      requires n in U && Forest(U) && Keyed(nodes, U) && Linked(nodes, U)
      requires Indexed(nodes, n) && c in n.Kids()
      modifies c`parent, c`invalidated
      ensures Linked(nodes, U) && c in U && n.depth < c.depth
      ensures forall x :: x in U && c in x.Kids() ==>
        Indexed(nodes, x) && c.parent == x && c.invalidated == x.invalidated
      ensures Indexed(nodes, c) ==> c.parent == old(c.parent) && c.invalidated == old(c.invalidated)
    {
      hide Node.Kids, Indexed;
      KidOf(n, c, U);
      ghost var wasLinked := Indexed(nodes, c) ==> c.parent == n && c.invalidated == n.invalidated;
      assert wasLinked;
      assert forall x, k :: x in U && k in x.Kids() && k in U && Indexed(nodes, k) ==>
        Indexed(nodes, x) && k.parent == x && k.invalidated == x.invalidated;
      c.parent := n;
      c.invalidated := n.invalidated;
      forall x, k | x in U && k in x.Kids() && k in U && Indexed(nodes, k)
        ensures Indexed(nodes, x) && k.parent == x && k.invalidated == x.invalidated
      {
        assert k == c ==> x == n;
      }
    }

    /** Gives the tops of a payload their place under `n`. */
    ghost method Place(n: Node, tops: seq<Node>, P: set<Node>)
      requires Forest(P) && n !in P && forall c :: c in tops ==> c in P && c.up == null
      modifies P`up, P`depth
      ensures Forest(P) && BelowIn(P, n, tops)
    {
      hide Node.Kids, Unique;
      forall x | x in P {
        x.depth := x.depth + n.depth + 1;
      }
      assert Forest(P);
      forall c | c in tops {
        c.up := n;
      }
    }

    /** A payload for the frame: a forest of nodes with ids the index does not hold. */
    ghost predicate Acceptable(P: set<Node>, tops: seq<Node>)
      reads this, P
    {
      && Forest(P) && P !! Known() && Unique(tops)
      && (forall x :: x in P ==> x.nodeID !in nodes)
      && (forall c :: c in tops ==> c in P && c.up == null)
    }

    /** The facts that survive a change of the list of `n`, which was `kids`. */
    ghost predicate Editing(m: map<int, Node>, n: Node, kids: seq<Node>)
      reads this`root, NodesOf(m) - {n}, n`up, n`depth, n`parent, n`invalidated
      reads (if root == null then {} else {root})`up, (if root == null then {} else {root})`invalidated
      reads if root == null || root.invalidated == null then {} else {root.invalidated}
    {
      && Indexed(m, n) && Keyed(m, NodesOf(m)) && ForestBut(NodesOf(m), n) && LinkedBut(m, NodesOf(m), n)
      && BelowIn(NodesOf(m), n, kids) && LinkedIn(m, NodesOf(m), n, kids) && Unique(kids)
      && (root != null ==>
        Indexed(m, root) && root.up == null && root.invalidated != null && !root.invalidated.closed)
    }

    lemma {:induction false} BeginEdit(n: Node)
      requires Valid() && Indexed(nodes, n)
      ensures Editing(nodes, n, n.Kids()) && n in NodesOf(nodes)
    {
      hide Node.Kids;
      BeforeEdit(nodes, n);
    }

    // The three assignments; none touches what an edit relies on.

    method SetChildren(n: Node, list: seq<Node>, ghost kids: seq<Node>)
      requires Editing(nodes, n, kids) && n in NodesOf(nodes)
      modifies n`children
      ensures Editing(nodes, n, kids) && n.children == list
    {
      hide Editing, Node.Kids;
      n.children := list;
    }

    method SetShadowRoots(n: Node, list: seq<Node>, ghost kids: seq<Node>)
      requires Editing(nodes, n, kids) && n in NodesOf(nodes)
      modifies n`shadowRoots
      ensures Editing(nodes, n, kids) && n.shadowRoots == list
    {
      hide Editing, Node.Kids;
      n.shadowRoots := list;
    }

    method SetPseudoElements(n: Node, list: seq<Node>, ghost kids: seq<Node>)
      requires Editing(nodes, n, kids) && n in NodesOf(nodes)
      modifies n`pseudoElements
      ensures Editing(nodes, n, kids) && n.pseudoElements == list
    {
      hide Editing, Node.Kids;
      n.pseudoElements := list;
    }

    /** The payload is in place below `n`. */
    ghost predicate Waiting(m: map<int, Node>, n: Node, tops: seq<Node>, P: set<Node>)
      reads P, n`depth
    {
      && P !! NodesOf(m) && Forest(P) && (forall x :: x in P ==> x.nodeID !in m)
      && BelowIn(P, n, tops) && Unique(tops)
    }

    ghost method Prepare(n: Node, tops: seq<Node>, P: set<Node>)
      requires Valid() && Indexed(nodes, n) && Acceptable(P, tops)
      modifies P`up, P`depth
      ensures Editing(nodes, n, n.Kids()) && Waiting(nodes, n, tops, P)
      ensures n in NodesOf(nodes) && n !in P && P !! NodesOf(nodes)
    {
      hide Forest, Linked, Complete, ForestBut, LinkedBut, LinkedIn, BelowIn, Unique, Node.Kids;
      NodesAreIndexed(nodes, Known());
      BeforeEdit(nodes, n);
      Place(n, tops, P);
    }

    /** Indexes what was attached below `n`. */
    method WalkFrom(n: Node, ghost kids: seq<Node>, ghost tops: seq<Node>, ghost P: set<Node>)
      requires Editing(nodes, n, kids) && Waiting(nodes, n, tops, P)
      requires multiset(n.Kids()) <= multiset(kids) + multiset(tops)
      modifies this`nodes, (Known() + P)`parent, (Known() + P)`invalidated
      ensures Known() <= old(Known()) + P && Grown(old(nodes), nodes, old(Known())) && Valid()
      ensures forall x :: x in old(Known()) ==> x.parent == old(x.parent) && x.invalidated == old(x.invalidated)
    {
      hide Forest, Keyed, Linked, Complete, ForestBut, LinkedBut, LinkedIn, Indexed, BelowIn, Unique, Node.Kids;
      ghost var U := Known() + P;
      NodesAreIndexed(nodes, Known());
      Grafted(nodes, Known(), P, n, kids, tops);
      BeforeWalk(nodes, P, n, kids);
      ghost var bound := DepthBound(U);
      Walk(n, U, {}, bound);
      ClosedWithin(nodes, U);
      assert RootOpen();
    }

    // ---------- events that attach ----------

    /** `n` gets new children; the old ones stay in the index. */
    method SetChildNodes(n: Node, ns: seq<Node>, ghost P: set<Node>)
      requires Valid() && Indexed(nodes, n) && Acceptable(P, ns)
      modifies this`nodes, n`children, (Known() + P)`parent, (Known() + P)`invalidated, P`up, P`depth
      ensures Valid() && n.children == ns && Grown(old(nodes), nodes, old(Known()))
      ensures forall x :: x in old(Known()) ==> x.parent == old(x.parent) && x.invalidated == old(x.invalidated)
    {
      hide Editing, Waiting, Valid, Node.Kids;
      ghost var kids, s := n.Kids(), Singles(n);
      ghost var a, b, e := multiset(n.children), multiset(n.shadowRoots), multiset(n.pseudoElements);
      KidsCount(n);
      Prepare(n, ns, P);
      SetChildren(n, ns, kids);
      KidsReplaced(n, multiset(kids), a, b, e, s);
      WalkFrom(n, kids, ns, P);
    }

    /** `c` goes after the child with id `prevID`, or to the front when there is none. */
    method ChildNodeInserted(n: Node, prevID: int, c: Node, ghost P: set<Node>)
      requires Valid() && Indexed(nodes, n) && Acceptable(P, [c])
      modifies this`nodes, n`children, (Known() + P)`parent, (Known() + P)`invalidated, P`up, P`depth
      ensures Valid() && n.children == Inserted(old(n.children), prevID, c) && Grown(old(nodes), nodes, old(Known()))
      ensures forall x :: x in old(Known()) ==> x.parent == old(x.parent) && x.invalidated == old(x.invalidated)
    {
      hide Editing, Waiting, Valid, Node.Kids, Inserted, Acceptable, Forest, Singles, Unique, Find, Grown;
      ghost var kids, s := n.Kids(), Singles(n);
      ghost var a, b, e := multiset(n.children), multiset(n.shadowRoots), multiset(n.pseudoElements);
      KidsCount(n);
      InsertedCount(n.children, prevID, c);
      Prepare(n, [c], P);
      var longer := InsertNode(n.children, prevID, c);
      SetChildren(n, longer, kids);
      KidsOneMore(n, multiset(kids), a, b, e, s, [c]);
      WalkFrom(n, kids, [c], P);
    }

    method ShadowRootPushed(n: Node, c: Node, ghost P: set<Node>)
      requires Valid() && Indexed(nodes, n) && Acceptable(P, [c])
      modifies this`nodes, n`shadowRoots, (Known() + P)`parent, (Known() + P)`invalidated, P`up, P`depth
      ensures Valid() && n.shadowRoots == old(n.shadowRoots) + [c] && Grown(old(nodes), nodes, old(Known()))
      ensures forall x :: x in old(Known()) ==> x.parent == old(x.parent) && x.invalidated == old(x.invalidated)
    {
      hide Editing, Waiting, Valid, Node.Kids;
      ghost var kids, s := n.Kids(), Singles(n);
      ghost var a, b, e := multiset(n.children), multiset(n.shadowRoots), multiset(n.pseudoElements);
      KidsCount(n);
      Prepare(n, [c], P);
      SetShadowRoots(n, n.shadowRoots + [c], kids);
      KidsOneMore(n, multiset(kids), a, b, e, s, [c]);
      WalkFrom(n, kids, [c], P);
    }

    method PseudoElementAdded(n: Node, c: Node, ghost P: set<Node>)
      requires Valid() && Indexed(nodes, n) && Acceptable(P, [c])
      modifies this`nodes, n`pseudoElements, (Known() + P)`parent, (Known() + P)`invalidated, P`up, P`depth
      ensures Valid() && n.pseudoElements == old(n.pseudoElements) + [c] && Grown(old(nodes), nodes, old(Known()))
      ensures forall x :: x in old(Known()) ==> x.parent == old(x.parent) && x.invalidated == old(x.invalidated)
    {
      hide Editing, Waiting, Valid, Node.Kids;
      ghost var kids, s := n.Kids(), Singles(n);
      ghost var a, b, e := multiset(n.children), multiset(n.shadowRoots), multiset(n.pseudoElements);
      KidsCount(n);
      Prepare(n, [c], P);
      SetPseudoElements(n, n.pseudoElements + [c], kids);
      KidsOneMore(n, multiset(kids), a, b, e, s, [c]);
      WalkFrom(n, kids, [c], P);
    }

    // ---------- events that detach ----------

    /** Nothing in the index lists `x`, and it is not the root. */
    ghost predicate Loose(m: map<int, Node>, x: Node)
      reads this`root, NodesOf(m)`children, NodesOf(m)`shadowRoots, NodesOf(m)`pseudoElements
      reads NodesOf(m)`contentDocument, NodesOf(m)`templateContent
    {
      x != root && forall y :: y in NodesOf(m) ==> x !in y.Kids()
    }

    /**
    The removals that keep the index covering the tree: the id is not in the index,
    names a node of the list, or names a node that was detached before.
    */
    ghost predicate Removable(m: map<int, Node>, list: seq<Node>, id: int)
      reads this`root, NodesOf(m)`children, NodesOf(m)`shadowRoots, NodesOf(m)`pseudoElements
      reads NodesOf(m)`contentDocument, NodesOf(m)`templateContent
    {
      id in m ==> m[id] in list || Loose(m, m[id])
    }

    /** What removing the id does to a list of kids of `n`. */
    lemma {:induction false} RemovedFrom(n: Node, list: seq<Node>, id: int)
      requires Valid() && Indexed(nodes, n) && forall c :: c in list ==> c in n.Kids()
      ensures
        if id in nodes && nodes[id] in list then multiset(Removed(list, id)) + multiset{nodes[id]} == multiset(list)
        else Removed(list, id) == list
    {
      hide Node.Kids, Unique;
      NodesAreIndexed(nodes, Known());
      var i := Find(list, id);
      if i >= 0 {
        assert list[i] in list && Indexed(nodes, list[i]);
        assert list == list[..i] + [list[i]] + list[i + 1..];
      }
    }

    /** A loose node may leave the index. */
    lemma {:induction false} LooseMayGo(before: map<int, Node>, n: Node, kids: seq<Node>, x: Node)
      requires Editing(before, n, kids) && multiset(n.Kids()) <= multiset(kids)
      requires Indexed(before, x) && nodes == before - {x.nodeID} && Loose(before, x)
      ensures Valid()
    {
      hide Node.Kids, ForestBut, LinkedBut, LinkedIn, BelowIn;
      assert forall c :: c in n.Kids() ==> multiset(n.Kids())[c] <= multiset(kids)[c];
      Dropped(before, n, kids, x);
    }

    /** A node that is the root or that some indexed node lists may not. */
    lemma {:induction false} OthersMayNot(before: map<int, Node>, n: Node, kids: seq<Node>, x: Node)
      requires Editing(before, n, kids) && multiset(n.Kids()) <= multiset(kids)
      requires Indexed(before, x) && nodes == before - {x.nodeID} && !Loose(before, x)
      ensures !Valid()
    {
      hide Node.Kids;
      NodesAreIndexed(before, NodesOf(before));
      assert forall c :: c in n.Kids() ==> multiset(n.Kids())[c] <= multiset(kids)[c];
      if x != root {
        var y :| y in NodesOf(before) && x in y.Kids();
        assert y != n ==> y in NodesOf(before) - {n};
        assert y != x && Indexed(nodes, y) && y in Known() && !Indexed(nodes, x);
      }
    }

    /** A kid that left the list of `n` is loose. */
    lemma {:induction false} Unlisted(before: map<int, Node>, n: Node, kids: seq<Node>, x: Node)
      requires Editing(before, n, kids) && x in kids && multiset(n.Kids()) + multiset{x} == multiset(kids)
      ensures Loose(before, x)
    {
      hide Node.Kids;
      assert multiset(n.Kids())[x] == 0;
      forall y | y in NodesOf(before)
        ensures x !in y.Kids()
      {
        assert y != n ==> y in NodesOf(before) - {n};
      }
    }

    /** The list of `n` lost the node with the id if it was there, and is the same otherwise. */
    ghost predicate Cut(m: map<int, Node>, n: Node, kids: seq<Node>, id: int, listed: bool)
      reads n`children, n`shadowRoots, n`pseudoElements, n`contentDocument, n`templateContent
    {
      if listed then id in m && m[id] in kids && multiset(n.Kids()) + multiset{m[id]} == multiset(kids)
      else n.Kids() == kids
    }

    /** The frame after a removal. */
    lemma {:induction false} AfterRemoval(before: map<int, Node>, n: Node, kids: seq<Node>, id: int, listed: bool)
      requires Editing(before, n, kids) && nodes == before - {id}
      requires Cut(before, n, kids, id, listed)
      ensures Valid() <==> (id in before ==> listed || Loose(before, before[id]))
    {
      hide Node.Kids, ForestBut, LinkedBut, LinkedIn, BelowIn;
      if id !in before {
        assert nodes == before;
        Shortened(before, n, kids);
      } else {
        var x := before[id];
        if listed {
          Unlisted(before, n, kids, x);
        }
        if Loose(before, x) {
          LooseMayGo(before, n, kids, x);
        } else {
          OthersMayNot(before, n, kids, x);
        }
      }
    }

    method CutChild(n: Node, id: int)
      requires Valid() && Indexed(nodes, n)
      modifies n`children
      ensures n.children == Removed(old(n.children), id)
      ensures Editing(nodes, n, old(n.Kids())) && n in NodesOf(nodes)
      ensures Cut(nodes, n, old(n.Kids()), id, id in nodes && nodes[id] in old(n.children))
      ensures !(id in nodes && nodes[id] in old(n.children)) ==> n.children == old(n.children)
    {
      hide Valid, Node.Kids, Editing, Removed;
      ghost var kids, s := n.Kids(), Singles(n);
      ghost var a, b, e := multiset(n.children), multiset(n.shadowRoots), multiset(n.pseudoElements);
      BeginEdit(n);
      KidsCount(n);
      RemovedFrom(n, n.children, id);
      ghost var listed := id in nodes && nodes[id] in n.children;
      var left := RemoveNode(n.children, id);
      SetChildren(n, left, kids);
      if listed {
        KidsCount(n);
        OneMore(multiset(n.Kids()), multiset(kids), multiset(n.children), a, multiset(n.shadowRoots), b,
                multiset(n.pseudoElements), e, s, nodes[id]);
      }
    }

    /** Deletes the id from the index, whether or not it named a child of `n`. */
    method ChildNodeRemoved(n: Node, id: int)
      requires Valid() && Indexed(nodes, n)
      modifies this`nodes, n`children
      ensures n.children == Removed(old(n.children), id) && nodes == old(nodes) - {id}
      ensures Valid() <==> old(Removable(nodes, n.children, id))
    {
      hide Valid, Node.Kids, Editing, Loose, Cut, Removed;
      CutChild(n, id);
      nodes := nodes - {id};
      AfterRemoval(old(nodes), n, old(n.Kids()), id, id in old(nodes) && old(nodes)[id] in old(n.children));
    }

    method CutShadowRoot(n: Node, id: int)
      requires Valid() && Indexed(nodes, n)
      modifies n`shadowRoots
      ensures n.shadowRoots == Removed(old(n.shadowRoots), id)
      ensures Editing(nodes, n, old(n.Kids())) && n in NodesOf(nodes)
      ensures Cut(nodes, n, old(n.Kids()), id, id in nodes && nodes[id] in old(n.shadowRoots))
      ensures !(id in nodes && nodes[id] in old(n.shadowRoots)) ==> n.shadowRoots == old(n.shadowRoots)
    {
      hide Valid, Node.Kids, Editing, Removed;
      ghost var kids, s := n.Kids(), Singles(n);
      ghost var a, b, e := multiset(n.children), multiset(n.shadowRoots), multiset(n.pseudoElements);
      BeginEdit(n);
      KidsCount(n);
      RemovedFrom(n, n.shadowRoots, id);
      ghost var listed := id in nodes && nodes[id] in n.shadowRoots;
      var left := RemoveNode(n.shadowRoots, id);
      SetShadowRoots(n, left, kids);
      if listed {
        KidsCount(n);
        OneMore(multiset(n.Kids()), multiset(kids), multiset(n.children), a, multiset(n.shadowRoots), b,
                multiset(n.pseudoElements), e, s, nodes[id]);
      }
    }

    method ShadowRootPopped(n: Node, id: int)
      requires Valid() && Indexed(nodes, n)
      modifies this`nodes, n`shadowRoots
      ensures n.shadowRoots == Removed(old(n.shadowRoots), id) && nodes == old(nodes) - {id}
      ensures Valid() <==> old(Removable(nodes, n.shadowRoots, id))
    {
      hide Valid, Node.Kids, Editing, Loose, Cut, Removed;
      CutShadowRoot(n, id);
      nodes := nodes - {id};
      AfterRemoval(old(nodes), n, old(n.Kids()), id, id in old(nodes) && old(nodes)[id] in old(n.shadowRoots));
    }

    method CutPseudoElement(n: Node, id: int)
      requires Valid() && Indexed(nodes, n)
      modifies n`pseudoElements
      ensures n.pseudoElements == Removed(old(n.pseudoElements), id)
      ensures Editing(nodes, n, old(n.Kids())) && n in NodesOf(nodes)
      ensures Cut(nodes, n, old(n.Kids()), id, id in nodes && nodes[id] in old(n.pseudoElements))
      ensures !(id in nodes && nodes[id] in old(n.pseudoElements)) ==> n.pseudoElements == old(n.pseudoElements)
    {
      hide Valid, Node.Kids, Editing, Removed;
      ghost var kids, s := n.Kids(), Singles(n);
      ghost var a, b, e := multiset(n.children), multiset(n.shadowRoots), multiset(n.pseudoElements);
      BeginEdit(n);
      KidsCount(n);
      RemovedFrom(n, n.pseudoElements, id);
      ghost var listed := id in nodes && nodes[id] in n.pseudoElements;
      var left := RemoveNode(n.pseudoElements, id);
      SetPseudoElements(n, left, kids);
      if listed {
        KidsCount(n);
        OneMore(multiset(n.Kids()), multiset(kids), multiset(n.children), a, multiset(n.shadowRoots), b,
                multiset(n.pseudoElements), e, s, nodes[id]);
      }
    }

    method PseudoElementRemoved(n: Node, id: int)
      requires Valid() && Indexed(nodes, n)
      modifies this`nodes, n`pseudoElements
      ensures n.pseudoElements == Removed(old(n.pseudoElements), id) && nodes == old(nodes) - {id}
      ensures Valid() <==> old(Removable(nodes, n.pseudoElements, id))
    {
      hide Valid, Node.Kids, Editing, Loose, Cut, Removed;
      CutPseudoElement(n, id);
      nodes := nodes - {id};
      AfterRemoval(old(nodes), n, old(n.Kids()), id, id in old(nodes) && old(nodes)[id] in old(n.pseudoElements));
    }

    // ---------- events that touch one node ----------

    method AttributeModified(n: Node, name: string, value: string)
      requires Valid() && Indexed(nodes, n) && Attributes.Flat(n.attributes)
      modifies n`attributes
      ensures Valid() && Attributes.Flat(n.attributes)
      ensures n.attributes == Attributes.WithAttribute(old(n.attributes), name, value)
      ensures Attributes.AsMap(n.attributes) == Attributes.AsMap(old(n.attributes))[name := value]
    {
      NodesAreIndexed(nodes, Known());
      hide Closed;
      Attributes.Modified(n.attributes, name, value);
      var a := Attributes.Modify(n.attributes, name, value);
      n.attributes := a;
    }

    method AttributeRemoved(n: Node, name: string)
      requires Valid() && Indexed(nodes, n) && Attributes.Flat(n.attributes)
      modifies n`attributes
      ensures Valid() && Attributes.Flat(n.attributes)
      ensures n.attributes == Attributes.WithoutAttribute(old(n.attributes), name)
      ensures Attributes.AsMap(n.attributes) == Attributes.AsMap(old(n.attributes)) - {name}
    {
      NodesAreIndexed(nodes, Known());
      hide Closed;
      Attributes.Removed(n.attributes, name);
      var a := Attributes.Remove(n.attributes, name);
      n.attributes := a;
    }

    // ---------- a new document ----------

    /**
    Closes the channel of the old document and asks for the new one.  When the answer
    is an error there is no root and no index until the next document, so the channel
    of a document is never closed again.
    */
    method DocumentUpdated(reply: Reply, ghost P: set<Node>)
      requires Valid()
      requires reply.Document? ==> Forest(P) && reply.root in P && reply.root.up == null
      modifies this, P`parent, P`invalidated
      modifies if root == null || root.invalidated == null then {} else {root.invalidated}
      ensures Valid()
      ensures old(root) != null ==> old(root.invalidated) != null && old(root.invalidated).closed
      ensures root == if reply.Document? then reply.root else null
      ensures root != null ==> root.invalidated != null && fresh(root.invalidated) && Known() <= P
      ensures root == null ==> nodes == map[]
    {
      hide Closed, Forest;
      NothingIndexed();
      if root != null {
        root.invalidated.Close();
      }
      nodes := map[];
      if !reply.Document? {
        root := null;
        return;
      }
      root := reply.root;
      root.invalidated := new Channel();
      WalkDocument(P);
    }

    /** Indexes a new document. */
    method WalkDocument(ghost P: set<Node>)
      requires root != null && Forest(P) && root in P && root.up == null && nodes == map[]
      requires root.invalidated != null && !root.invalidated.closed
      modifies this`nodes, P`parent, P`invalidated
      ensures Valid() && Known() <= P && root.invalidated == old(root.invalidated)
    {
      hide Forest, Keyed, Linked, Complete, Node.Kids, Unique;
      ghost var bound := DepthBound(P);
      EmptyIndex(P, root);
      Walk(root, P, {}, bound);
      ClosedWithin(nodes, P);
    }

    // ---------- the dispatcher ----------

    /**
    What the browser promises of an event: payload nodes are new, with ids the index
    does not hold; a removal names a child of its parent (or an id that does not
    matter any more); attribute lists are name and value pairs.
    */
    ghost predicate Admissible(ev: Event, P: set<Node>)
      reads this, Known(), P
    {
      match ev
      case DocumentUpdated(reply) => reply.Document? ==> Forest(P) && reply.root in P && reply.root.up == null
      case SetChildNodes(id, ns) => id in nodes ==> Acceptable(P, ns)
      case ChildNodeInserted(id, _, c) => id in nodes ==> Acceptable(P, [c])
      case ShadowRootPushed(id, c) => id in nodes ==> Acceptable(P, [c])
      case PseudoElementAdded(id, c) => id in nodes ==> Acceptable(P, [c])
      case ChildNodeRemoved(id, child) => id in nodes ==> Removable(nodes, nodes[id].children, child)
      case ShadowRootPopped(id, child) => id in nodes ==> Removable(nodes, nodes[id].shadowRoots, child)
      case PseudoElementRemoved(id, child) => id in nodes ==> Removable(nodes, nodes[id].pseudoElements, child)
      case AttributeModified(id, _, _) => id in nodes ==> Attributes.Flat(nodes[id].attributes)
      case AttributeRemoved(id, _) => id in nodes ==> Attributes.Flat(nodes[id].attributes)
      case _ => true
    }

    /**
    Handles one event; an event for an id that is not in the index is ignored.  The lists
    and attributes of the node become what the event says, those of the other known nodes
    stay, and only a removal takes an id out of the index.
    */
    method DomEvent(ev: Event, ghost P: set<Node>)
      requires Valid() && Admissible(ev, P)
      modifies this, Known(), P, if root == null || root.invalidated == null then {} else {root.invalidated}
      ensures Valid()
      ensures ev.DocumentUpdated? ==> root == if ev.reply.Document? then ev.reply.root else null
      ensures !ev.DocumentUpdated? && ev.id !in old(nodes) ==> nodes == old(nodes)
      ensures !ev.DocumentUpdated? ==> root == old(root)
      ensures !ev.DocumentUpdated? && ev.id in old(nodes) ==>
        var n := old(nodes)[ev.id];
        && n.children == ChildrenAfter(ev, old(n.children))
        && n.shadowRoots == ShadowRootsAfter(ev, old(n.shadowRoots))
        && n.pseudoElements == PseudoElementsAfter(ev, old(n.pseudoElements))
        && (if ev.IsRemoval() then nodes == old(nodes) - {ev.child} else Grown(old(nodes), nodes, old(Known())))
      ensures !ev.DocumentUpdated? && ev.id in old(nodes) ==>
        var n := old(nodes)[ev.id];
        && (ev.AttributeModified? ==> n.attributes == Attributes.WithAttribute(old(n.attributes), ev.name, ev.value))
        && (ev.AttributeRemoved? ==> n.attributes == Attributes.WithoutAttribute(old(n.attributes), ev.name))
        && (!ev.AttributeModified? && !ev.AttributeRemoved? ==> n.attributes == old(n.attributes))
        && n.value == (if ev.CharacterDataModified? then ev.data else old(n.value))
        && n.childNodeCount == (if ev.ChildNodeCountUpdated? then ev.count else old(n.childNodeCount))
      ensures !ev.DocumentUpdated? ==> forall x :: x in old(Known()) && x.nodeID != ev.id ==>
        x.children == old(x.children) && x.shadowRoots == old(x.shadowRoots)
        && x.pseudoElements == old(x.pseudoElements) && x.attributes == old(x.attributes)
        && x.value == old(x.value) && x.childNodeCount == old(x.childNodeCount)
      ensures !ev.DocumentUpdated? ==> forall x :: x in old(Known()) ==>
        x.parent == old(x.parent) && x.invalidated == old(x.invalidated)
        && x.contentDocument == old(x.contentDocument) && x.templateContent == old(x.templateContent)
      ensures forall x :: x in P && x !in old(Known()) ==>
        x.children == old(x.children) && x.attributes == old(x.attributes) && x.value == old(x.value)
    {
      hide Closed, RootOpen, Acceptable, Removable, Forest, Valid, Grown, Inserted, Removed, Loose, Editing, Waiting;
      hide Attributes.WithAttribute, Attributes.WithoutAttribute, Attributes.Flat, Node.Kids, Linked, Keyed, Complete;
      if ev.DocumentUpdated? {
        DocumentUpdated(ev.reply, P);
        return;
      }
      if ev.id !in nodes {
        return;
      }
      var n := nodes[ev.id];
      Looked(ev.id);
      match ev
      case SetChildNodes(_, ns) => SetChildNodes(n, ns, P);
      case ChildNodeInserted(_, prevID, c) => ChildNodeInserted(n, prevID, c, P);
      case ShadowRootPushed(_, c) => ShadowRootPushed(n, c, P);
      case PseudoElementAdded(_, c) => PseudoElementAdded(n, c, P);
      case ChildNodeRemoved(_, child) => ChildNodeRemoved(n, child);
      case ShadowRootPopped(_, child) => ShadowRootPopped(n, child);
      case PseudoElementRemoved(_, child) => PseudoElementRemoved(n, child);
      case AttributeModified(_, name, value) => AttributeModified(n, name, value);
      case AttributeRemoved(_, name) => AttributeRemoved(n, name);
      case CharacterDataModified(_, data) => n.value := data;
      case ChildNodeCountUpdated(_, count) => n.childNodeCount := count;
    }

    lemma {:induction false} Looked(id: int)
      requires Valid() && id in nodes
      ensures Indexed(nodes, nodes[id]) && nodes[id].nodeID == id && nodes[id] in Known()
      ensures Grown(nodes, nodes, Known())
    {
    }
  }

  /** The DOM events; those that only touch fields outside the tree are two of several alike. */
  datatype Event =
    | DocumentUpdated(reply: Reply)
    | SetChildNodes(id: int, ns: seq<Node>)
    | ChildNodeInserted(id: int, prevID: int, node: Node)
    | ChildNodeRemoved(id: int, child: int)
    | ShadowRootPushed(id: int, node: Node)
    | ShadowRootPopped(id: int, child: int)
    | PseudoElementAdded(id: int, node: Node)
    | PseudoElementRemoved(id: int, child: int)
    | AttributeModified(id: int, name: string, value: string)
    | AttributeRemoved(id: int, name: string)
    | CharacterDataModified(id: int, data: string)
    | ChildNodeCountUpdated(id: int, count: int)
  {
    predicate IsRemoval() { ChildNodeRemoved? || ShadowRootPopped? || PseudoElementRemoved? }
  }

  function ChildrenAfter(ev: Event, children: seq<Node>): seq<Node> {
    match ev
    case SetChildNodes(_, ns) => ns
    case ChildNodeInserted(_, prevID, c) => Inserted(children, prevID, c)
    case ChildNodeRemoved(_, child) => Removed(children, child)
    case _ => children
  }

  function ShadowRootsAfter(ev: Event, shadowRoots: seq<Node>): seq<Node> {
    match ev
    case ShadowRootPushed(_, c) => shadowRoots + [c]
    case ShadowRootPopped(_, child) => Removed(shadowRoots, child)
    case _ => shadowRoots
  }

  function PseudoElementsAfter(ev: Event, pseudoElements: seq<Node>): seq<Node> {
    match ev
    case PseudoElementAdded(_, c) => pseudoElements + [c]
    case PseudoElementRemoved(_, child) => Removed(pseudoElements, child)
    case _ => pseudoElements
  }

  /** What `DOM.getDocument` answers. */
  datatype Reply = Document(root: Node) | Failed

  lemma {:induction false} NothingIndexed()
    ensures Closed(map[], NodesOf(map[]))
  {
  }

  lemma {:induction false} EmptyIndex(P: set<Node>, root: Node)
    requires Forest(P) && root in P && root.up == null
    ensures Keyed(map[], P) && Linked(map[], P) && Complete(map[], P, {} + {root})
    ensures forall x :: x in P ==> root !in x.Kids()
  {
    hide Node.Kids, Unique;
  }

  // ---------- what the invariant means for the tree ----------

  /** Going down the tree from the root. */
  ghost predicate IsPath(f: Frame, p: seq<Node>)
    reads f, p
  {
    && p != []
    && if |p| == 1 then p[0] == f.root else p[|p| - 1] in p[|p| - 2].Kids() && IsPath(f, p[..|p| - 1])
  }

  /** Every node of the live tree is indexed under its id, knows its parent, and shares the root's channel. */
  lemma {:induction false} TreeIsCovered(f: Frame, p: seq<Node>)
    requires f.Valid() && IsPath(f, p)
    ensures
      var x := p[|p| - 1];
      && Indexed(f.nodes, x) && f.root != null
      && x.invalidated == f.root.invalidated
      && (|p| > 1 ==> x.parent == p[|p| - 2] && x.up == p[|p| - 2])
    decreases |p|
  {
    hide Node.Kids, Unique;
    NodesAreIndexed(f.nodes, f.Known());
    if |p| > 1 {
      TreeIsCovered(f, p[..|p| - 1]);
    }
  }

  /** Paths that end at nodes of one id end at the same node. */
  lemma {:induction false} IdsAreUnique(f: Frame, p: seq<Node>, q: seq<Node>)
    requires f.Valid() && IsPath(f, p) && IsPath(f, q) && p[|p| - 1].nodeID == q[|q| - 1].nodeID
    ensures p[|p| - 1] == q[|q| - 1]
  {
    TreeIsCovered(f, p);
    TreeIsCovered(f, q);
  }

  /** Going down from `c`. */
  ghost predicate IsBelow(c: Node, d: seq<Node>)
    reads d
  {
    && d != []
    && if |d| == 1 then d[0] == c else d[|d| - 1] in d[|d| - 2].Kids() && IsBelow(c, d[..|d| - 1])
  }

  /** The same by the ghost links upwards, which no removal touches. */
  ghost predicate ChainBelow(c: Node, d: seq<Node>)
    reads d
  {
    && d != []
    && if |d| == 1 then d[0] == c else d[|d| - 1].up == d[|d| - 2] && ChainBelow(c, d[..|d| - 1])
  }

  /** All nodes below a removed child stay in the index ... */
  lemma {:induction false} OrphanStays(m: map<int, Node>, c: Node, d: seq<Node>)
    requires Closed(m, NodesOf(m)) && Indexed(m, c) && IsBelow(c, d)
    ensures
      var g := d[|d| - 1];
      && Indexed(m, g) && ChainBelow(c, d) && c.depth <= g.depth
      && (|d| > 1 ==> Indexed(m - {c.nodeID}, g) && c.depth < g.depth)
    decreases |d|
  {
    hide Node.Kids, Unique;
    NodesAreIndexed(m, NodesOf(m));
    if |d| > 1 {
      OrphanStays(m, c, d[..|d| - 1]);
      assert d[|d| - 1] in NodesOf(m) && c in NodesOf(m);
    }
  }

  /** ... although no path from the root leads to any of them: the index may be larger than the tree. */
  lemma {:induction false} OrphanIsUnreachable(f: Frame, c: Node, d: seq<Node>, p: seq<Node>)
    requires f.Valid() && IsPath(f, p) && ChainBelow(c, d) && !Indexed(f.nodes, c)
    ensures p[|p| - 1] != d[|d| - 1]
    decreases |d|
  {
    hide Node.Kids, Unique;
    TreeIsCovered(f, p);
    if |d| > 1 {
      var above := d[..|d| - 1];
      RootHasNoParent(f);
      if |p| > 1 {
        OrphanIsUnreachable(f, c, above, p[..|p| - 1]);
      }
    }
  }

  lemma {:induction false} RootHasNoParent(f: Frame)
    requires f.Valid()
    ensures f.root != null ==> f.root.up == null
  {
  }
}
