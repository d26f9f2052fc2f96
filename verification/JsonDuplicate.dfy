/** `cJSON_Duplicate` with recursion: an equal tree made of new nodes. */
module JsonDuplicate {
  import opened JsonList

  /** The contents of a tree of nodes. */
  datatype Tree = Tree(payload: Payload, children: seq<Tree>)

  /** Which nodes make up a tree, and how. */
  datatype Shape = Shape(node: Node, kids: seq<Shape>)

  function Nodes(sh: Shape): (s: set<Node>)
    ensures sh.node in s
  {
    {sh.node} + Below(sh.kids)
  }

  /** The nodes of all the subtrees. */
  function Below(kids: seq<Shape>): set<Node> {
    if kids == [] then {} else Below(kids[..|kids| - 1]) + Nodes(kids[|kids| - 1])
  }

  /** No node occurs in two places. */
  predicate Proper(sh: Shape) {
    sh.node !in Below(sh.kids) && Apart(sh.kids)
  }

  predicate Apart(kids: seq<Shape>) {
    kids == [] ||
    (var n := |kids| - 1;
     Apart(kids[..n]) && Proper(kids[n]) && Nodes(kids[n]) !! Below(kids[..n]))
  }

  function Root(kids: seq<Shape>, i: int): Node? {
    if 0 <= i < |kids| then kids[i].node else null
  }

  /** The nodes of `sh` hold the tree `t`: payloads, child pointers, and the links between siblings. */
  ghost predicate Holds(sh: Shape, t: Tree)
    reads Nodes(sh)`payload, Nodes(sh)`child, Below(sh.kids)`next, Below(sh.kids)`prev
    decreases t, 1
  {
    sh.node.payload == t.payload && sh.node.child == Root(sh.kids, 0) && HoldAll(sh.kids, t.children, null)
  }

  /** Siblings; `after` is the node to the right of the last one. */
  ghost predicate HoldAll(kids: seq<Shape>, ts: seq<Tree>, after: Node?)
    reads Below(kids)`payload, Below(kids)`child, Below(kids)`next, Below(kids)`prev
    decreases ts, 0
  {
    |kids| == |ts| &&
    (ts == [] ||
     (var n := |kids| - 1;
      var k := kids[n];
      assert k.node in Nodes(k);
      && HoldAll(kids[..n], ts[..n], k.node) && Holds(k, ts[n])
      && k.node.prev == Root(kids, n - 1) && k.node.next == after))
  }

  /** A sibling appended on the right. */
  lemma HoldMore(kids: seq<Shape>, ts: seq<Tree>, k: Shape, t: Tree, after: Node?)
    requires HoldAll(kids, ts, k.node) && Holds(k, t)
    requires k.node.prev == Root(kids, |kids| - 1) && k.node.next == after
    ensures HoldAll(kids + [k], ts + [t], after)
    ensures Below(kids + [k]) == Below(kids) + Nodes(k)
  {
    hide Holds;
    assert (kids + [k])[..|kids|] == kids;
    assert (ts + [t])[..|ts|] == ts;
  }

  lemma ApartMore(kids: seq<Shape>, k: Shape)
    requires Apart(kids) && Proper(k) && Nodes(k) !! Below(kids)
    ensures Apart(kids + [k]) && Below(kids + [k]) == Below(kids) + Nodes(k)
  {
    hide Proper;
    assert (kids + [k])[..|kids|] == kids;
  }

  /** Hanging a node behind the last sibling changes nothing else. */
  method Link(last: Node, n: Node, ghost kids: seq<Shape>, ghost ts: seq<Tree>)
    requires kids != [] && last == kids[|kids| - 1].node && Apart(kids) && HoldAll(kids, ts, null)
    requires n !in Below(kids)
    modifies last`next, n`prev
    ensures HoldAll(kids, ts, n) && n.prev == last && n.next == old(n.next)
  {
    ghost var m := |kids| - 1;
    ghost var k := kids[m];
    assert last in Nodes(k);
    last.next := n;
    n.prev := last;
    assert Holds(k, ts[m]) && HoldAll(kids[..m], ts[..m], k.node);
  }

  /** The child at `i`, and where its `next` leads. */
  lemma {:induction false} KidAt(kids: seq<Shape>, ts: seq<Tree>, after: Node?, i: nat)
    requires HoldAll(kids, ts, after) && i < |kids|
    ensures Holds(kids[i], ts[i])
    ensures kids[i].node.next == if i + 1 < |kids| then kids[i + 1].node else after
    decreases kids
  {
    hide Holds;
    var n := |kids| - 1;
    if i < n { KidAt(kids[..n], ts[..n], kids[n].node, i); }
  }

  lemma Empty()
    ensures Below([]) == {} && Apart([]) && HoldAll([], [], null) && OwnedAll([]) == []
  {
  }

  lemma HoldNone(kids: seq<Shape>, ts: seq<Tree>, after: Node?)
    requires kids == [] && HoldAll(kids, ts, null)
    ensures HoldAll(kids, ts, after)
  {
  }

  /** What holding a tree means at its root, both ways. */
  lemma AtRoot(sh: Shape, t: Tree)
    ensures Holds(sh, t) <==>
            sh.node.payload == t.payload && sh.node.child == Root(sh.kids, 0) && HoldAll(sh.kids, t.children, null)
    ensures HoldAll(sh.kids, t.children, null) ==> |sh.kids| == |t.children|
    ensures Proper(sh) <==> sh.node !in Below(sh.kids) && Apart(sh.kids)
    ensures Nodes(sh) == {sh.node} + Below(sh.kids)
  {
  }

  /** Clears the flag that marks an item as sharing the children of another. */
  function Unflagged(kind: int): int {
    if kind / 256 % 2 == 1 then kind - 256 else kind
  }

  /** The flag is 256: it is cleared, and the type below it and the other flag of 512 are kept. */
  lemma FlagCleared(kind: nat)
    requires kind < 256
    ensures Unflagged(kind) == kind && Unflagged(256 + kind) == kind
    ensures Unflagged(512 + kind) == 512 + kind && Unflagged(768 + kind) == 512 + kind
  {
  }

  /** A tree with that flag cleared everywhere. */
  function Owned(t: Tree): Tree
    decreases t, 1
  {
    Tree(t.payload.(kind := Unflagged(t.payload.kind)), OwnedAll(t.children))
  }

  function OwnedAll(ts: seq<Tree>): seq<Tree>
    decreases ts, 0
  {
    if ts == [] then [] else OwnedAll(ts[..|ts| - 1]) + [Owned(ts[|ts| - 1])]
  }

  lemma OwnedRoot(t: Tree)
    ensures Owned(t) == Tree(t.payload.(kind := Unflagged(t.payload.kind)), OwnedAll(t.children))
  {
  }

  lemma OwnedMore(ts: seq<Tree>, i: nat)
    requires i < |ts|
    ensures OwnedAll(ts[..i + 1]) == OwnedAll(ts[..i]) + [Owned(ts[i])]
  {
    hide Owned;
    assert ts[..i + 1][..i] == ts[..i];
  }

  lemma RootBelow(kids: seq<Shape>)
    requires kids != []
    ensures kids[|kids| - 1].node in Below(kids)
  {
  }

  /** Makes a copied child the last child of the new item. */
  method Attach(newitem: Node, last: Node?, n: Node, ghost kids: seq<Shape>, ghost ts: seq<Tree>,
                ghost k: Shape, ghost t: Tree)
    requires last == Root(kids, |kids| - 1) && newitem.child == Root(kids, 0)
    requires Apart(kids) && HoldAll(kids, ts, null) && Proper(k) && Holds(k, t)
    requires n == k.node && n.next == null && n.prev == null
    requires Nodes(k) !! Below(kids) && newitem !in Nodes(k) && newitem !in Below(kids)
    modifies newitem`child, n`prev, Below(kids)`next
    ensures HoldAll(kids + [k], ts + [t], null) && newitem.child == Root(kids + [k], 0)
    ensures Apart(kids + [k]) && Below(kids + [k]) == Below(kids) + Nodes(k)
    ensures n.next == null
  {
    hide Apart, HoldAll, Below;
    assert n !in Below(k.kids);
    assert HoldAll(k.kids, t.children, null) && allocated(Below(k.kids));
    assert forall o | o in Below(k.kids) :: allocated(o);
    if last != null {
      RootBelow(kids);
      assert last !in Nodes(k);
      Link(last, n, kids, ts);
      assert HoldAll(k.kids, t.children, null);
    } else {
      HoldNone(kids, ts, n);
      newitem.child := n;
    }
    HoldMore(kids, ts, k, t, null);
    ApartMore(kids, k);
  }

  /** `cJSON_Duplicate` on an item that holds `t`. */
  method Duplicate(item: Node, recurse: bool, ghost sh: Shape, ghost t: Tree)
    returns (newitem: Node, ghost copy: Shape)
    requires item == sh.node && Holds(sh, t)
    ensures fresh(Nodes(copy)) && newitem == copy.node && Proper(copy)
    ensures Holds(copy, if recurse then Owned(t) else Owned(t).(children := []))
    ensures newitem.next == null && newitem.prev == null
    decreases t
  {
    hide HoldAll, Holds, Apart, Proper, Below, Nodes, Owned, OwnedAll;
    AtRoot(sh, t);
    assert allocated(Below(sh.kids));
    assert forall n | n in Below(sh.kids) :: allocated(n);
    newitem := new Node(item.payload.(kind := Unflagged(item.payload.kind)));
    ghost var kids: seq<Shape> := [];
    Empty();
    OwnedRoot(t);
    copy := Shape(newitem, kids);
    AtRoot(copy, Owned(t).(children := []));
    if !recurse { return; }
    var cptr := item.child;
    var nptr: Node? := null;
    ghost var i := 0;
    ghost var ts := [];
    while cptr != null
      invariant 0 <= i <= |sh.kids| && cptr == Root(sh.kids, i) && HoldAll(sh.kids, t.children, null)
      invariant ts == OwnedAll(t.children[..i])
      invariant |kids| == i && Apart(kids) && HoldAll(kids, ts, null)
      invariant fresh(Below(kids)) && newitem !in Below(kids) && fresh(newitem)
      invariant nptr == Root(kids, i - 1) && newitem.child == Root(kids, 0)
      invariant newitem.payload == Owned(t).payload && newitem.next == null && newitem.prev == null
      decreases |sh.kids| - i
    {
      KidAt(sh.kids, t.children, null, i);
      assert allocated(Below(kids));
      assert forall n | n in Below(kids) :: allocated(n);
      var newchild, k := Duplicate(cptr, true, sh.kids[i], t.children[i]);
      Attach(newitem, nptr, newchild, kids, ts, k, Owned(t.children[i]));
      KidAt(sh.kids, t.children, null, i);
      OwnedMore(t.children, i);
      kids, ts := kids + [k], ts + [Owned(t.children[i])];
      nptr, cptr, i := newchild, cptr.next, i + 1;
    }
    assert t.children[..i] == t.children;
    copy := Shape(newitem, kids);
    AtRoot(copy, Owned(t));
  }
}
