/** The doubly linked list of children below a JSON node, kept in step with a sequence of nodes. */
module JsonList {

  /** What a node holds besides its links: type, number, text and name. */
  datatype Payload = Payload(kind: int, valueint: int, valuedouble: real, valuestring: string, name: string)

  // ----- lists of nodes -----

  /** The node at a position; nothing outside the list. */
  function Get(list: seq<Node>, i: int): Node? {
    if 0 <= i < |list| then list[i] else null
  }

  predicate Distinct(list: seq<Node>) {
    forall i, j | 0 <= i < j < |list| :: list[i] != list[j]
  }

  /** The nodes one place to the right of each node, and one place to the left. */
  function Right(list: seq<Node>): (r: seq<Node?>)
    ensures |r| == |list|
  {
    seq(|list|, i requires 0 <= i < |list| => Get(list, i + 1))
  }

  function Left(list: seq<Node>): (r: seq<Node?>)
    ensures |r| == |list|
  {
    seq(|list|, i requires 0 <= i < |list| => Get(list, i - 1))
  }

  ghost function Nexts(list: seq<Node>): (r: seq<Node?>)
    reads list
    ensures |r| == |list|
  {
    seq(|list|, i requires 0 <= i < |list| reads list => list[i].next)
  }

  ghost function Prevs(list: seq<Node>): (r: seq<Node?>)
    reads list
    ensures |r| == |list|
  {
    seq(|list|, i requires 0 <= i < |list| reads list => list[i].prev)
  }

  /** Neighbours point at each other, the ends at nothing, and no node occurs twice. */
  ghost predicate Linked(list: seq<Node>)
    reads list
  {
    Distinct(list) && Nexts(list) == Right(list) && Prevs(list) == Left(list)
  }

  ghost function NodeSet(list: seq<Node>): set<Node> { set n | n in list }

  /** A negative index counts as zero. */
  function Clamp(which: int): nat { if which < 0 then 0 else which }

  // ----- nodes -----

  class Node {
    var next: Node?
    var prev: Node?
    var child: Node?
    var payload: Payload

    constructor (payload: Payload)
      ensures next == null && prev == null && child == null && this.payload == payload
    {
      next, prev, child := null, null, null;
      this.payload := payload;
    }

    method SetNext(n: Node?, ghost list: seq<Node>, ghost j: nat)
      requires Distinct(list) && j < |list| && list[j] == this
      modifies this`next
      ensures next == n && Nexts(list) == old(Nexts(list))[j := n] && Prevs(list) == old(Prevs(list))
    {
      next := n;
    }

    method SetPrev(n: Node?, ghost list: seq<Node>, ghost j: nat)
      requires Distinct(list) && j < |list| && list[j] == this
      modifies this`prev
      ensures prev == n && Prevs(list) == old(Prevs(list))[j := n] && Nexts(list) == old(Nexts(list))
    {
      prev := n;
    }

    /** The children of this node are `list`, in order. */
    ghost predicate Children(list: seq<Node>)
      reads this, list
    {
      child == Get(list, 0) && Linked(list)
    }

    /** Walks `which` links along the children, as far as there are any. */
    method Walk(which: int, ghost list: seq<Node>) returns (c: Node?)
      requires Children(list)
      ensures c == Get(list, Clamp(which))
      ensures which <= 0 ==> c == Get(list, 0)
      ensures which >= 0 ==> c == Get(list, which)
    {
      hide Nexts, Prevs, Right, Left, Distinct;
      c := child;
      var left := which;
      ghost var i := 0;
      while c != null && left > 0
        invariant 0 <= i <= |list| && c == Get(list, i)
        invariant left > 0 || i == Clamp(which)
        invariant left > 0 ==> left + i == which
        decreases |list| - i
      {
        LinksAt(list, i);
        c, left, i := c.next, left - 1, i + 1;
      }
    }

    /** The last child. */
    method Last(ghost list: seq<Node>) returns (c: Node)
      requires Children(list) && list != []
      ensures c == list[|list| - 1]
    {
      hide Nexts, Prevs, Right, Left, Distinct;
      c := child;
      ghost var i := 0;
      while c.next != null
        invariant 0 <= i < |list| && c == list[i]
        decreases |list| - i
      {
        LinksAt(list, i);
        c, i := c.next, i + 1;
      }
      LinksAt(list, i);
    }

    /** `cJSON_AddItemToArray`. */
    method Append(item: Node, ghost list: seq<Node>)
      requires Children(list) && item !in list && item.next == null && (list == [] ==> item.prev == null)
      modifies this`child, item`prev, NodeSet(list)`next
      ensures Children(list + [item])
    {
      hide Nexts, Prevs, Right, Left, Distinct;
      if child == null {
        NoLinks(list);
        child := item;
      } else {
        var c := Last(list);
        c.SetNext(item, list, |list| - 1);
        item.prev := c;
      }
      AppendedLinks(list, item);
    }

    /** `cJSON_InsertItemInArray`: in front of the child with that index, at the end if there is none. */
    method Insert(which: int, item: Node, ghost list: seq<Node>)
      requires Children(list) && this !in list && item !in list
      requires Clamp(which) >= |list| ==> item.next == null && (list == [] ==> item.prev == null)
      modifies this`child, item`prev, item`next, NodeSet(list)`next, NodeSet(list)`prev
      ensures var k := if Clamp(which) < |list| then Clamp(which) else |list|;
              Children(list[..k] + [item] + list[k..])
    {
      hide Nexts, Prevs, Right, Left, Distinct;
      var c := Walk(which, list);
      if c == null {
        Append(item, list);
        assert list[..|list|] + [item] + list[|list|..] == list + [item];
        return;
      }
      ghost var k := Clamp(which);
      LinksAt(list, k);
      item.next := c;
      item.prev := c.prev;
      SameLinks(list);
      c.SetPrev(item, list, k);
      if c == child {
        child := item;
      } else {
        item.prev.SetNext(item, list, k - 1);
      }
      InsertedLinks(list, k, item);
    }

    /** `cJSON_DetachItemFromArray`: takes the child with that index out, if there is one. */
    method Detach(which: int, ghost list: seq<Node>) returns (c: Node?)
      requires Children(list) && this !in list
      modifies this`child, NodeSet(list)`next, NodeSet(list)`prev
      ensures var k := Clamp(which);
              if k < |list| then c == list[k] && c.next == null && c.prev == null && Children(list[..k] + list[k + 1..])
              else c == null && Children(list)
    {
      hide Nexts, Prevs, Right, Left, Distinct;
      c := Walk(which, list);
      if c == null { return; }
      ghost var k := Clamp(which);
      LinksAt(list, k);
      if c.prev != null { c.prev.SetNext(c.next, list, k - 1); }
      if c.next != null { c.next.SetPrev(c.prev, list, k + 1); }
      if c == child { child := c.next; }
      c.SetPrev(null, list, k);
      c.SetNext(null, list, k);
      RemovedLinks(list, k);
    }

    /** `cJSON_ReplaceItemInArray`: the new item takes the place; without such a child nothing happens. */
    method Replace(which: int, item: Node, ghost list: seq<Node>)
      requires Children(list) && this !in list && item !in list
      modifies this`child, item`prev, item`next, NodeSet(list)`next, NodeSet(list)`prev
      ensures var k := Clamp(which);
              if k < |list| then Children(list[k := item]) && list[k].next == null && list[k].prev == null
              else Children(list) && item.next == old(item.next) && item.prev == old(item.prev)
    {
      hide Nexts, Prevs, Right, Left, Distinct;
      var c := Walk(which, list);
      if c == null { return; }
      ghost var k := Clamp(which);
      LinksAt(list, k);
      item.next := c.next;
      item.prev := c.prev;
      SameLinks(list);
      if item.next != null { item.next.SetPrev(item, list, k + 1); }
      if c == child {
        child := item;
      } else {
        item.prev.SetNext(item, list, k - 1);
      }
      c.SetNext(null, list, k);
      c.SetPrev(null, list, k);
      ReplacedLinks(list, k, item);
    }
  }

  // ----- links after a change -----

  /** The neighbours of the node at `k`. */
  lemma LinksAt(list: seq<Node>, k: nat)
    requires Linked(list) && k < |list|
    ensures list[k].next == Get(list, k + 1) && list[k].prev == Get(list, k - 1)
    ensures list[0] == list[k] <==> k == 0
  {
    assert Nexts(list)[k] == list[k].next && Prevs(list)[k] == list[k].prev;
  }

  /** Changing other nodes does not change the links of the list. */
  twostate lemma SameLinks(list: seq<Node>)
    requires forall n | n in list :: n.next == old(n.next) && n.prev == old(n.prev)
    ensures Nexts(list) == old(Nexts(list)) && Prevs(list) == old(Prevs(list))
  {
  }

  lemma NoLinks(list: seq<Node>)
    requires list == []
    ensures Nexts(list) == [] && Prevs(list) == [] && Left(list) == []
  {
  }

  /** Links given by position are the links of the list. */
  lemma LinkedBy(l: seq<Node>)
    requires Distinct(l)
    requires forall i | 0 <= i < |l| :: Nexts(l)[i] == Get(l, i + 1) && Prevs(l)[i] == Get(l, i - 1)
    ensures Linked(l)
  {
  }

  lemma AppendedLinks(list: seq<Node>, item: Node)
    requires Distinct(list) && item !in list && item.next == null && item.prev == Get(list, |list| - 1)
    requires Prevs(list) == Left(list)
    requires Nexts(list) == if list == [] then [] else Right(list)[|list| - 1 := item]
    ensures Linked(list + [item])
  {
    var l := list + [item];
    forall i | 0 <= i < |l|
      ensures Nexts(l)[i] == Get(l, i + 1) && Prevs(l)[i] == Get(l, i - 1)
    {
      if i < |list| { assert Nexts(l)[i] == Nexts(list)[i] && Prevs(l)[i] == Prevs(list)[i]; }
    }
    LinkedBy(l);
  }

  lemma InsertedLinks(list: seq<Node>, k: nat, item: Node)
    requires k < |list| && item !in list && Distinct(list)
    requires item.next == list[k] && item.prev == Get(list, k - 1)
    requires Prevs(list) == Left(list)[k := item]
    requires Nexts(list) == if k == 0 then Right(list) else Right(list)[k - 1 := item]
    ensures Linked(list[..k] + [item] + list[k..])
  {
    hide Distinct, Linked;
    var l := list[..k] + [item] + list[k..];
    forall i | 0 <= i < |l|
      ensures Nexts(l)[i] == Get(l, i + 1) && Prevs(l)[i] == Get(l, i - 1)
    {
      if i < k {
        assert Nexts(l)[i] == Nexts(list)[i] && Prevs(l)[i] == Prevs(list)[i];
      } else if i > k {
        assert Nexts(l)[i] == Nexts(list)[i - 1] && Prevs(l)[i] == Prevs(list)[i - 1];
      }
    }
    InsertedDistinct(list, k, item);
    LinkedBy(l);
  }

  lemma InsertedDistinct(list: seq<Node>, k: nat, item: Node)
    requires k <= |list| && item !in list && Distinct(list)
    ensures Distinct(list[..k] + [item] + list[k..])
  {
    var l := list[..k] + [item] + list[k..];
    assert forall i | 0 <= i < |l| :: l[i] == if i < k then list[i] else if i == k then item else list[i - 1];
  }

  lemma RemovedLinks(list: seq<Node>, k: nat)
    requires k < |list| && Distinct(list)
    requires Nexts(list) == (if k == 0 then Right(list) else Right(list)[k - 1 := Get(list, k + 1)])[k := null]
    requires Prevs(list) == (if k + 1 == |list| then Left(list) else Left(list)[k + 1 := Get(list, k - 1)])[k := null]
    ensures Linked(list[..k] + list[k + 1..])
  {
    var l := list[..k] + list[k + 1..];
    forall i | 0 <= i < |l|
      ensures Nexts(l)[i] == Get(l, i + 1) && Prevs(l)[i] == Get(l, i - 1)
    {
      if i < k {
        assert Nexts(l)[i] == Nexts(list)[i] && Prevs(l)[i] == Prevs(list)[i];
      } else {
        assert Nexts(l)[i] == Nexts(list)[i + 1] && Prevs(l)[i] == Prevs(list)[i + 1];
      }
    }
    LinkedBy(l);
  }

  lemma ReplacedLinks(list: seq<Node>, k: nat, item: Node)
    requires k < |list| && item !in list && Distinct(list)
    requires item.next == Get(list, k + 1) && item.prev == Get(list, k - 1)
    requires Nexts(list) == (if k == 0 then Right(list) else Right(list)[k - 1 := item])[k := null]
    requires Prevs(list) == (if k + 1 == |list| then Left(list) else Left(list)[k + 1 := item])[k := null]
    ensures Linked(list[k := item])
  {
    var l := list[k := item];
    forall i | 0 <= i < |l|
      ensures Nexts(l)[i] == Get(l, i + 1) && Prevs(l)[i] == Get(l, i - 1)
    {
      if i != k { assert Nexts(l)[i] == Nexts(list)[i] && Prevs(l)[i] == Prevs(list)[i]; }
    }
    LinkedBy(l);
  }
}
