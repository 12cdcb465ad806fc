/** The doubly linked list of children of an XML node. Some pointers are garbage by design: the last
    child is meaningful only when there is a first one, sibling pointers only when there is a
    parent. `kids` is the ghost sequence of children the pointers stand for. */
module DomList {

  ghost predicate Distinct(s: seq<XMLNode>) {
    forall i, j :: 0 <= i < j < |s| ==> s[i] != s[j]
  }

  /** A child list that was in order is what it was. */
  twostate predicate KeepsList(q: XMLNode)
    reads q, q.kids
  {
    old(q.Linked()) ==> q.kids == old(q.kids) && q.Linked()
  }

  class XMLNode {
    const isDocument: bool
    var parent: XMLNode?
    var firstNode: XMLNode?
    var lastNode: XMLNode?
    var prevSibling: XMLNode?
    var nextSibling: XMLNode?
    ghost var kids: seq<XMLNode>

    constructor (isDocument: bool)
      ensures this.isDocument == isDocument && parent == null && Linked() && kids == []
    {
      this.isDocument := isDocument;
      parent, firstNode, kids := null, null, [];
    }

    /** Child i knows its neighbours. */
    ghost predicate LinkAt(i: nat)
      requires i < |kids|
      reads this, kids
    {
      && kids[i].prevSibling == (if i == 0 then null else kids[i - 1])
      && kids[i].nextSibling == (if i == |kids| - 1 then null else kids[i + 1])
    }

    /** The pointers of this node and of its children spell out exactly `kids`. */
    ghost predicate Linked()
      reads this, kids
    {
      && (firstNode == null <==> kids == [])
      && (kids != [] ==> firstNode == kids[0] && lastNode == kids[|kids| - 1])
      && Distinct(kids)
      && (forall c :: c in kids ==> c.parent == this)
      && forall i :: 0 <= i < |kids| ==> LinkAt(i)
    }

    /** Relinking children of this node, or nodes without a parent, leaves every other child list in order. */
    twostate lemma Undisturbed(touched: seq<XMLNode>)
      requires forall c :: c in touched ==> old(c.parent) == null || old(c.parent) == this
      requires forall q: XMLNode :: q != this && old(allocated(q)) ==>
        q.kids == old(q.kids) && q.firstNode == old(q.firstNode) && q.lastNode == old(q.lastNode)
      requires forall c: XMLNode :: old(allocated(c)) && c !in touched ==>
        c.parent == old(c.parent) && c.prevSibling == old(c.prevSibling) && c.nextSibling == old(c.nextSibling)
      ensures forall q: XMLNode :: q != this && old(allocated(q)) ==> KeepsList(q)
    {
      forall q: XMLNode | q != this && old(allocated(q)) && old(q.Linked()) ensures KeepsList(q) {
        forall i | 0 <= i < |q.kids| ensures q.LinkAt(i) {
          assert old(q.LinkAt(i));
        }
      }
    }

    /** What the pointer writes around a new child k amount to. */
    twostate lemma SplicedIn(k: nat)
      requires old(Linked()) && k <= old(|kids|) && |kids| == old(|kids|) + 1
      requires kids[k] !in old(kids) && kids == old(kids[..k]) + [kids[k]] + old(kids[k..])
      requires firstNode == kids[0] && lastNode == kids[|kids| - 1]
      requires kids[k].parent == this && LinkAt(k)
      requires k > 0 ==> kids[k - 1].nextSibling == kids[k]
      requires k < old(|kids|) ==> kids[k + 1].prevSibling == kids[k]
      requires forall i :: 0 <= i < old(|kids|) ==>
        && old(kids[i]).parent == this
        && (i != k - 1 ==> old(kids[i]).nextSibling == old(kids[i].nextSibling))
        && (i != k ==> old(kids[i]).prevSibling == old(kids[i].prevSibling))
      ensures Linked()
    {
      forall i | 0 <= i < |kids| ensures LinkAt(i) {
        if i < k { assert old(LinkAt(i)); assert kids[i] == old(kids[i]); }
        if i > k { assert old(LinkAt(i - 1)); assert kids[i] == old(kids[i - 1]); }
      }
    }

    method PrependNode(child: XMLNode)
      requires Linked() && child.parent == null && !child.isDocument
      modifies this`firstNode, this`lastNode, this`kids, child`parent, child`prevSibling, child`nextSibling
      modifies kids`prevSibling
      ensures Linked() && kids == [child] + old(kids)
      ensures forall q: XMLNode :: q != this && old(allocated(q)) ==> KeepsList(q)
    {
      hide KeepsList;
      ghost var touched := [child] + kids;
      assert child !in kids;
      if firstNode != null {
        child.nextSibling := firstNode;
        firstNode.prevSibling := child;
      } else {
        child.nextSibling := null;
        lastNode := child;
      }
      firstNode := child;
      child.parent := this;
      child.prevSibling := null;
      kids := [child] + kids;
      SplicedIn(0);
      Undisturbed(touched);
    }

    method AppendNode(child: XMLNode)
      requires Linked() && child.parent == null && !child.isDocument
      modifies this`firstNode, this`lastNode, this`kids, child`parent, child`prevSibling, child`nextSibling
      modifies kids`nextSibling
      ensures Linked() && kids == old(kids) + [child]
      ensures forall q: XMLNode :: q != this && old(allocated(q)) ==> KeepsList(q)
    {
      hide KeepsList;
      ghost var touched := [child] + kids;
      assert child !in kids;
      if firstNode != null {
        child.prevSibling := lastNode;
        lastNode.nextSibling := child;
      } else {
        child.prevSibling := null;
        firstNode := child;
      }
      lastNode := child;
      child.parent := this;
      child.nextSibling := null;
      kids := kids + [child];
      SplicedIn(|kids| - 1);
      Undisturbed(touched);
    }

    /** What the two pointer writes around a child that leaves the middle amount to. */
    twostate lemma SplicedOut(k: nat)
      requires old(Linked()) && 0 < k < old(|kids|) - 1
      requires kids == old(kids[..k]) + old(kids[k + 1..])
      requires firstNode == old(firstNode) && lastNode == old(lastNode)
      requires old(kids[k - 1]).nextSibling == old(kids[k + 1]) && old(kids[k + 1]).prevSibling == old(kids[k - 1])
      requires forall i :: 0 <= i < old(|kids|) && i != k ==>
        && old(kids[i]).parent == this
        && (i != k - 1 ==> old(kids[i]).nextSibling == old(kids[i].nextSibling))
        && (i != k + 1 ==> old(kids[i]).prevSibling == old(kids[i].prevSibling))
      ensures Linked()
    {
      forall i | 0 <= i < |kids| ensures LinkAt(i) {
        if i < k { assert old(LinkAt(i)); assert kids[i] == old(kids[i]); }
        if i >= k { assert old(LinkAt(i + 1)); assert kids[i] == old(kids[i + 1]); }
      }
    }

    /** Inserts the child before `position`, or at the back when there is no position. */
    method InsertNode(position: XMLNode?, child: XMLNode, ghost k: nat)
      requires Linked() && child.parent == null && !child.isDocument
      requires k <= |kids| && (if position == null then k == |kids| else k < |kids| && kids[k] == position)
      modifies this`firstNode, this`lastNode, this`kids, child`parent, child`prevSibling, child`nextSibling
      modifies kids`prevSibling, kids`nextSibling
      ensures Linked() && kids == old(kids[..k]) + [child] + old(kids[k..])
      ensures forall q: XMLNode :: q != this && old(allocated(q)) ==> KeepsList(q)
    {
      if position == firstNode {
        PrependNode(child);
      } else if position == null {
        AppendNode(child);
      } else {
        hide KeepsList;
        ghost var touched := [child] + kids;
        assert LinkAt(k) && LinkAt(k - 1);
        child.prevSibling := position.prevSibling;
        child.nextSibling := position;
        position.prevSibling.nextSibling := child;
        position.prevSibling := child;
        child.parent := this;
        kids := kids[..k] + [child] + kids[k..];
        SplicedIn(k);
        Undisturbed(touched);
      }
    }

    method RemoveFirstNode()
      requires Linked() && kids != []
      modifies this`firstNode, this`lastNode, this`kids, kids`parent, kids`prevSibling
      ensures Linked() && kids == old(kids[1..]) && old(kids[0]).parent == null
      ensures forall q: XMLNode :: q != this && old(allocated(q)) ==> KeepsList(q)
    {
      hide KeepsList;
      ghost var touched := kids;
      assert LinkAt(0) && (|kids| > 1 ==> LinkAt(1));
      var child := firstNode;
      firstNode := child.nextSibling;
      if child.nextSibling != null {
        child.nextSibling.prevSibling := null;
      } else {
        lastNode := null;
      }
      child.parent := null;
      kids := kids[1..];
      forall i | 0 <= i < |kids| ensures LinkAt(i) { assert old(LinkAt(i + 1)); }
      Undisturbed(touched);
    }

    method RemoveLastNode()
      requires Linked() && kids != []
      modifies this`firstNode, this`lastNode, this`kids, kids`parent, kids`nextSibling
      ensures Linked() && kids == old(kids[..|kids| - 1]) && old(kids[|kids| - 1]).parent == null
      ensures forall q: XMLNode :: q != this && old(allocated(q)) ==> KeepsList(q)
    {
      hide KeepsList;
      ghost var touched := kids;
      assert LinkAt(|kids| - 1);
      var child := lastNode;
      if child.prevSibling != null {
        lastNode := child.prevSibling;
        child.prevSibling.nextSibling := null;
      } else {
        firstNode := null;
      }
      child.parent := null;
      kids := kids[..|kids| - 1];
      forall i | 0 <= i < |kids| ensures LinkAt(i) { assert old(LinkAt(i)); }
      Undisturbed(touched);
    }

    method RemoveNode(child: XMLNode, ghost k: nat)
      requires Linked() && k < |kids| && kids[k] == child
      modifies this`firstNode, this`lastNode, this`kids, kids`parent, kids`prevSibling, kids`nextSibling
      ensures Linked() && kids == old(kids[..k]) + old(kids[k + 1..]) && child.parent == null
      ensures forall q: XMLNode :: q != this && old(allocated(q)) ==> KeepsList(q)
    {
      if child == firstNode {
        RemoveFirstNode();
      } else if child == lastNode {
        RemoveLastNode();
      } else {
        hide KeepsList;
        ghost var touched := [child] + kids;
        assert LinkAt(k) && 0 < k < |kids| - 1;
        child.prevSibling.nextSibling := child.nextSibling;
        child.nextSibling.prevSibling := child.prevSibling;
        child.parent := null;
        kids := kids[..k] + kids[k + 1..];
        SplicedOut(k);
        Undisturbed(touched);
      }
    }

    /** Follows the sibling pointers while it clears the parents; the last pointer becomes garbage. */
    method RemoveAllNodes()
      requires Linked()
      modifies this`firstNode, this`kids, kids`parent
      ensures Linked() && kids == []
      ensures forall c :: c in old(kids) ==> c.parent == null
      ensures forall q: XMLNode :: q != this && old(allocated(q)) ==> KeepsList(q)
    {
      hide KeepsList;
      ghost var touched := kids;
      assert forall i :: 0 <= i < |kids| ==> LinkAt(i);
      var node := firstNode;
      ghost var i := 0;
      while node != null
        invariant 0 <= i <= |kids| && node == if i == |kids| then null else kids[i]
        invariant forall j :: 0 <= j < i ==> kids[j].parent == null
        modifies kids`parent
        decreases |kids| - i
      {
        assert old(LinkAt(i));
        node.parent := null;
        node := node.nextSibling;
        i := i + 1;
      }
      firstNode := null;
      kids := [];
      Undisturbed(touched);
    }
  }
}
