/** The document tree as TinyXML holds it: nodes with a parent, siblings, and a first and last child. */
module XmlDom {
  import XmlTree
  import opened XmlAttributes

  /** What a node says by itself. */
  datatype Content =
    | Document
    | Element(name: string, attributes: seq<XmlTree.Attribute>)
    | Text(value: string, cdata: bool)
    | Comment(value: string)
    | Declaration(version: string, encoding: string, standalone: string)
    | Unknown(value: string)

  /** What a node and all below it say. */
  datatype Tree = Tree(content: Content, children: seq<Tree>)

  // ---- Edits of sequences, element by element ----

  ghost predicate Inserted<T>(before: seq<T>, after: seq<T>, at: nat, x: T) {
    && at <= |before| && |after| == |before| + 1 && after[at] == x
    && (forall i | 0 <= i < at :: after[i] == before[i])
    && (forall i | at < i < |after| :: after[i] == before[i - 1])
  }

  ghost predicate Removed<T>(before: seq<T>, after: seq<T>, at: nat) {
    && at < |before| && |after| == |before| - 1
    && (forall i | 0 <= i < at :: after[i] == before[i])
    && (forall i | at <= i < |after| :: after[i] == before[i + 1])
  }

  ghost predicate Replaced<T>(before: seq<T>, after: seq<T>, at: nat, x: T) {
    && at < |before| && |after| == |before| && after[at] == x
    && (forall i | 0 <= i < |after| && i != at :: after[i] == before[i])
  }

  lemma InsertedIsEdit<T>(before: seq<T>, at: nat, x: T)
    requires at <= |before|
    ensures Inserted(before, before[..at] + [x] + before[at..], at, x)
  {
  }

  lemma InsertedMembers<T>(before: seq<T>, after: seq<T>, at: nat, x: T)
    requires Inserted(before, after, at, x)
    ensures x in after && (forall y <- after :: y == x || y in before) && forall y <- before :: y in after
  {
    forall y <- before ensures y in after {
      var i :| 0 <= i < |before| && before[i] == y;
      assert after[if i < at then i else i + 1] == y;
    }
  }

  lemma RemovedMembers<T>(before: seq<T>, after: seq<T>, at: nat)
    requires Removed(before, after, at) && forall i, j | 0 <= i < j < |before| :: before[i] != before[j]
    ensures (forall y <- after :: y in before && y != before[at]) && forall y <- before | y != before[at] :: y in after
  {
    forall y <- before | y != before[at] ensures y in after {
      var i :| 0 <= i < |before| && before[i] == y;
      assert after[if i < at then i else i - 1] == y;
    }
    forall y <- after ensures y in before && y != before[at] {
      var i :| 0 <= i < |after| && after[i] == y;
      assert y == before[if i < at then i else i + 1];
    }
  }

  lemma RemovedIsEdit<T>(before: seq<T>, at: nat)
    requires at < |before|
    ensures Removed(before, before[..at] + before[at + 1..], at)
  {
  }

  // ---- Copies ----

  /** A copied element has the attributes that can be seen by going through them. */
  function CopiedContent(c: Content): Content {
    if c.Element? then Element(c.name, XmlTree.Visible(c.attributes)) else c
  }

  /** Only elements and documents copy their children. */
  function Copied(t: Tree): Tree
    decreases t, 0
  {
    Tree(CopiedContent(t.content), if t.content.Element? || t.content.Document? then CopiedAll(t.children) else [])
  }

  /** A document among them (ReplaceChild can put one there) is refused by the new parent. */
  function CopiedAll(ts: seq<Tree>): seq<Tree>
    decreases ts, 1
  {
    if ts == [] then []
    else
      var last := ts[|ts| - 1];
      CopiedAll(ts[..|ts| - 1]) + if last.content.Document? then [] else [Copied(last)]
  }

  lemma CopiedOneMore(ts: seq<Tree>, i: nat)
    requires i < |ts|
    ensures CopiedAll(ts[..i + 1]) == CopiedAll(ts[..i]) + if ts[i].content.Document? then [] else [Copied(ts[i])]
  {
    assert ts[..i + 1][..i] == ts[..i];
  }

  /** No attribute but the first of an element is without name and value, no document is below
      another node, and nodes that are neither have nothing below them. */
  predicate Copyable(t: Tree)
    decreases t, 0
  {
    && (t.content.Element? ==>
          forall i | 1 <= i < |t.content.attributes| :: !XmlTree.BlankAttribute(t.content.attributes[i]))
    && (t.content.Element? || t.content.Document? || t.children == [])
    && forall c <- t.children :: CopyableChild(c)
  }

  predicate CopyableChild(c: Tree)
    decreases c, 1
  {
    !c.content.Document? && Copyable(c)
  }

  /** Exactly such trees are copied in full. */
  lemma {:induction false} CopyIsEqual(t: Tree)
    ensures Copied(t) == t <==> Copyable(t)
    decreases t, 0
  {
    if t.content.Element? { VisibleIsAll(t.content.attributes); }
    CopiesAreEqual(t.children);
  }

  lemma {:induction false} CopiesAreEqual(ts: seq<Tree>)
    ensures |CopiedAll(ts)| <= |ts|
    ensures CopiedAll(ts) == ts <==> forall c <- ts :: CopyableChild(c)
    decreases ts, 1
  {
    if ts != [] {
      var init, last := ts[..|ts| - 1], ts[|ts| - 1];
      CopiesAreEqual(init);
      CopyIsEqual(last);
      assert ts == init + [last];
      assert (forall c <- ts :: CopyableChild(c)) <==> (forall c <- init :: CopyableChild(c)) && CopyableChild(last);
      if !last.content.Document? { SameEnds(CopiedAll(init), Copied(last), init, last); }
    }
  }

  lemma SameEnds<T>(a: seq<T>, x: T, b: seq<T>, y: T)
    ensures a + [x] == b + [y] <==> a == b && x == y
  {
    if a + [x] == b + [y] {
      assert |a| == |a + [x]| - 1 == |b|;
      assert a == (a + [x])[..|a|] && b == (b + [y])[..|b|];
      assert x == (a + [x])[|a|] && y == (b + [y])[|b|];
    }
  }

  // ---- Nodes and the trees they make ----

  /** Every node of a set is linked to its children and, if it has a parent, is one of its children;
      no link leads out of the set. */
  ghost predicate Forest(nodes: set<DomNode>)
    reads nodes
  {
    forall n <- nodes ::
      && (forall c <- n.children :: c in nodes)
      && n.Linked()
      && (n.parent != null ==> n.parent in nodes && n in n.parent.children)
  }

  /** The set holds a node, nothing but what is below it, and all of that. Its own parent is outside. */
  ghost predicate Subtree(nodes: set<DomNode>, root: DomNode)
    reads nodes
  {
    && root in nodes && root.parent !in nodes
    && forall n <- nodes ::
      && (forall c <- n.children :: c in nodes)
      && n.Linked()
      && (n != root ==> n.parent != null && n.parent in nodes && n in n.parent.children)
  }

  /** The node and what is below it say this. */
  ghost predicate Represents(n: DomNode, t: Tree, nodes: set<DomNode>)
    reads nodes`content, nodes`children
    decreases t, 0
  {
    n in nodes && n.content == t.content && RepresentAll(n.children, t.children, nodes)
  }

  ghost predicate RepresentAll(ns: seq<DomNode>, ts: seq<Tree>, nodes: set<DomNode>)
    reads nodes`content, nodes`children
    decreases ts, 1
  {
    |ns| == |ts| && forall i | 0 <= i < |ts| :: Represents(ns[i], ts[i], nodes)
  }

  lemma {:induction false} RepresentsIn(n: DomNode, t: Tree, some: set<DomNode>, all: set<DomNode>)
    requires Represents(n, t, some) && some <= all
    ensures Represents(n, t, all)
    decreases t
  {
    forall i | 0 <= i < |t.children| ensures Represents(n.children[i], t.children[i], all) {
      RepresentsIn(n.children[i], t.children[i], some, all);
    }
  }

  lemma RepresentAllIn(ns: seq<DomNode>, ts: seq<Tree>, some: set<DomNode>, all: set<DomNode>)
    requires RepresentAll(ns, ts, some) && some <= all
    ensures RepresentAll(ns, ts, all)
  {
    forall i | 0 <= i < |ts| ensures Represents(ns[i], ts[i], all) { RepresentsIn(ns[i], ts[i], some, all); }
  }

  lemma RepresentOneMore(ns: seq<DomNode>, ts: seq<Tree>, n: DomNode, t: Tree, some: set<DomNode>, more: set<DomNode>)
    requires RepresentAll(ns, ts, some) && Represents(n, t, more)
    ensures RepresentAll(ns + [n], ts + [t], some + more)
  {
    RepresentAllIn(ns, ts, some, some + more);
    RepresentsIn(n, t, more, some + more);
  }

  class DomNode {
    var content: Content
    var parent: DomNode?
    var prev: DomNode?
    var next: DomNode?
    var firstChild: DomNode?
    var lastChild: DomNode?
    ghost var children: seq<DomNode>

    constructor (content: Content)
      ensures this.content == content && children == [] && firstChild == lastChild == null
      ensures parent == prev == next == null
    {
      this.content, children := content, [];
      parent, prev, next, firstChild, lastChild := null, null, null, null, null;
    }

    static ghost function Item(nodes: seq<DomNode>, i: int): DomNode? {
      if 0 <= i < |nodes| then nodes[i] else null
    }

    /** The children are distinct, know their parent, and next and prev lead through them from the
        first to the last and back. */
    ghost predicate Linked()
      reads `children, `firstChild, `lastChild, children`parent, children`prev, children`next
    {
      Chained(children)
    }

    ghost predicate Chained(nodes: seq<DomNode>)
      reads `firstChild, `lastChild, nodes`parent, nodes`prev, nodes`next
    {
      && firstChild == Item(nodes, 0) && lastChild == Item(nodes, |nodes| - 1)
      && (forall i, j | 0 <= i < j < |nodes| :: nodes[i] != nodes[j])
      && (forall c <- nodes :: c.parent == this)
      && (forall i, j | 0 <= i < |nodes| && j == i + 1 && j < |nodes| ::
            nodes[i].next == nodes[j] && nodes[j].prev == nodes[i])
      && (nodes != [] ==> nodes[0].prev == null && nodes[|nodes| - 1].next == null)
    }

    /** LinkEndChild on a node that is not a document. */
    method Append(node: DomNode)
      requires Linked() && node !in children
      modifies `children, `firstChild, `lastChild, node`parent, node`prev, node`next, children`next
      ensures Linked() && children == old(children) + [node]
    {
      node.parent := this;
      node.prev := lastChild;
      node.next := null;
      if lastChild != null { lastChild.next := node; } else { firstChild := node; }
      lastChild := node;
      children := children + [node];
    }

    /** The node comes between a child and what was in front of it. */
    method HookInFront(beforeThis: DomNode, node: DomNode, ghost at: nat)
      requires Linked() && node !in children && at < |children| && children[at] == beforeThis
      modifies `firstChild, node`parent, node`prev, node`next, children`prev, children`next
      ensures node.parent == this && node.prev == Item(children, at - 1) && node.next == beforeThis
      ensures firstChild == (if at == 0 then node else old(firstChild))
      ensures forall i | 0 <= i < |children| ::
                && children[i].next == (if i == at - 1 then node else old(children[i].next))
                && children[i].prev == (if i == at then node else old(children[i].prev))
    {
      node.parent := this;
      node.next := beforeThis;
      node.prev := beforeThis.prev;
      assert beforeThis.prev == Item(children, at - 1);
      if beforeThis.prev != null { beforeThis.prev.next := node; } else { firstChild := node; }
      beforeThis.prev := node;
    }

    /** The links of InsertBeforeChild. */
    method PlaceBefore(beforeThis: DomNode, node: DomNode, ghost at: nat, ghost after: seq<DomNode>)
      requires Linked() && node !in children && at < |children| && children[at] == beforeThis
      requires Inserted(children, after, at, node)
      modifies `children, `firstChild, node`parent, node`prev, node`next, children`prev, children`next
      ensures Linked() && children == after
    {
      ghost var before := children;
      HookInFront(beforeThis, node, at);
      forall i, j | 0 <= i < |after| && j == i + 1 && j < |after|
        ensures after[i].next == after[j] && after[j].prev == after[i]
      {
        if j < at { assert after[i] == before[i] && after[j] == before[j]; }
        else if j == at { assert after[i] == before[at - 1] && after[j] == node; }
        else if i == at { assert after[i] == node && after[j] == before[at]; }
        else { assert after[i] == before[i - 1] && after[j] == before[j - 1]; }
      }
      assert Chained(after);
      children := after;
    }

    /** The node comes between a child and what was behind it. */
    method HookBehind(afterThis: DomNode, node: DomNode, ghost at: nat)
      requires Linked() && node !in children && at < |children| && children[at] == afterThis
      modifies `lastChild, node`parent, node`prev, node`next, children`prev, children`next
      ensures node.parent == this && node.prev == afterThis && node.next == Item(children, at + 1)
      ensures lastChild == (if at == |children| - 1 then node else old(lastChild))
      ensures forall i | 0 <= i < |children| ::
                && children[i].next == (if i == at then node else old(children[i].next))
                && children[i].prev == (if i == at + 1 then node else old(children[i].prev))
    {
      node.parent := this;
      node.prev := afterThis;
      node.next := afterThis.next;
      assert afterThis.next == Item(children, at + 1);
      if afterThis.next != null { afterThis.next.prev := node; } else { lastChild := node; }
      afterThis.next := node;
    }

    /** The links of InsertAfterChild. */
    method PlaceAfter(afterThis: DomNode, node: DomNode, ghost at: nat, ghost after: seq<DomNode>)
      requires Linked() && node !in children && at < |children| && children[at] == afterThis
      requires Inserted(children, after, at + 1, node)
      modifies `children, `lastChild, node`parent, node`prev, node`next, children`prev, children`next
      ensures Linked() && children == after
    {
      ghost var before := children;
      HookBehind(afterThis, node, at);
      forall i, j | 0 <= i < |after| && j == i + 1 && j < |after|
        ensures after[i].next == after[j] && after[j].prev == after[i]
      {
        if j <= at { assert after[i] == before[i] && after[j] == before[j]; }
        else if i == at { assert after[i] == before[at] && after[j] == node; }
        else if i == at + 1 { assert after[i] == node && after[j] == before[at + 1]; }
        else { assert after[i] == before[i - 1] && after[j] == before[j - 1]; }
      }
      assert Chained(after);
      children := after;
    }

    /** Whatever led to a child leads to the node that takes its place. */
    method Redirect(replaceThis: DomNode, node: DomNode, ghost at: nat)
      requires Linked() && node !in children && at < |children| && children[at] == replaceThis
      modifies `firstChild, `lastChild, node`parent, node`prev, node`next, children`prev, children`next
      ensures node.parent == this && node.prev == Item(children, at - 1) && node.next == Item(children, at + 1)
      ensures firstChild == (if at == 0 then node else old(firstChild))
      ensures lastChild == (if at == |children| - 1 then node else old(lastChild))
      ensures forall i | 0 <= i < |children| ::
                && children[i].next == (if i == at - 1 then node else old(children[i].next))
                && children[i].prev == (if i == at + 1 then node else old(children[i].prev))
    {
      node.next := replaceThis.next;
      node.prev := replaceThis.prev;
      assert replaceThis.next == Item(children, at + 1) && replaceThis.prev == Item(children, at - 1);
      if replaceThis.next != null { replaceThis.next.prev := node; } else { lastChild := node; }
      if replaceThis.prev != null { replaceThis.prev.next := node; } else { firstChild := node; }
      node.parent := this;
    }

    /** The links of ReplaceChild. */
    method PutInPlaceOf(replaceThis: DomNode, node: DomNode, ghost at: nat, ghost after: seq<DomNode>)
      requires Linked() && node !in children && at < |children| && children[at] == replaceThis
      requires Replaced(children, after, at, node)
      modifies `children, `firstChild, `lastChild, node`parent, node`prev, node`next, children`prev, children`next
      ensures Linked() && children == after
    {
      ghost var before := children;
      Redirect(replaceThis, node, at);
      forall i, j | 0 <= i < |after| && j == i + 1 && j < |after|
        ensures after[i].next == after[j] && after[j].prev == after[i]
      {
        if j == at { assert after[i] == before[at - 1] && after[j] == node; }
        else if i == at { assert after[i] == node && after[j] == before[at + 1]; }
        else { assert after[i] == before[i] && after[j] == before[j]; }
      }
      assert Chained(after);
      children := after;
    }

    /** Whatever led to a child leads past it. */
    method Bypass(removeThis: DomNode, ghost at: nat)
      requires Linked() && at < |children| && children[at] == removeThis
      modifies `firstChild, `lastChild, children`prev, children`next
      ensures firstChild == (if at == 0 then Item(children, 1) else old(firstChild))
      ensures lastChild == (if at == |children| - 1 then Item(children, at - 1) else old(lastChild))
      ensures forall i | 0 <= i < |children| ::
                && children[i].next == (if i == at - 1 then Item(children, at + 1) else old(children[i].next))
                && children[i].prev == (if i == at + 1 then Item(children, at - 1) else old(children[i].prev))
    {
      assert removeThis.next == Item(children, at + 1) && removeThis.prev == Item(children, at - 1);
      if removeThis.next != null { removeThis.next.prev := removeThis.prev; } else { lastChild := removeThis.prev; }
      if removeThis.prev != null { removeThis.prev.next := removeThis.next; } else { firstChild := removeThis.next; }
    }

    /** The links of RemoveChild. */
    method TakeOut(removeThis: DomNode, ghost at: nat, ghost after: seq<DomNode>)
      requires Linked() && at < |children| && children[at] == removeThis
      requires Removed(children, after, at)
      modifies `children, `firstChild, `lastChild, children`prev, children`next
      ensures Linked() && children == after
    {
      ghost var before := children;
      Bypass(removeThis, at);
      forall i, j | 0 <= i < |after| && j == i + 1 && j < |after|
        ensures after[i].next == after[j] && after[j].prev == after[i]
      {
        if j < at { assert after[i] == before[i] && after[j] == before[j]; }
        else if j == at { assert after[i] == before[at - 1] && after[j] == before[at + 1]; }
        else { assert after[i] == before[i + 1] && after[j] == before[j + 1]; }
      }
      assert Chained(after);
      children := after;
    }

    /** The node becomes the last child; a document is refused (and freed). */
    method LinkEndChild(node: DomNode, ghost nodes: set<DomNode>, ghost below: set<DomNode>) returns (r: DomNode?)
      requires Forest(nodes) && this in nodes && Subtree(below, node) && nodes !! below
      requires node.parent == null || node.parent == this
      modifies `children, `firstChild, `lastChild, node`parent, node`prev, node`next, children`next
      ensures node.content.Document? ==> r == null && Forest(nodes) && children == old(children)
      ensures !node.content.Document? ==>
        r == node && Forest(nodes + below) && children == old(children) + [node]
    {
      if node.content.Document? { return null; }
      ghost var before := children;
      Append(node);
      assert children[|before|] == node && forall c <- before :: c in children;
      OthersStillLinked(Edit(this, before, node, nodes, below, {}));
      r := node;
    }

    /** InsertBeforeChild once the copy is made. */
    method LinkBefore(beforeThis: DomNode, node: DomNode, ghost nodes: set<DomNode>, ghost below: set<DomNode>)
      returns (ghost at: nat)
      requires Forest(nodes) && this in nodes && Subtree(below, node) && nodes !! below && node.parent == null
      requires beforeThis in nodes && beforeThis.parent == this
      modifies `children, `firstChild, node`parent, node`prev, node`next, children`prev, children`next
      ensures Forest(nodes + below) && at < |old(children)| && old(children)[at] == beforeThis
      ensures children == old(children)[..at] + [node] + old(children)[at..]
    {
      at :| 0 <= at < |children| && children[at] == beforeThis;
      InsertedIsEdit(children, at, node);
      LinkBeforeAs(beforeThis, node, nodes, below, at, children[..at] + [node] + children[at..]);
    }

    method LinkBeforeAs(beforeThis: DomNode, node: DomNode, ghost nodes: set<DomNode>, ghost below: set<DomNode>,
        ghost at: nat, ghost after: seq<DomNode>)
      requires Forest(nodes) && this in nodes && Subtree(below, node) && nodes !! below && node.parent == null
      requires at < |children| && children[at] == beforeThis && Inserted(children, after, at, node)
      modifies `children, `firstChild, node`parent, node`prev, node`next, children`prev, children`next
      ensures Forest(nodes + below) && children == after
    {
      ghost var before := children;
      InsertedMembers(before, after, at, node);
      PlaceBefore(beforeThis, node, at, after);
      OthersStillLinked(Edit(this, before, node, nodes, below, {}));
    }

    /** InsertAfterChild once the copy is made. */
    method LinkAfter(afterThis: DomNode, node: DomNode, ghost nodes: set<DomNode>, ghost below: set<DomNode>)
      returns (ghost at: nat)
      requires Forest(nodes) && this in nodes && Subtree(below, node) && nodes !! below && node.parent == null
      requires afterThis in nodes && afterThis.parent == this
      modifies `children, `lastChild, node`parent, node`prev, node`next, children`prev, children`next
      ensures Forest(nodes + below) && at < |old(children)| && old(children)[at] == afterThis
      ensures children == old(children)[..at + 1] + [node] + old(children)[at + 1..]
    {
      at :| 0 <= at < |children| && children[at] == afterThis;
      InsertedIsEdit(children, at + 1, node);
      LinkAfterAs(afterThis, node, nodes, below, at, children[..at + 1] + [node] + children[at + 1..]);
    }

    method LinkAfterAs(afterThis: DomNode, node: DomNode, ghost nodes: set<DomNode>, ghost below: set<DomNode>,
        ghost at: nat, ghost after: seq<DomNode>)
      requires Forest(nodes) && this in nodes && Subtree(below, node) && nodes !! below && node.parent == null
      requires at < |children| && children[at] == afterThis && Inserted(children, after, at + 1, node)
      modifies `children, `lastChild, node`parent, node`prev, node`next, children`prev, children`next
      ensures Forest(nodes + below) && children == after
    {
      ghost var before := children;
      InsertedMembers(before, after, at + 1, node);
      PlaceAfter(afterThis, node, at, after);
      OthersStillLinked(Edit(this, before, node, nodes, below, {}));
    }

    /** ReplaceChild once the copy is made; what was replaced is freed with all below it. */
    method LinkInPlaceOf(replaceThis: DomNode, node: DomNode, ghost nodes: set<DomNode>, ghost below: set<DomNode>,
        ghost gone: set<DomNode>) returns (ghost at: nat)
      requires Forest(nodes) && this in nodes && Subtree(below, node) && nodes !! below && node.parent == null
      requires replaceThis in nodes && replaceThis.parent == this && gone <= nodes && Subtree(gone, replaceThis)
      modifies `children, `firstChild, `lastChild, node`parent, node`prev, node`next, children`prev, children`next
      ensures Forest(nodes - gone + below) && at < |old(children)| && old(children)[at] == replaceThis
      ensures children == old(children)[at := node]
    {
      ghost var before := children;
      at :| 0 <= at < |before| && before[at] == replaceThis;
      PutInPlaceOf(replaceThis, node, at, before[at := node]);
      OthersStillLinked(Edit(this, before, node, nodes, below, gone));
    }

    /** The child and all below it are freed; false if it is not a child of this node. */
    method RemoveChild(removeThis: DomNode, ghost nodes: set<DomNode>, ghost gone: set<DomNode>)
      returns (ok: bool, ghost at: nat)
      requires Forest(nodes) && this in nodes && removeThis in nodes && gone <= nodes && Subtree(gone, removeThis)
      modifies `children, `firstChild, `lastChild, children`prev, children`next
      ensures ok <==> removeThis in old(children)
      ensures !ok ==> Forest(nodes) && children == old(children)
      ensures ok ==> Forest(nodes - gone)
      ensures ok ==> at < |old(children)| && old(children)[at] == removeThis
      ensures ok ==> children == old(children)[..at] + old(children)[at + 1..]
    {
      if removeThis.parent != this { return false, 0; }
      ghost var before := children;
      at :| 0 <= at < |before| && before[at] == removeThis;
      RemovedIsEdit(before, at);
      RemovedMembers(before, before[..at] + before[at + 1..], at);
      TakeOut(removeThis, at, before[..at] + before[at + 1..]);
      OthersStillLinked(Edit(this, before, removeThis, nodes, {}, gone));
      ok := true;
    }

    /** Clear, and the destructor: every child is freed, once and in order, with all below it. */
    method Clear(ghost nodes: set<DomNode>, ghost gone: set<DomNode>) returns (ghost freed: seq<DomNode>)
      requires Forest(nodes) && this in nodes && gone <= nodes && this !in gone
      requires (forall c <- children :: c in gone) && forall n <- gone, c <- n.children :: c in gone
      requires forall n <- gone :: n.parent == this || (n.parent != null && n.parent in gone)
      modifies `children, `firstChild, `lastChild
      ensures freed == old(children) && children == [] && firstChild == lastChild == null && Forest(nodes - gone)
    {
      freed := [];
      var node := firstChild;
      while node != null
        invariant |freed| <= |children| && node == Item(children, |freed|) && freed == children[..|freed|]
        decreases |children| - |freed|
      {
        var temp := node;
        assert node.next == Item(children, |freed| + 1);
        node := node.next;
        freed := freed + [temp];
      }
      children := [];
      firstChild := null;
      lastChild := null;
      forall n <- nodes - gone
        ensures (forall c <- n.children :: c in nodes - gone) && n.Linked()
        ensures n.parent != null ==> n.parent in nodes - gone && n in n.parent.children
      {
        if n != this {
          assert old(n.Linked());
          assert forall c <- n.children :: old(c.parent) == n && c in nodes && c !in gone;
          StillLinked(n);
        }
      }
    }

    /** LinkEndChild on the root of a tree. */
    method LinkEndOfTree(node: DomNode, ghost own: set<DomNode>, ghost below: set<DomNode>) returns (r: DomNode?)
      requires Subtree(own, this) && parent == null && Subtree(below, node) && own !! below && node.parent == null
      modifies `children, `firstChild, `lastChild, node`parent, node`prev, node`next, children`next
      ensures parent == null && node.content == old(node.content)
      ensures node.content.Document? ==> r == null && Subtree(own, this) && children == old(children)
      ensures !node.content.Document? ==>
        r == node && Subtree(own + below, this) && children == old(children) + [node]
    {
      r := LinkEndChild(node, own, below);
    }

    /** Clone and CopyTo: new nodes that say what was copied, and nothing else is touched. */
    method Clone(ghost t: Tree, ghost nodes: set<DomNode>) returns (clone: DomNode, ghost below: set<DomNode>)
      requires Forest(nodes) && Represents(this, t, nodes)
      ensures fresh(below) && clone.parent == null && Subtree(below, clone) && Represents(clone, Copied(t), below)
      decreases t, 1
    {
      clone := new DomNode(CopiedContent(content));
      below := {clone};
      if content.Element? || content.Document? {
        below := CopyChildren(clone, t, nodes);
        RepresentAllIn(clone.children, CopiedAll(t.children), below - {clone}, below);
      }
    }

    /** The loop over the children in CopyTo. */
    method CopyChildren(clone: DomNode, ghost t: Tree, ghost nodes: set<DomNode>) returns (ghost below: set<DomNode>)
      requires Forest(nodes) && Represents(this, t, nodes) && clone !in nodes
      requires Subtree({clone}, clone) && clone.parent == null && clone.children == []
      modifies clone`children, clone`firstChild, clone`lastChild
      ensures fresh(below - {clone}) && Subtree(below, clone) && clone.parent == null
      ensures RepresentAll(clone.children, CopiedAll(t.children), below - {clone})
      decreases t, 0
    {
      below := {clone};
      var node := firstChild;
      ghost var i := 0;
      assert t.children[..0] == [];
      while node != null
        invariant i <= |children| && node == Item(children, i) && Forest(nodes) && Represents(this, t, nodes)
        invariant clone in below && fresh(below - {clone}) && clone.parent == null && Subtree(below, clone)
        invariant RepresentAll(clone.children, CopiedAll(t.children[..i]), below - {clone})
        decreases |children| - i
      {
        CopiedOneMore(t.children, i);
        assert node == children[i] && node.next == Item(children, i + 1);
        below := CopyChild(node, clone, t.children[i], CopiedAll(t.children[..i]), nodes, below);
        node := node.next;
        i := i + 1;
      }
      assert t.children[..i] == t.children;
    }

    /** Its body: a copied document is refused. */
    static method CopyChild(child: DomNode, clone: DomNode, ghost t: Tree, ghost copies: seq<Tree>,
        ghost nodes: set<DomNode>, ghost below: set<DomNode>) returns (ghost all: set<DomNode>)
      requires Forest(nodes) && Represents(child, t, nodes) && nodes !! below
      requires clone.parent == null && Subtree(below, clone) && RepresentAll(clone.children, copies, below - {clone})
      modifies clone`children, clone`firstChild, clone`lastChild, clone.children`next
      ensures below <= all && fresh(all - below) && clone.parent == null && Subtree(all, clone)
      ensures RepresentAll(clone.children, copies + if t.content.Document? then [] else [Copied(t)], all - {clone})
      ensures forall n <- clone.children :: n in old(clone.children) || fresh(n)
      decreases t, 2
    {
      var copy, more := child.Clone(t, nodes);
      all := Attach(copy, clone, Copied(t), copies, below, more);
    }

    static method Attach(copy: DomNode, clone: DomNode, ghost t: Tree, ghost copies: seq<Tree>,
        ghost below: set<DomNode>, ghost more: set<DomNode>) returns (ghost all: set<DomNode>)
      requires Subtree(more, copy) && copy.parent == null && Represents(copy, t, more) && below !! more
      requires clone.parent == null && Subtree(below, clone) && RepresentAll(clone.children, copies, below - {clone})
      modifies clone`children, clone`firstChild, clone`lastChild, copy`parent, copy`prev, copy`next, clone.children`next
      ensures all == if t.content.Document? then below else below + more
      ensures clone.parent == null && Subtree(all, clone)
      ensures clone.children == old(clone.children) + if t.content.Document? then [] else [copy]
      ensures RepresentAll(clone.children, copies + if t.content.Document? then [] else [t], all - {clone})
    {
      var linked := clone.LinkEndOfTree(copy, below, more);
      if linked == null {
        all := below;
        assert copies + [] == copies;
      } else {
        all := below + more;
        RepresentOneMore(old(clone.children), copies, copy, t, below - {clone}, more);
        assert all - {clone} == (below - {clone}) + more;
      }
    }

    /** The edits that take a copy. They return null, and change nothing, when the position is not a
        child of this node or the copy would be a document; ReplaceChild does not look at the latter. */
    method InsertEndChild(addThis: DomNode, ghost t: Tree, ghost nodes: set<DomNode>)
      returns (r: DomNode?, ghost below: set<DomNode>)
      requires Forest(nodes) && this in nodes && Represents(addThis, t, nodes)
      modifies `children, `firstChild, `lastChild, children`next
      ensures t.content.Document? ==> r == null && Forest(nodes) && children == old(children)
      ensures !t.content.Document? ==>
        r != null && fresh(below) && Forest(nodes + below) && children == old(children) + [r]
      ensures r != null ==> Represents(r, Copied(t), below)
    {
      if addThis.content.Document? { return null, {}; }
      var node;
      node, below := addThis.Clone(t, nodes);
      r := LinkEndChild(node, nodes, below);
    }

    method InsertBeforeChild(beforeThis: DomNode?, addThis: DomNode, ghost t: Tree, ghost nodes: set<DomNode>)
      returns (r: DomNode?, ghost below: set<DomNode>, ghost at: nat)
      requires Forest(nodes) && this in nodes && Represents(addThis, t, nodes)
      requires beforeThis == null || beforeThis in nodes
      modifies `children, `firstChild, children`prev, children`next
      ensures r != null <==> beforeThis in old(children) && !t.content.Document?
      ensures r == null ==> Forest(nodes) && children == old(children)
      ensures r != null ==> fresh(below) && Forest(nodes + below) && Represents(r, Copied(t), below)
      ensures r != null ==> at < |old(children)| && old(children)[at] == beforeThis
      ensures r != null ==> children == old(children)[..at] + [r] + old(children)[at..]
    {
      below, at := {}, 0;
      if beforeThis == null || beforeThis.parent != this { return null, {}, 0; }
      if addThis.content.Document? { return null, {}, 0; }
      r, below := addThis.Clone(t, nodes);
      at := LinkBefore(beforeThis, r, nodes, below);
    }

    method InsertAfterChild(afterThis: DomNode?, addThis: DomNode, ghost t: Tree, ghost nodes: set<DomNode>)
      returns (r: DomNode?, ghost below: set<DomNode>, ghost at: nat)
      requires Forest(nodes) && this in nodes && Represents(addThis, t, nodes)
      requires afterThis == null || afterThis in nodes
      modifies `children, `lastChild, children`prev, children`next
      ensures r != null <==> afterThis in old(children) && !t.content.Document?
      ensures r == null ==> Forest(nodes) && children == old(children)
      ensures r != null ==> fresh(below) && Forest(nodes + below) && Represents(r, Copied(t), below)
      ensures r != null ==> at < |old(children)| && old(children)[at] == afterThis
      ensures r != null ==> children == old(children)[..at + 1] + [r] + old(children)[at + 1..]
    {
      below, at := {}, 0;
      if afterThis == null || afterThis.parent != this { return null, {}, 0; }
      if addThis.content.Document? { return null, {}, 0; }
      r, below := addThis.Clone(t, nodes);
      at := LinkAfter(afterThis, r, nodes, below);
    }

    method ReplaceChild(replaceThis: DomNode, withThis: DomNode, ghost t: Tree, ghost nodes: set<DomNode>,
        ghost gone: set<DomNode>)
      returns (r: DomNode?, ghost below: set<DomNode>, ghost at: nat)
      requires Forest(nodes) && this in nodes && Represents(withThis, t, nodes)
      requires replaceThis in nodes && gone <= nodes && Subtree(gone, replaceThis)
      modifies `children, `firstChild, `lastChild, children`prev, children`next
      ensures r != null <==> replaceThis in old(children)
      ensures r == null ==> Forest(nodes) && children == old(children)
      ensures r != null ==> fresh(below) && Forest(nodes - gone + below) && Represents(r, Copied(t), below)
      ensures r != null ==> at < |old(children)| && old(children)[at] == replaceThis
      ensures r != null ==> children == old(children)[at := r]
    {
      below, at := {}, 0;
      if replaceThis.parent != this { return null, {}, 0; }
      r, below := withThis.Clone(t, nodes);
      at := LinkInPlaceOf(replaceThis, r, nodes, below, gone);
    }
  }

  /** An edit of the list of one node of a forest: what was in `gone` leaves the list, which was
      `before`, and `node` joins it if there is anything in `below`. */
  datatype Edit = Edit(host: DomNode, before: seq<DomNode>, node: DomNode, nodes: set<DomNode>,
                       below: set<DomNode>, gone: set<DomNode>)

  /** No links but those of the children of the host changed. */
  twostate predicate Edited(e: Edit)
    reads e.nodes, e.below, e.host
  {
    && old(Forest(e.nodes)) && e.host in e.nodes && e.before == old(e.host.children)
    && e.gone <= e.nodes && e.nodes !! e.below
    && (e.below == {} || old(Subtree(e.below, e.node)))
    && (e.gone == {} || exists out :: out in e.gone && out in e.before && old(Subtree(e.gone, out)))
    && (forall n <- e.nodes + e.below | n != e.host ::
          n.children == old(n.children) && n.firstChild == old(n.firstChild) && n.lastChild == old(n.lastChild))
    && (forall n <- e.nodes + e.below | n != e.node && n !in e.before :: n.next == old(n.next) && n.prev == old(n.prev))
    && (forall n <- e.nodes + e.below | n !in e.below || n != e.node :: n.parent == old(n.parent))
  }

  ghost predicate Takes(e: Edit) {
    e.below != {} || (e.node in e.before && e.node in e.gone)
  }

  /** Then the list itself being in order is enough. */
  twostate lemma OthersStillLinked(e: Edit)
    requires Edited(e) && Takes(e)
    requires forall c <- e.host.children :: (c in e.before && c !in e.gone) || (c == e.node && e.below != {})
    requires forall c <- e.before | c !in e.gone :: c in e.host.children
    requires e.below != {} ==> e.node in e.host.children
    requires e.host.Linked()
    ensures Forest(e.nodes - e.gone + e.below)
  {
    var kept := e.nodes - e.gone + e.below;
    forall n <- kept
      ensures (forall c <- n.children :: c in kept) && n.Linked()
      ensures n.parent != null ==> n.parent in kept && n in n.parent.children
    {
      if n in e.below {
        InBelow(Within(n, e));
      } else {
        Remains(Within(n, e));
        if n != e.host { ListRemains(Within(n, e)); }
      }
    }
  }

  /** A node affected by an edit. */
  datatype Within = Within(n: DomNode, e: Edit)

  twostate lemma InBelow(at: Within)
    requires Edited(at.e) && at.n in at.e.below
    ensures (forall c <- at.n.children :: c in at.e.below) && at.n.Linked()
    ensures at.n != at.e.node ==> at.n.parent != null && at.n.parent in at.e.below && at.n in at.n.parent.children
  {
    var n, e := at.n, at.e;
    assert old(n.Linked());
    assert forall c <- n.children :: old(c.parent) == n && c in e.below && c != e.node;
    StillLinked(n);
  }

  /** What is not freed keeps its parent, and the parent is not freed either. */
  twostate lemma Remains(at: Within)
    requires Edited(at.e) && at.n in at.e.nodes && at.n !in at.e.gone
    ensures at.e.host !in at.e.gone
    ensures at.n.parent == old(at.n.parent)
    ensures at.n.parent != null ==>
      at.n.parent in at.e.nodes && at.n.parent !in at.e.gone && at.n in old(at.n.parent.children)
  {
    assert old(at.e.host.Linked());
  }

  twostate lemma ListRemains(at: Within)
    requires Edited(at.e) && Takes(at.e) && at.n in at.e.nodes && at.n !in at.e.gone && at.n != at.e.host
    ensures (forall c <- at.n.children :: c in at.e.nodes && c !in at.e.gone) && at.n.Linked()
  {
    var n, e := at.n, at.e;
    assert old(n.Linked()) && old(e.host.Linked());
    assert forall c <- n.children :: old(c.parent) == n && c in e.nodes && c !in e.before && c != e.node;
    StillLinked(n);
  }

  twostate lemma StillLinked(n: DomNode)
    requires old(n.Linked()) && n.children == old(n.children)
    requires n.firstChild == old(n.firstChild) && n.lastChild == old(n.lastChild)
    requires forall c <- n.children :: c.parent == old(c.parent) && c.prev == old(c.prev) && c.next == old(c.next)
    ensures n.Linked()
  {
    assert forall i | 0 <= i < |n.children| :: n.children[i] in n.children;
  }
}
