/** TiXmlAttributeSet: a ring of attributes closed by a sentinel, and what copying an element makes of it. */
module XmlAttributes {
  import opened XmlTree

  class AttributeNode {
    const name: string
    var value: string
    var prev: AttributeNode?
    var next: AttributeNode?

    constructor (name: string, value: string)
      ensures this.name == name && this.value == value && prev == next == null
    {
      this.name, this.value := name, value;
      prev, next := null, null;
    }

    /** The sentinel is recognised by having neither a name nor a value. */
    method Next() returns (n: AttributeNode?)
      requires next != null
      ensures n == if next.value == "" && next.name == "" then null else next
    {
      if next.value == "" && next.name == "" { return null; }
      n := next;
    }
  }

  // ---- Lists of attributes ----

  /** SetAttribute: in place if the name is there, at the end if not. */
  function Assign(attrs: seq<Attribute>, name: string, value: string): seq<Attribute> {
    if attrs == [] then [Attribute(name, value)]
    else if attrs[0].name == name then [Attribute(name, value)] + attrs[1..]
    else [attrs[0]] + Assign(attrs[1..], name, value)
  }

  /** Everything is visible exactly if only the first attribute may be blank. */
  lemma VisibleIsAll(attrs: seq<Attribute>)
    ensures Visible(attrs) == attrs <==> forall i | 1 <= i < |attrs| :: !BlankAttribute(attrs[i])
  {
    if attrs != [] {
      UpToBlankIsAll(attrs[1..]);
      assert attrs == [attrs[0]] + attrs[1..];
      assert Visible(attrs) == attrs <==> UpToBlank(attrs[1..]) == attrs[1..] by {
        assert Visible(attrs)[1..] == UpToBlank(attrs[1..]);
      }
      assert forall i | 1 <= i < |attrs| :: attrs[i] == attrs[1..][i - 1];
    }
  }

  lemma {:induction false} UpToBlankIsAll(attrs: seq<Attribute>)
    ensures UpToBlank(attrs) == attrs <==> forall i | 0 <= i < |attrs| :: !BlankAttribute(attrs[i])
  {
    if attrs != [] && !BlankAttribute(attrs[0]) {
      UpToBlankIsAll(attrs[1..]);
      assert attrs == [attrs[0]] + attrs[1..];
      assert UpToBlank(attrs)[1..] == UpToBlank(attrs[1..]);
      assert forall i | 1 <= i < |attrs| :: attrs[i] == attrs[1..][i - 1];
    }
  }

  lemma {:induction false} AssignAppends(attrs: seq<Attribute>, name: string, value: string)
    requires forall a <- attrs :: a.name != name
    ensures Assign(attrs, name, value) == attrs + [Attribute(name, value)]
  {
    if attrs != [] { AssignAppends(attrs[1..], name, value); }
  }

  lemma {:induction false} AssignReplaces(attrs: seq<Attribute>, name: string, value: string, k: nat)
    requires k < |attrs| && attrs[k].name == name && forall i | 0 <= i < k :: attrs[i].name != name
    ensures Assign(attrs, name, value) == attrs[k := Attribute(name, value)]
  {
    if k > 0 { AssignReplaces(attrs[1..], name, value, k - 1); }
  }

  // ---- The ring ----

  class AttributeSet {
    const sentinel: AttributeNode
    ghost var items: seq<AttributeNode>

    ghost predicate Valid()
      reads this, sentinel, items
    {
      && sentinel.name == "" && sentinel.value == "" && sentinel !in items
      && (forall i, j | 0 <= i < j < |items| :: items[i] != items[j] && items[i].name != items[j].name)
      && Ring(items)
    }

    /** next and prev are inverse to each other all around. */
    ghost predicate Ring(items: seq<AttributeNode>)
      reads sentinel, items
    {
      && (forall i, j | 0 <= i < |items| && j == i + 1 && j < |items| ::
            items[i].next == items[j] && items[j].prev == items[i])
      && sentinel.next == (if items == [] then sentinel else items[0])
      && sentinel.prev == (if items == [] then sentinel else items[|items| - 1])
      && (items != [] ==> items[0].prev == sentinel && items[|items| - 1].next == sentinel)
    }

    ghost function Contents(): (c: seq<Attribute>)
      reads this, items
    {
      var held := items;
      seq(|held|, i requires 0 <= i < |held| reads held => Attribute(held[i].name, held[i].value))
    }

    constructor ()
      ensures Valid() && items == [] && Contents() == [] && fresh(sentinel)
    {
      sentinel := new AttributeNode("", "");
      items := [];
      new;
      sentinel.next := sentinel;
      sentinel.prev := sentinel;
    }

    method First() returns (a: AttributeNode?)
      requires Valid()
      ensures a == if items == [] then null else items[0]
    {
      if sentinel.next == sentinel { return null; }
      a := sentinel.next;
    }

    method Find(name: string) returns (a: AttributeNode?)
      requires Valid()
      ensures a == null ==> forall n <- items :: n.name != name
      ensures a != null ==> a in items && a.name == name
    {
      var node := sentinel.next;
      ghost var i := 0;
      while node != sentinel
        invariant 0 <= i <= |items| && node == if i < |items| then items[i] else sentinel
        invariant forall j | 0 <= j < i :: items[j].name != name
        decreases |items| - i
      {
        if node.name == name { return node; }
        assert i + 1 < |items| ==> items[i].next == items[i + 1];
        node := node.next;
        i := i + 1;
      }
      a := null;
    }

    /** A new attribute goes before the sentinel: at the end. */
    method Add(addMe: AttributeNode)
      requires Valid() && addMe != sentinel && addMe !in items && forall n <- items :: n.name != addMe.name
      modifies this`items, sentinel`next, sentinel`prev, addMe`next, addMe`prev, sentinel.prev`next
      ensures Valid() && items == old(items) + [addMe]
    {
      addMe.next := sentinel;
      addMe.prev := sentinel.prev;
      sentinel.prev.next := addMe;
      sentinel.prev := addMe;
      items := items + [addMe];
    }

    /** false: the attribute was not in the set, which the source asserts not to happen. */
    method Remove(removeMe: AttributeNode) returns (found: bool)
      requires Valid()
      modifies this`items, sentinel`next, sentinel`prev, set n | n in items
      ensures Valid() && (found <==> removeMe in old(items))
      ensures !found ==> items == old(items)
      ensures found ==> removeMe.next == removeMe.prev == null
      ensures found ==>
        exists k | 0 <= k < |old(items)| :: old(items)[k] == removeMe && items == old(items)[..k] + old(items)[k + 1..]
      ensures forall n <- old(items) :: n.value == old(n.value)
    {
      var node := sentinel.next;
      ghost var k := 0;
      while node != sentinel
        invariant 0 <= k <= |items| && node == if k < |items| then items[k] else sentinel
        invariant forall j | 0 <= j < k :: items[j] != removeMe
        invariant Valid() && items == old(items) && forall n <- items :: n.value == old(n.value)
        decreases |items| - k
      {
        if node == removeMe {
          Unlink(node, k);
          return true;
        }
        assert k + 1 < |items| ==> items[k].next == items[k + 1];
        node := node.next;
        k := k + 1;
      }
      found := false;
    }

    /** Whatever led to an attribute leads past it. */
    method Bypass(node: AttributeNode, ghost k: nat)
      requires Valid() && k < |items| && items[k] == node
      modifies sentinel`next, sentinel`prev, (set n | n in items)`next, (set n | n in items)`prev
      ensures node.next == node.prev == null
      ensures sentinel.next == if k > 0 then old(sentinel.next) else if |items| > 1 then items[1] else sentinel
      ensures sentinel.prev == if k + 1 < |items| then old(sentinel.prev) else if k > 0 then items[k - 1] else sentinel
      ensures forall i | 0 <= i < |items| && i != k ::
                && items[i].next == (if i == k - 1 then old(node.next) else old(items[i].next))
                && items[i].prev == (if i == k + 1 then old(node.prev) else old(items[i].prev))
    {
      assert node.prev == if k > 0 then items[k - 1] else sentinel;
      assert node.next == if k + 1 < |items| then items[k + 1] else sentinel;
      node.prev.next := node.next;
      node.next.prev := node.prev;
      node.next := null;
      node.prev := null;
    }

    method Unlink(node: AttributeNode, ghost k: nat)
      requires Valid() && k < |items| && items[k] == node
      modifies this`items, sentinel`next, sentinel`prev, (set n | n in items)`next, (set n | n in items)`prev
      ensures Valid() && items == old(items)[..k] + old(items)[k + 1..] && node.next == node.prev == null
    {
      ghost var before := items;
      assert node.prev == if k > 0 then items[k - 1] else sentinel;
      assert node.next == if k + 1 < |items| then items[k + 1] else sentinel;
      Bypass(node, k);
      ghost var after := before[..k] + before[k + 1..];
      assert forall i | 0 <= i < |after| :: after[i] == before[if i < k then i else i + 1];
      forall i, j | 0 <= i < |after| && j == i + 1 && j < |after|
        ensures after[i].next == after[j] && after[j].prev == after[i]
      {
        if j < k { assert after[i] == before[i] && after[j] == before[j]; }
        else if i >= k { assert after[i] == before[i + 1] && after[j] == before[j + 1]; }
        else { assert after[i] == before[k - 1] && after[j] == before[k + 1]; }
      }
      assert Ring(after);
      items := after;
    }

    /** SetAttribute */
    method Set(name: string, value: string)
      requires Valid()
      modifies this`items, sentinel`next, sentinel`prev, set n | n in items
      ensures Valid() && Contents() == Assign(old(Contents()), name, value)
      ensures forall n <- items :: n in old(items) || fresh(n)
    {
      var node := Find(name);
      if node != null {
        ghost var k :| 0 <= k < |items| && items[k] == node;
        SetValue(node, value, k);
      } else {
        Append(name, value);
      }
    }

    method SetValue(node: AttributeNode, value: string, ghost k: nat)
      requires Valid() && k < |items| && items[k] == node
      modifies node`value
      ensures Valid() && Contents() == Assign(old(Contents()), node.name, value)
    {
      AssignReplaces(Contents(), node.name, value, k);
      node.value := value;
      assert Contents() == old(Contents())[k := Attribute(node.name, value)];
    }

    method Append(name: string, value: string)
      requires Valid() && forall n <- items :: n.name != name
      modifies this`items, sentinel`next, sentinel`prev, (set n | n in items)`next
      ensures Valid() && Contents() == Assign(old(Contents()), name, value)
      ensures forall n <- items :: n in old(items) || fresh(n)
    {
      ghost var before := Contents();
      AssignAppends(before, name, value);
      var a := new AttributeNode(name, value);
      assert sentinel.prev == sentinel || sentinel.prev in items;
      Add(a);
      assert Contents() == before + [Attribute(name, value)];
    }

    /** The first loop of TiXmlElement::CopyTo, into an element that is new. */
    method CopyTo(target: AttributeSet)
      requires Valid() && target.Valid() && target.items == []
      requires target != this && target.sentinel != sentinel && target.sentinel !in items
      modifies target, target.sentinel
      ensures target.Valid() && target.Contents() == Visible(Contents())
    {
      ghost var source := Contents();
      var a := First();
      ghost var i := 0;
      while a != null
        invariant Valid() && target.Valid() && Contents() == source && forall n <- target.items :: fresh(n)
        invariant a == null ==> target.Contents() == Visible(source)
        invariant a != null ==> i < |items| && a == items[i] && target.Contents() == source[..i]
        invariant a != null ==> Visible(source) == source[..i] + VisibleFrom(source, i)
        decreases if a == null then 0 else |items| - i
      {
        CopyStep(source, i);
        a := CopyOne(a, target, i);
        i := i + 1;
      }
    }

    /** Its body. */
    method CopyOne(a: AttributeNode, target: AttributeSet, ghost i: nat) returns (following: AttributeNode?)
      requires Valid() && target.Valid() && i < |items| && items[i] == a && target.Contents() == Contents()[..i]
      requires target != this && target.sentinel != sentinel && target.sentinel !in items
      requires forall n <- target.items :: n !in items && n != sentinel
      modifies target, target.sentinel, set n | n in target.items
      ensures target.Valid() && target.Contents() == Contents()[..i + 1]
      ensures unchanged(this) && unchanged(sentinel) && unchanged(items) && Valid()
      ensures forall n <- target.items :: n in old(target.items) || fresh(n)
      ensures following == if i + 1 < |items| && !BlankAttribute(Contents()[i + 1]) then items[i + 1] else null
    {
      CopyStep(Contents(), i);
      target.Set(a.name, a.value);
      assert unchanged(this) && unchanged(sentinel) && unchanged(items);
      following := Following(a, i);
    }

    method Following(a: AttributeNode, ghost i: nat) returns (following: AttributeNode?)
      requires Valid() && i < |items| && items[i] == a
      ensures following == if i + 1 < |items| && !BlankAttribute(Contents()[i + 1]) then items[i + 1] else null
    {
      assert a.next == if i + 1 < |items| then items[i + 1] else sentinel;
      following := a.Next();
    }
  }

  lemma CopyStep(attrs: seq<Attribute>, i: nat)
    requires i < |attrs| && UniqueNames(attrs)
    ensures Assign(attrs[..i], attrs[i].name, attrs[i].value) == attrs[..i + 1]
    ensures i + 1 < |attrs| && !BlankAttribute(attrs[i + 1]) ==>
              attrs[..i] + VisibleFrom(attrs, i) == attrs[..i + 1] + VisibleFrom(attrs, i + 1)
    ensures i + 1 == |attrs| || BlankAttribute(attrs[i + 1]) ==> attrs[..i] + VisibleFrom(attrs, i) == attrs[..i + 1]
  {
    AssignAppends(attrs[..i], attrs[i].name, attrs[i].value);
    if i + 1 < |attrs| { assert attrs[i + 1..][0] == attrs[i + 1] && attrs[i + 1..][1..] == attrs[i + 2..]; }
  }
}
