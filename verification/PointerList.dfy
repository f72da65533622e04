/** The doubly linked pointer list: heap nodes with prev and next, refining the
    sequence operations of ListSpec. The callback functions are functions over
    elements; what free() releases is reported to the caller. */
module PointerList {
  import opened ListSpec
  import opened Wrappers

  /** The list reaches a node's fields only through these accessors, and only
      while the node is live: what a field holds after free() nobody knows. */
  class Node<T> {
    var prev: Node?<T>
    var next: Node?<T>
    var element: T
    /** Allocated and not yet released with free(). */
    ghost var live: bool

    constructor (element: T)
      ensures this.element == element && live
    {
      prev, next := null, null;
      this.element := element;
      live := true;
    }

    function Prev(): Node?<T>
      requires live
      reads this
    {
      prev
    }

    function Next(): Node?<T>
      requires live
      reads this
    {
      next
    }

    function Element(): T
      requires live
      reads this
    {
      element
    }

    method SetPrev(node: Node?<T>)
      requires live
      modifies this`prev
      ensures prev == node
    {
      prev := node;
    }

    method SetNext(node: Node?<T>)
      requires live
      modifies this`next
      ensures next == node
    {
      next := node;
    }
  }

  /** free() of a node: never twice, and nothing in it can be relied on after. */
  method Release<T>(node: Node<T>)
    requires node.live
    modifies node
    ensures !node.live
  {
    node.live := false;
  }

  ghost function ElementsOf<T>(nodes: seq<Node<T>>): (s: seq<T>)
    reads nodes
    ensures |s| == |nodes|
    ensures forall i :: 0 <= i < |nodes| ==> s[i] == nodes[i].element
  {
    seq(|nodes|, i requires 0 <= i < |nodes| reads nodes => nodes[i].element)
  }

  /** Links may change; the elements are what they were. */
  twostate lemma SameElements<T>(nodes: seq<Node<T>>)
    requires forall i :: 0 <= i < |nodes| ==> nodes[i].element == old(nodes[i].element)
    ensures ElementsOf(nodes) == old(ElementsOf(nodes))
  {
  }

  lemma ElementsInsert<T>(nodes: seq<Node<T>>, k: nat, node: Node<T>)
    requires k <= |nodes|
    ensures ElementsOf(InsertAt(nodes, k, node)) == InsertAt(ElementsOf(nodes), k, node.element)
  {
  }

  lemma ElementsRemove<T>(nodes: seq<Node<T>>, k: nat)
    requires k < |nodes|
    ensures ElementsOf(RemoveAt(nodes, k)) == RemoveAt(ElementsOf(nodes), k)
  {
  }

  lemma OneMore<T>(s: seq<T>, t: seq<T>)
    requires t != []
    ensures (s + [t[0]]) + t[1..] == s + t
  {
  }

  class DPList<T> {
    var head: Node?<T>
    const elementCopy: T -> T
    const elementCompare: (T, T) -> int
    /** The nodes from head on. */
    ghost var nodes: seq<Node<T>>
    /** Every node the list has ever had: what its methods may change. */
    ghost var repr: set<Node<T>>

    ghost predicate Valid()
      reads this, repr
    {
      && head == At(0)
      && Distinct(nodes)
      && Owning()
      && forall i :: 0 <= i < |nodes| ==> Linked(i)
    }

    ghost predicate Owning()
      reads this
    {
      forall i :: 0 <= i < |nodes| ==> nodes[i] in repr
    }

    /** Node i, null before the first and after the last. */
    ghost function At(i: int): Node?<T>
      reads this
    {
      if 0 <= i < |nodes| then nodes[i] else null
    }

    ghost predicate Linked(i: nat)
      requires i < |nodes|
      reads this, repr
    {
      nodes[i] in repr && nodes[i].live && nodes[i].prev == At(i - 1) && nodes[i].next == At(i + 1)
    }

    ghost function Elements(): (s: seq<T>)
      reads this, nodes
      ensures |s| == |nodes|
    {
      ElementsOf(nodes)
    }

    constructor (elementCopy: T -> T, elementCompare: (T, T) -> int)
      ensures Valid() && nodes == [] && repr == {}
      ensures this.elementCopy == elementCopy && this.elementCompare == elementCompare
    {
      head := null;
      nodes, repr := [], {};
      this.elementCopy := elementCopy;
      this.elementCompare := elementCompare;
    }

    /** Releases every node exactly once, front to back, and hands each element
        to element_free exactly once, iff asked to. */
    method Free(freeElement: bool) returns (released: seq<Node<T>>, freed: seq<T>)
      requires Valid()
      modifies this, repr
      ensures released == old(nodes)
      ensures freed == if freeElement then old(Elements()) else []
      ensures Valid() && nodes == [] && repr == old(repr)
      ensures forall node :: node in old(nodes) ==> !node.live
    {
      released, freed := [], [];
      ghost var all, es := nodes, Elements();
      while head != null
        invariant Valid() && repr == old(repr)
        invariant released + nodes == all
        invariant if freeElement then freed + Elements() == es else freed == []
        invariant forall i :: 0 <= i < |released| ==> Released(released[i])
        decreases |nodes|
      {
        assert Linked(0) && head == nodes[0] && head.element == Elements()[0];
        OneMore(released, nodes);
        OneMore(freed, Elements());
        if freeElement { freed := freed + [head.Element()]; }
        released := released + [head];
        ReleaseHead();
      }
    }

    ghost predicate Released(node: Node<T>)
      reads this, node
    {
      node in repr && !node.live
    }

    method ReleaseHead()
      requires Valid() && nodes != []
      modifies this, repr
      ensures Valid() && nodes == old(nodes)[1..] && Released(old(nodes)[0])
      ensures forall node :: node in old(repr) && old(Released(node)) ==> Released(node)
      ensures Elements() == old(Elements())[1..] && repr == old(repr)
    {
      assert head == nodes[0] && Linked(0);
      if head.Next() != null {
        assert Linked(1);
        head := head.Next();
        Release(head.Prev());
        head.SetPrev(null);
      } else {
        Release(head);
        head := null;
      }
      nodes := nodes[1..];
      forall i | 0 <= i < |nodes| ensures Linked(i) {
        assert old(Linked(i + 1));
      }
    }

    method Size() returns (count: nat)
      requires Valid()
      ensures count == |nodes|
    {
      count := 0;
      var node := head;
      while node != null
        invariant count <= |nodes| && node == At(count)
        decreases |nodes| - count
      {
        assert Linked(count);
        count := count + 1;
        node := node.Next();
      }
    }

    method GetReferenceAtIndex(index: int) returns (reference: Node?<T>)
      requires Valid()
      ensures reference == if nodes == [] then null else nodes[Clamp(index, |nodes|)]
    {
      var size := Size();
      var node := head;
      var current := 0;
      while node != null
        invariant current <= |nodes| && node == At(current)
        invariant current == 0 || (current <= index && current < size)
        decreases |nodes| - current
      {
        assert Linked(current);
        if current >= index || current == size - 1 { return node; }
        node, current := node.Next(), current + 1;
      }
      return null;
    }

    method InsertAtIndex(element: T, index: int, insertCopy: bool) returns (newNode: Node<T>)
      requires Valid()
      modifies this, repr
      ensures Valid() && fresh(newNode) && repr == old(repr) + {newNode}
      ensures nodes == InsertAt(old(nodes), InsertIndex(index, |old(nodes)|), newNode)
      ensures newNode.element == if insertCopy then elementCopy(element) else element
      ensures Elements() == InsertAt(old(Elements()), InsertIndex(index, |old(nodes)|), newNode.element)
    {
      newNode := new Node(if insertCopy then elementCopy(element) else element);
      LinkIn(newNode, index);
      SameElements(old(nodes));
      ElementsInsert(old(nodes), InsertIndex(index, |old(nodes)|), newNode);
    }

    /** The four cases of an insertion: first node, head, tail, in between. */
    method LinkIn(node: Node<T>, index: int)
      requires Valid() && node !in nodes && node !in repr && node.live
      modifies this, repr`prev, repr`next, node`prev, node`next
      ensures Valid() && nodes == InsertAt(old(nodes), InsertIndex(index, |old(nodes)|), node)
      ensures repr == old(repr) + {node}
    {
      var size := Size();
      var nodeAtIndex: Node?<T> := null;
      if size > 0 { nodeAtIndex := GetReferenceAtIndex(index); }
      if size == 0 {
        node.SetNext(null);
        node.SetPrev(null);
        head := node;
        nodes, repr := InsertAt(nodes, 0, node), repr + {node};
      } else if index <= 0 {
        InsertHead(node, nodeAtIndex);
      } else if index >= size {
        InsertTail(node, nodeAtIndex);
      } else {
        InsertBetween(node, nodeAtIndex, index);
      }
    }

    method InsertHead(node: Node<T>, nodeAtIndex: Node<T>)
      requires Valid() && node !in nodes && node !in repr && node.live
      requires nodes != [] && nodeAtIndex == nodes[0]
      modifies this, repr`prev, repr`next, node`prev, node`next
      ensures Valid() && nodes == InsertAt(old(nodes), 0, node) && repr == old(repr) + {node}
    {
      assert Linked(0);
      node.SetNext(nodeAtIndex);
      node.SetPrev(null);
      nodeAtIndex.SetPrev(node);
      head := node;
      ghost var before := nodes;
      nodes, repr := InsertAt(nodes, 0, node), repr + {node};
      InsertDistinct(before, 0, node);
      forall i | 0 <= i < |nodes| ensures Linked(i) {
        if i > 0 { assert old(Linked(i - 1)); }
      }
    }

    method InsertTail(node: Node<T>, nodeAtIndex: Node<T>)
      requires Valid() && node !in nodes && node !in repr && node.live
      requires nodes != [] && nodeAtIndex == nodes[|nodes| - 1]
      modifies this, repr`prev, repr`next, node`prev, node`next
      ensures Valid() && nodes == InsertAt(old(nodes), |old(nodes)|, node) && repr == old(repr) + {node}
    {
      assert Linked(|nodes| - 1);
      node.SetNext(null);
      node.SetPrev(nodeAtIndex);
      nodeAtIndex.SetNext(node);
      ghost var before := nodes;
      nodes, repr := InsertAt(nodes, |old(nodes)|, node), repr + {node};
      InsertDistinct(before, |old(nodes)|, node);
      forall i | 0 <= i < |nodes| ensures Linked(i) {
        if i < |before| { assert old(Linked(i)); }
      }
    }

    method InsertBetween(node: Node<T>, nodeAtIndex: Node<T>, ghost k: nat)
      requires Valid() && node !in nodes && node !in repr && node.live
      requires 0 < k < |nodes| && nodeAtIndex == nodes[k]
      modifies this, repr`prev, repr`next, node`prev, node`next
      ensures Valid() && nodes == InsertAt(old(nodes), k, node) && repr == old(repr) + {node}
    {
      assert Linked(k) && Linked(k - 1);
      node.SetNext(nodeAtIndex);
      node.SetPrev(nodeAtIndex.Prev());
      nodeAtIndex.Prev().SetNext(node);
      nodeAtIndex.SetPrev(node);
      ghost var before := nodes;
      nodes, repr := InsertAt(nodes, k, node), repr + {node};
      InsertDistinct(before, k, node);
      forall i | 0 <= i < |nodes| ensures Linked(i) {
        if i < k { assert old(Linked(i)); }
        if i > k { assert old(Linked(i - 1)); }
      }
    }

    method RemoveAtIndex(index: int, freeElement: bool) returns (released: Node?<T>, freed: seq<T>)
      requires Valid()
      modifies this, repr
      ensures Valid() && repr == old(repr)
      ensures old(nodes) == [] ==> nodes == [] && released == null && freed == []
      ensures old(nodes) != [] ==> var k := Clamp(index, |old(nodes)|);
        && released == old(nodes)[k] && !released.live
        && nodes == RemoveAt(old(nodes), k) && Elements() == RemoveAt(old(Elements()), k)
        && freed == if freeElement then [old(Elements())[k]] else []
    {
      released, freed := null, [];
      if head == null { return; }
      var nodeAtIndex := GetReferenceAtIndex(index);
      ghost var k := Clamp(index, |nodes|);
      assert Linked(k);
      ElementsRemove(nodes, k);
      Unlink(nodeAtIndex, k);
      if freeElement { freed := [nodeAtIndex.Element()]; }
      label Unlinked:
      Release(nodeAtIndex);
      released := nodeAtIndex;
      forall i | 0 <= i < |nodes| ensures Linked(i) {
        assert old@Unlinked(Linked(i)) && nodes[i] != nodeAtIndex;
      }
    }

    method Unlink(nodeAtIndex: Node<T>, ghost k: nat)
      requires Valid() && k < |nodes| && nodeAtIndex == nodes[k]
      modifies this, repr`prev, repr`next
      ensures nodes == RemoveAt(old(nodes), k) && Valid() && repr == old(repr)
      ensures nodeAtIndex.live && nodeAtIndex !in nodes
    {
      assert Linked(k);
      Bypass(nodeAtIndex, k);
      RemoveDistinct(nodes, k);
      label Bypassed:
      nodes := RemoveAt(nodes, k);
      forall i | 0 <= i < |nodes| ensures Linked(i) {
        assert old@Bypassed(LinkedPast(if i < k then i else i + 1, k));
      }
    }

    /** Leads the links around node k. */
    method Bypass(nodeAtIndex: Node<T>, ghost k: nat)
      requires Valid() && k < |nodes| && nodeAtIndex == nodes[k]
      modifies this`head, repr`prev, repr`next
      ensures head == if k == 0 then At(1) else nodes[0]
      ensures forall i :: 0 <= i < |nodes| && i != k ==> LinkedPast(i, k)
    {
      assert Linked(k);
      assert k > 0 ==> Linked(k - 1);
      assert k + 1 < |nodes| ==> Linked(k + 1);
      if nodeAtIndex == head { head := nodeAtIndex.Next(); }
      if nodeAtIndex.Prev() == null && nodeAtIndex.Next() != null {
        nodeAtIndex.Next().SetPrev(null);
      } else if nodeAtIndex.Prev() != null && nodeAtIndex.Next() == null {
        nodeAtIndex.Prev().SetNext(null);
      } else if nodeAtIndex.Prev() != null && nodeAtIndex.Next() != null {
        nodeAtIndex.Prev().SetNext(nodeAtIndex.Next());
        nodeAtIndex.Next().SetPrev(nodeAtIndex.Prev());
      }
      forall i | 0 <= i < |nodes| && i != k ensures LinkedPast(i, k) {
        assert old(Linked(i));
      }
    }

    /** Node i is linked as if node k were not there. */
    ghost predicate LinkedPast(i: nat, k: nat)
      requires i < |nodes|
      reads this, repr
    {
      && nodes[i] in repr && nodes[i].live
      && nodes[i].prev == (if i == k + 1 then At(k - 1) else At(i - 1))
      && nodes[i].next == (if i + 1 == k then At(k + 1) else At(i + 1))
    }

    // ----- lookups -----

    method GetElementAtIndex(index: int) returns (element: Option<T>)
      requires Valid()
      ensures element == if nodes == [] then None else Some(nodes[Clamp(index, |nodes|)].element)
    {
      var nodeAtIndex := GetReferenceAtIndex(index);
      if nodeAtIndex == null { return None; }
      assert Linked(Clamp(index, |nodes|));
      return Some(nodeAtIndex.Element());
    }

    method GetIndexOfElement(element: T) returns (index: int)
      requires Valid()
      ensures index == EqualIndex(Elements(), element, elementCompare)
    {
      if head == null { return -1; }
      assert Linked(0);
      var node := head;
      index := 0;
      while elementCompare(node.Element(), element) != 0
        invariant 0 <= index < |nodes| && node == nodes[index] && node.live
        invariant forall i :: 0 <= i < index ==> elementCompare(Elements()[i], element) != 0
        decreases |nodes| - index
      {
        assert Linked(index) && node.element == Elements()[index];
        if node.Next() == null { return -1; }
        assert Linked(index + 1);
        node, index := node.Next(), index + 1;
      }
      assert elementCompare(Elements()[index], element) == 0;
    }

    method GetFirstReference() returns (reference: Node?<T>)
      requires Valid()
      ensures reference == At(0)
    {
      return head;
    }

    method GetLastReference() returns (reference: Node?<T>)
      requires Valid()
      ensures reference == At(|nodes| - 1)
    {
      var size := Size();
      reference := GetReferenceAtIndex(size);
    }

    method GetReferenceInList(reference: Node?<T>) returns (node: Node?<T>)
      requires Valid()
      ensures node == if reference in nodes then reference else null
    {
      if reference == null { return null; }
      node := head;
      ghost var i := 0;
      while node != null
        invariant i <= |nodes| && node == At(i)
        invariant reference !in nodes[..i]
        decreases |nodes| - i
      {
        assert Linked(i);
        if node == reference { return node; }
        node := node.Next();
        i := i + 1;
      }
    }

    /** The position after a node of the list; null for anything else. */
    method GetNextReference(reference: Node?<T>) returns (next: Node?<T>)
      requires Valid()
      ensures next == if reference == null || RefIndex(reference) == -1 then null
                      else At(RefIndex(reference) + 1)
    {
      var node := GetReferenceInList(reference);
      if node == null { return null; }
      assert Linked(RefIndex(node));
      return node.Next();
    }

    /** The position before a node of the list. For null the header promises the
        last node, and the code keeps that promise only in an empty list. */
    method GetPreviousReference(reference: Node?<T>) returns (previous: Node?<T>)
      requires Valid()
      ensures reference == null ==> (previous == At(|nodes| - 1) <==> nodes == [])
      ensures previous == if reference == null || RefIndex(reference) == -1 then null
                      else At(RefIndex(reference) - 1)
    {
      var node := GetReferenceInList(reference);
      if node == null { return null; }
      assert Linked(RefIndex(node));
      return node.Prev();
    }

    method GetElementAtReference(reference: Node?<T>) returns (element: Option<T>)
      requires Valid()
      ensures element == var r := if reference == null then At(|nodes| - 1) else reference;
                         if r in nodes then Some(r.element) else None
    {
      var node := reference;
      if node == null { node := GetLastReference(); }
      var found := GetReferenceInList(node);
      if found == null { return None; }
      assert Linked(RefIndex(node));
      return Some(node.Element());
    }

    method GetReferenceOfElement(element: T) returns (node: Node?<T>)
      requires Valid()
      ensures node == At(EqualIndex(Elements(), element, elementCompare))
    {
      node := head;
      ghost var i := 0;
      while node != null
        invariant i <= |nodes| && node == At(i)
        invariant forall j :: 0 <= j < i ==> elementCompare(Elements()[j], element) != 0
        decreases |nodes| - i
      {
        assert Linked(i) && node.element == Elements()[i];
        if elementCompare(node.Element(), element) == 0 { return node; }
        node := node.Next();
        i := i + 1;
      }
    }

    /** The index a reference stands for: null means the last node. */
    ghost function RefIndex(reference: Node?<T>): (index: int)
      reads this
      ensures -1 <= index < |nodes|
    {
      if reference == null then |nodes| - 1 else IndexOf(nodes, reference)
    }

    method GetIndexOfReference(reference: Node?<T>) returns (index: int)
      requires Valid()
      ensures index == RefIndex(reference)
    {
      var wanted := reference;
      if wanted == null { wanted := GetLastReference(); }
      var node := head;
      index := 0;
      while node != null
        invariant 0 <= index <= |nodes| && node == At(index)
        invariant wanted !in nodes[..index]
        decreases |nodes| - index
      {
        assert Linked(index);
        if node == wanted {
          IndexOfElement(nodes, index);
          return;
        }
        node, index := node.Next(), index + 1;
      }
      return -1;
    }

    // ----- insertion and removal by reference, order and element -----

    /** A null reference stands for the last node, so the element is placed before
        it, and nowhere at all in an empty list. The header promises that it is
        appended, which holds exactly when the last element equals the new one. */
    method InsertAtReference(element: T, reference: Node?<T>, insertCopy: bool) returns (newNode: Node?<T>)
      requires Valid()
      modifies this, repr
      ensures Valid() && fresh(repr - old(repr))
      ensures var k := old(RefIndex(reference));
        if k == -1 then newNode == null && nodes == old(nodes)
        else newNode != null && fresh(newNode) && nodes == InsertAt(old(nodes), k, newNode)
             && newNode.element == if insertCopy then elementCopy(element) else element
      ensures var es, x := old(Elements()), if insertCopy then elementCopy(element) else element;
        reference == null ==> (Elements() == es + [x] <==> es != [] && es[|es| - 1] == x)
    {
      NullInsertAppendsIff(Elements(), if insertCopy then elementCopy(element) else element);
      var index := GetIndexOfReference(reference);
      if index == -1 { return null; }
      newNode := InsertAtIndex(element, index, insertCopy);
    }

    method InsertSorted(element: T, insertCopy: bool) returns (newNode: Node<T>)
      requires Valid()
      modifies this, repr
      ensures Valid() && fresh(newNode) && repr == old(repr) + {newNode}
      ensures nodes == InsertAt(old(nodes), SortedIndex(old(Elements()), element, elementCompare), newNode)
      ensures newNode.element == if insertCopy then elementCopy(element) else element
      ensures Elements() == InsertAt(old(Elements()), SortedIndex(old(Elements()), element, elementCompare),
                                     newNode.element)
    {
      var node := head;
      var index := 0;
      while node != null
        invariant 0 <= index <= |nodes| && node == At(index)
        invariant forall i :: 0 <= i < index ==> elementCompare(element, Elements()[i]) > 0
        decreases |nodes| - index
      {
        assert Linked(index) && node.element == Elements()[index];
        if elementCompare(element, node.Element()) <= 0 { break; }
        node, index := node.Next(), index + 1;
      }
      assert index < |nodes| ==> elementCompare(element, Elements()[index]) <= 0;
      assert SortedIndex(Elements(), element, elementCompare) == index;
      newNode := InsertAtIndex(element, index, insertCopy);
    }

    method RemoveAtReference(reference: Node?<T>, freeElement: bool) returns (released: Node?<T>, freed: seq<T>)
      requires Valid()
      modifies this, repr
      ensures Valid() && repr == old(repr)
      ensures var k := old(RefIndex(reference));
        if k == -1 then nodes == old(nodes) && released == null && freed == []
        else nodes == RemoveAt(old(nodes), k) && released == old(nodes)[k] && !released.live
             && freed == if freeElement then [old(Elements())[k]] else []
    {
      var index := GetIndexOfReference(reference);
      if index == -1 { return null, []; }
      released, freed := RemoveAtIndex(index, freeElement);
    }

    method RemoveElement(element: T, freeElement: bool) returns (released: Node?<T>, freed: seq<T>)
      requires Valid()
      modifies this, repr
      ensures Valid() && repr == old(repr)
      ensures var k := EqualIndex(old(Elements()), element, elementCompare);
        if k == -1 then nodes == old(nodes) && released == null && freed == []
        else nodes == RemoveAt(old(nodes), k) && released == old(nodes)[k] && !released.live
             && freed == if freeElement then [old(Elements())[k]] else []
    {
      var index := GetIndexOfElement(element);
      if index == -1 { return null, []; }
      released, freed := RemoveAtIndex(index, freeElement);
    }
  }

  /** Inserting in order and then removing an element that compares equal, as the
      list itself does it, leaves the nodes that were there. */
  method InsertSortedThenRemove<T(!new)>(list: DPList<T>, element: T, insertCopy: bool)
    requires list.Valid() && SignAntisymmetric(list.elementCompare)
    requires list.elementCompare(if insertCopy then list.elementCopy(element) else element, element) == 0
    modifies list, list.repr
    ensures list.Valid() && list.nodes == old(list.nodes)
  {
    ghost var es, nodes := list.Elements(), list.nodes;
    var node := list.InsertSorted(element, insertCopy);
    SortedNodeUndone(es, nodes, element, node.element, node, list.elementCompare);
    var _, _ := list.RemoveElement(element, false);
  }
}
