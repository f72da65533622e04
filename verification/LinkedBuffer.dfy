/** The shared buffer on the heap: a linked queue whose nodes carry the readers'
    flags, and whose node is freed when the last reader has passed it. */
module LinkedBuffer {
  import opened Readings
  import opened BufferSpec

  /** The buffer reaches a node's fields only through these accessors, and only
      while the node is live: what a field holds after free() nobody knows. */
  class Node {
    var next: Node?
    var data: Reading
    /** The flags, an array embedded in the node. */
    const readers: array<bool>
    /** Allocated and not yet released with free(). */
    ghost var live: bool

    /** A node as sbuffer_insert builds it: no reader has seen it. */
    constructor (data: Reading, readerCount: nat)
      ensures this.data == data && next == null && live
      ensures fresh(readers) && readers[..] == seq(readerCount, _ => false)
    {
      next := null;
      this.data := data;
      readers := new bool[readerCount](_ => false);
      live := true;
    }

    function Next(): Node?
      requires live
      reads this
    {
      next
    }

    function Data(): Reading
      requires live
      reads this
    {
      data
    }

    function IsRead(id: nat): bool
      requires live && id < readers.Length
      reads this, readers
    {
      readers[id]
    }

    method SetNext(node: Node)
      requires live
      modifies this`next
      ensures next == node
    {
      next := node;
    }

    method SetRead(id: nat)
      requires live && id < readers.Length
      modifies readers
      ensures readers[..] == old(readers[..])[id := true]
    {
      readers[id] := true;
    }

    ghost function View(): Cell
      reads this, readers
    {
      Cell(data, readers[..])
    }
  }

  /** free() of a node and the flags in it: never twice, and nothing in it can be
      relied on after. */
  method Release(node: Node)
    requires node.live
    modifies node, node.readers
    ensures !node.live
  {
    node.live := false;
  }

  class SharedBuffer {
    var head: Node?
    var tail: Node?
    const readerCount: nat
    /** The nodes from head on. */
    ghost var nodes: seq<Node>
    /** Every node the buffer has ever had, and its flags. */
    ghost var repr: set<object>

    ghost predicate Valid()
      reads this, repr
    {
      Chained() && tail == At(|nodes| - 1)
    }

    /** The nodes hang together, wherever the tail points. */
    ghost predicate Chained()
      reads this, repr
    {
      && head == At(0)
      && (forall i, j :: 0 <= i < j < |nodes| ==> nodes[i] != nodes[j] && nodes[i].readers != nodes[j].readers)
      && forall i :: 0 <= i < |nodes| ==> Linked(i)
    }

    ghost predicate Linked(i: nat)
      requires i < |nodes|
      reads this, repr
    {
      && nodes[i] in repr && nodes[i].readers in repr && nodes[i].readers.Length == readerCount
      && nodes[i].live && nodes[i].next == At(i + 1)
    }

    ghost function At(i: int): Node?
      reads this
    {
      if 0 <= i < |nodes| then nodes[i] else null
    }

    ghost predicate Released(node: Node)
      reads this, node
    {
      node in repr && !node.live
    }

    ghost function Cells(): (cells: seq<Cell>)
      requires Valid()
      reads this, repr
      ensures |cells| == |nodes|
    {
      seq(|nodes|, i requires 0 <= i < |nodes| && Linked(i) reads this, repr => nodes[i].View())
    }

    constructor (readerCount: nat)
      ensures Valid() && Cells() == [] && repr == {} && this.readerCount == readerCount
    {
      head, tail := null, null;
      nodes, repr := [], {};
      this.readerCount := readerCount;
    }

    method Insert(data: Reading)
      requires Valid()
      modifies this, repr
      ensures Valid() && fresh(repr - old(repr))
      ensures Cells() == BufferSpec.Insert(old(Cells()), data, readerCount)
    {
      ghost var cells := Cells();
      var dummy := new Node(data, readerCount);
      assert nodes != [] ==> Linked(|nodes| - 1);
      if tail == null {
        head := dummy;
        tail := dummy;
      } else {
        tail.SetNext(dummy);
        tail := tail.Next();
      }
      nodes, repr := nodes + [dummy], repr + {dummy, dummy.readers};
      forall i | 0 <= i < |nodes| ensures Linked(i) {
        assert i < |nodes| - 1 ==> old(Linked(i));
      }
      assert Cells()[|cells|] == Cell(data, seq(readerCount, _ => false));
      assert forall i :: 0 <= i < |cells| ==> Cells()[i] == cells[i];
    }

    /** The first node that reader id has not flagged, null if there is none. */
    method FindUnread(id: nat) returns (dummy: Node?, ghost i: nat)
      requires Valid() && id < readerCount
      ensures Sized(Cells(), readerCount)
      ensures dummy == At(FirstUnread(Cells(), id)) && i == FirstUnread(Cells(), id)
    {
      AllSized();
      ghost var cells := Cells();
      dummy := head;
      i := 0;
      while dummy != null
        invariant i <= |nodes| && dummy == At(i) && cells == Cells()
        invariant forall j :: 0 <= j < i ==> cells[j].flags[id]
        decreases |nodes| - i
      {
        FlagOf(i, id);
        if dummy.IsRead(id) { dummy := dummy.Next(); } else { break; }
        i := i + 1;
      }
      if i < |nodes| { FlagOf(i, id); }
      FirstUnreadIs(cells, id, i);
    }

    lemma FlagOf(j: nat, id: nat)
      requires Valid() && j < |nodes| && id < readerCount
      ensures Linked(j) && |Cells()[j].flags| == readerCount && Cells()[j].flags[id] == nodes[j].readers[id]
    {
    }

    lemma AllSized()
      requires Valid()
      ensures Sized(Cells(), readerCount)
    {
      forall i | 0 <= i < |nodes| ensures |Cells()[i].flags| == readerCount {
        assert Linked(i) && Cells()[i] == nodes[i].View();
      }
    }

    method Mark(dummy: Node, id: nat, ghost i: nat)
      requires Valid() && id < readerCount && i < |nodes| && dummy == nodes[i]
      modifies dummy.readers
      ensures Valid()
      ensures Cells() == old(Cells())[i := Marked(old(Cells())[i], id)]
    {
      assert Linked(i);
      dummy.SetRead(id);
      forall j | 0 <= j < |nodes| ensures Linked(j) {
        assert old(Linked(j));
      }
    }

    method ReadByAll(dummy: Node) returns (all: bool)
      requires dummy.live && dummy.readers.Length == readerCount
      ensures all <==> false !in dummy.readers[..]
    {
      for i := 0 to readerCount
        invariant false !in dummy.readers[..i]
      {
        if !dummy.IsRead(i) {
          assert dummy.readers[..][i] == false;
          return false;
        }
      }
      assert dummy.readers[..readerCount] == dummy.readers[..];
      return true;
    }

    /** Drops and releases the first node if every reader has read it. */
    method Reclaim()
      requires Valid() && nodes != []
      modifies this, repr
      ensures Valid() && repr == old(repr)
      ensures var read := false !in old(Cells())[0].flags;
        && nodes == (if read then old(nodes)[1..] else old(nodes))
        && Cells() == (if read then old(Cells())[1..] else old(Cells()))
        && (read ==> Released(old(nodes)[0]))
    {
      assert Linked(0) && Cells()[0].flags == head.readers[..];
      var all := ReadByAll(head);
      if !all { return; }
      var dummy := head;
      if head == tail {
        assert |nodes| == 1;
        head, tail := null, null;
      } else {
        head := head.Next();
      }
      nodes := nodes[1..];
      Release(dummy);
      forall i | 0 <= i < |nodes| ensures Linked(i) {
        assert old(Linked(i + 1));
      }
    }

    /** The node that goes is the first one, once the last reader has read it. */
    method Remove(id: nat) returns (result: Result)
      requires Valid()
      modifies this, repr
      ensures Valid() && Sized(old(Cells()), readerCount) && repr == old(repr)
      ensures (Cells(), result) == BufferSpec.Remove(old(Cells()), id, readerCount)
      ensures nodes == old(nodes) || (old(nodes) != [] && nodes == old(nodes)[1..] && Released(old(nodes)[0]))
    {
      AllSized();
      if id >= readerCount { return Failure; }
      if head == null { return NoData; }
      ghost var cells := Cells();
      var dummy, i := FindUnread(id);
      if dummy == null { return NoData; }
      assert Linked(i);
      result := Success(dummy.Data());
      Mark(dummy, id, i);
      assert Cells()[i] == Marked(cells[i], id);
      if dummy != head { return; }
      Reclaim();
    }

    /** sbuffer_free: releases whatever nodes are left, each once, front to back. */
    method Free() returns (released: seq<Node>)
      requires Valid()
      modifies this, repr
      ensures released == old(nodes) && nodes == [] && head == null && repr == old(repr)
      ensures forall i :: 0 <= i < |released| ==> Released(released[i])
    {
      released := [];
      ghost var all := nodes;
      while head != null
        invariant |released| <= |all| && released == all[..|released|] && nodes == all[|released|..]
        invariant Chained() && repr == old(repr)
        invariant forall i :: 0 <= i < |released| ==> Released(all[i])
        decreases |nodes|
      {
        released := released + [head];
        ReleaseHead();
      }
    }

    method ReleaseHead()
      requires Chained() && nodes != []
      modifies this, repr
      ensures Chained() && nodes == old(nodes)[1..] && repr == old(repr) && Released(old(nodes)[0])
      ensures forall node :: node in old(repr) && node is Node && old(Released(node)) ==> Released(node)
    {
      var dummy := head;
      assert Linked(0);
      head := head.Next();
      nodes := nodes[1..];
      Release(dummy);
      forall i | 0 <= i < |nodes| ensures Linked(i) {
        assert old(Linked(i + 1));
      }
    }
  }

  lemma FirstUnreadIs(cells: seq<Cell>, id: nat, i: nat)
    requires HasFlag(cells, id)
    requires i <= |cells| && (forall j :: 0 <= j < i ==> cells[j].flags[id])
    requires i < |cells| ==> !cells[i].flags[id]
    ensures FirstUnread(cells, id) == i
  {
  }
}
