/** Transfer buffers and the singly linked lists that hold them. */
module Buffers {
  import opened Bytes
  import opened OpStates

  /** A transfer buffer; the bytes it holds are the first `used` of its storage. */
  class Buffer {
    const address: nat
    const data: array<byte>
    var used: nat
    var transferOffset: nat
    var next: Buffer?

    constructor (address: nat, capacity: nat)
      ensures this.address == address && fresh(data) && data.Length == capacity
      ensures used == 0 && transferOffset == UINT64_MAX && next == null
    {
      this.address, data := address, new byte[capacity];
      used, transferOffset := 0, UINT64_MAX;
      next := null;
    }

    /** The first `n` bytes stored; a count beyond the capacity marks a buffer that holds none. */
    ghost function Bytes(n: nat): bytes
      reads data
    {
      if n <= data.Length then data[..n] else []
    }

    /** The buffer as a value. */
    ghost function Value(): Slot
      reads this`used, this`transferOffset, data
    {
      Slot(address, data.Length, used, transferOffset, Bytes(used))
    }

    /** Drops the first `n` bytes and moves the others to the front. */
    method Drop(n: nat)
      requires n <= used <= data.Length
      modifies this`used, this`transferOffset, data
      ensures Value() == Dropped(old(Value()), n)
    {
      used, transferOffset := used - n, transferOffset + n;
      forall k | 0 <= k < used {
        data[k] := data[n + k];
      }
    }

    /** Stores more bytes after those it holds. */
    method Put(input: bytes)
      requires used + |input| <= data.Length
      modifies this`used, data
      ensures var b := old(Value()); Value() == b.(used := b.used + |input|, data := b.data + input)
    {
      forall k | 0 <= k < |input| {
        data[used + k] := input[k];
      }
      used := used + |input|;
    }
  }

  ghost function Dropped(b: Slot, n: nat): Slot
    requires n <= b.used && n <= |b.data|
  {
    b.(used := b.used - n, at := b.at + n, data := b.data[n..])
  }

  ghost function Storage(nodes: seq<Buffer>): set<array<byte>> {
    set b | b in nodes :: b.data
  }

  ghost function Nth(nodes: seq<Buffer>, i: int): Buffer? {
    if 0 <= i < |nodes| then nodes[i] else null
  }

  ghost function Values(nodes: seq<Buffer>): (slots: seq<Slot>)
    reads nodes`used, nodes`transferOffset, Storage(nodes)
    ensures |slots| == |nodes|
    ensures forall i {:trigger slots[i]} :: 0 <= i < |nodes| ==> slots[i] == nodes[i].Value()
  {
    if nodes == [] then [] else [nodes[0].Value()] + Values(nodes[1..])
  }

  lemma ValuesInsert(nodes: seq<Buffer>, slots: seq<Slot>, b: Buffer, i: nat)
    requires i <= |nodes| == |slots| && forall j :: 0 <= j < |nodes| ==> slots[j] == nodes[j].Value()
    ensures Values(nodes[..i] + [b] + nodes[i..]) == slots[..i] + [b.Value()] + slots[i..]
  {
    var more, goal := nodes[..i] + [b] + nodes[i..], slots[..i] + [b.Value()] + slots[i..];
    forall k | 0 <= k < |more|
      ensures goal[k] == more[k].Value()
    {
      if k < i {
        assert more[k] == nodes[k] && goal[k] == slots[k];
      } else if k > i {
        assert more[k] == nodes[k - 1] && goal[k] == slots[k - 1];
      }
    }
  }

  ghost predicate NoDuplicates(nodes: seq<Buffer>) {
    forall i, j :: 0 <= i < j < |nodes| ==> nodes[i] != nodes[j]
  }

  lemma ValuesWithout(nodes: seq<Buffer>, slots: seq<Slot>, i: nat)
    requires i < |nodes| == |slots| && forall j :: 0 <= j < |nodes| ==> slots[j] == nodes[j].Value()
    ensures Values(nodes[..i] + nodes[i + 1..]) == Without(slots, i)
  {
  }

  /** A null-terminated chain of buffers; `nodes` are the buffers from the head on, `members` the same as a set. */
  class BufferList {
    var head: Buffer?
    ghost var nodes: seq<Buffer>
    ghost var members: set<Buffer>

    constructor ()
      ensures Valid() && nodes == [] && members == {}
    {
      head, nodes, members := null, [], {};
    }

    ghost predicate Valid()
      reads this, members`next
    {
      && head == Nth(nodes, 0)
      && (forall i :: 0 <= i < |nodes| ==> nodes[i] in members)
      && (forall i {:trigger nodes[i].next} :: 0 <= i < |nodes| ==> nodes[i].next == Nth(nodes, i + 1))
    }

    /** Following the links from the head never comes back to a buffer. */
    lemma Acyclic()
      requires Valid()
      ensures NoDuplicates(nodes)
    {
      forall i, j | 0 <= i < j < |nodes|
        ensures nodes[i] != nodes[j]
      {
        if nodes[i] == nodes[j] {
          SameRest(i, j);
        }
      }
    }

    lemma {:induction false} SameRest(i: nat, j: nat)
      requires Valid() && i < j < |nodes| && nodes[i] == nodes[j]
      ensures false
      decreases |nodes| - j
    {
      assert nodes[i].next == Nth(nodes, i + 1) && nodes[j].next == Nth(nodes, j + 1);
      if j < |nodes| - 1 {
        assert nodes[i + 1] == nodes[j + 1];
        SameRest(i + 1, j + 1);
      }
    }

    /** The buffers' values, in order. */
    ghost function Slots(): seq<Slot>
      reads this, nodes`used, nodes`transferOffset, Storage(nodes)
    {
      Values(nodes)
    }

    /** The buffer whose `next` ends the chain; null when that link is the head itself. */
    ghost function Last(): Buffer?
      reads this
    {
      Nth(nodes, |nodes| - 1)
    }

    /** A list none of whose buffers has been touched is as it was. */
    twostate lemma Untouched()
      requires old(Valid()) && nodes == old(nodes) && head == old(head)
      requires members == old(members) && forall b :: b in members ==> b.next == old(b.next)
      requires forall b :: b in members ==>
        b.used == old(b.used) && b.transferOffset == old(b.transferOffset) && b.data[..] == old(b.data[..])
      ensures Valid() && Slots() == old(Slots())
    {
      forall i | 0 <= i < |nodes|
        ensures nodes[i].Value() == old(nodes[i].Value())
      {
      }
    }

    /** Nor does storing into a buffer that holds nothing yet change a list. */
    twostate lemma Stored(x: Buffer)
      requires old(Valid()) && nodes == old(nodes) && head == old(head) && x.used == 0
      requires members == old(members) && forall b :: b in members ==> unchanged(b) && (b != x ==> unchanged(b.data))
      ensures Valid() && Slots() == old(Slots())
    {
      forall i | 0 <= i < |nodes|
        ensures nodes[i].Value() == old(nodes[i].Value())
      {
      }
    }

    /** So is one whose head alone holds something else. */
    twostate lemma HeadOnly()
      requires old(Valid()) && nodes == old(nodes) && head == old(head) && nodes != []
      requires members == old(members) && forall b :: b in members ==> b.next == old(b.next)
      requires forall b :: b in members && b != head ==>
        b.used == old(b.used) && b.transferOffset == old(b.transferOffset) && b.data[..] == old(b.data[..])
      ensures Valid() && Slots() == [head.Value()] + old(Slots())[1..]
    {
      Acyclic();
      forall i | 1 <= i < |nodes|
        ensures nodes[i].Value() == old(nodes[i].Value())
      {
      }
    }

    /** Drops the first bytes that the head holds. */
    method DropFromHead(n: nat)
      requires Valid() && head != null && n <= head.used <= head.data.Length
      requires forall b :: b in members && b != head ==> b.data != head.data
      modifies head`used, head`transferOffset, head.data
      ensures Valid() && Slots() == [Dropped(old(Slots())[0], n)] + old(Slots())[1..]
    {
      ghost var slots := Slots();
      assert head.Value() == slots[0];
      head.Drop(n);
      HeadOnly();
    }

    method PushFront(b: Buffer)
      requires Valid() && b !in members
      modifies this, b`next
      ensures Valid() && nodes == [b] + old(nodes) && members == old(members) + {b}
      ensures Slots() == [b.Value()] + old(Slots())
    {
      ghost var was := nodes;
      b.next := head;
      head := b;
      nodes, members := [b] + was, members + {b};
      assert nodes[1..] == was;
    }

    /** Takes the head off; its link is cleared. */
    method PopFront() returns (b: Buffer)
      requires Valid() && nodes != []
      modifies this, head`next
      ensures Valid() && b == old(nodes[0]) && nodes == old(nodes[1..]) && b.next == null
      ensures b in old(members) && members == old(members) - {b}
      ensures Slots() == old(Slots())[1..]
    {
      Acyclic();
      b := head;
      head := b.next;
      b.next := null;
      nodes, members := nodes[1..], members - {b};
    }

    /** Links `b` after the node `last`, or as the head when `last` is null. */
    method Append(last: Buffer?, b: Buffer)
      requires Valid() && b !in members && last == Last() && b.next == null
      modifies this, members`next
      ensures Valid() && Last() == b && nodes == old(nodes) + [b] && members == old(members) + {b}
      ensures Slots() == old(Slots()) + [b.Value()]
    {
      ghost var before := Slots();
      AppendNode(last, b);
      assert Slots()[..|before|] == before;
    }

    method AppendNode(last: Buffer?, b: Buffer)
      requires Valid() && b !in members && last == Last() && b.next == null
      modifies this, members`next
      ensures Valid() && nodes == old(nodes) + [b] && members == old(members) + {b}
    {
      Acyclic();
      if last == null {
        head := b;
      } else {
        last.next := b;
      }
      nodes, members := nodes + [b], members + {b};
    }

    /** The first buffer with this address and its predecessor, null for none. */
    method Locate(address: nat) returns (prev: Buffer?, b: Buffer?, ghost i: nat)
      requires Valid()
      ensures i <= |nodes| && b == Nth(nodes, i) && prev == Nth(nodes, i - 1)
      ensures i == Find(Slots(), address)
      ensures b != null ==> b.address == address
    {
      prev, b, i := null, head, 0;
      while b != null && b.address != address
        invariant 0 <= i <= |nodes| && b == Nth(nodes, i) && prev == Nth(nodes, i - 1)
        invariant forall j :: 0 <= j < i ==> nodes[j].address != address
        decreases |nodes| - i
      {
        prev, b, i := b, b.next, i + 1;
      }
      FindIs(Slots(), address, i);
    }

    /** Takes the node `b` that follows `prev` out of the chain. */
    method UnlinkAfter(prev: Buffer, b: Buffer, ghost i: nat)
      requires Valid() && 0 < i < |nodes| && b == nodes[i] && prev == nodes[i - 1]
      modifies this, prev`next
      ensures Valid() && nodes == old(nodes)[..i] + old(nodes)[i + 1..] && members == old(members) - {b}
    {
      Acyclic();
      prev.next := b.next;
      nodes, members := nodes[..i] + nodes[i + 1..], members - {b};
    }

    /** Takes the node `b` out, which follows `prev` or is the head. */
    method Unlink(prev: Buffer?, b: Buffer, ghost i: nat, ghost slots: seq<Slot>)
      requires Valid() && i < |nodes| && b == nodes[i] && prev == Nth(nodes, i - 1) && slots == Slots()
      modifies this, members`next
      ensures Valid() && Slots() == Without(slots, i) && members == old(members) - {b}
    {
      ghost var was := nodes;
      if prev == null {
        var _ := PopFront();
      } else {
        UnlinkAfter(prev, b, i);
      }
      ValuesWithout(was, slots, i);
      assert nodes == was[..i] + was[i + 1..];
    }

    /** Unlinks the first buffer with this address, if there is one; its fields stay as they are. */
    method Take(address: nat) returns (b: Buffer?)
      requires Valid()
      modifies this, members`next
      ensures Valid() && b == Nth(old(nodes), Find(old(Slots()), address))
      ensures if b == null then Slots() == old(Slots()) && members == old(members)
        else b in old(members) && members == old(members) - {b}
             && Slots() == Without(old(Slots()), Find(old(Slots()), address))
    {
      ghost var slots := Slots();
      var prev, node, i := Locate(address);
      assert Slots() == slots;
      assert i == Find(slots, address);
      b := node;
      if node != null {
        Unlink(prev, node, i, slots);
      }
    }

    /** The first node that ends after `b` starts, and its predecessor, null for none. */
    method Seek(b: Buffer, ghost slots: seq<Slot>, ghost slot: Slot) returns (prev: Buffer?, tmp: Buffer?, ghost i: nat)
      requires Valid() && slots == Slots() && slot == b.Value()
      ensures i <= |nodes| && tmp == Nth(nodes, i) && prev == Nth(nodes, i - 1)
      ensures Insert(slots, slot) == slots[..i] + [slot] + slots[i..]
      ensures prev != null ==> prev.transferOffset + prev.used <= b.transferOffset
      ensures tmp != null ==> b.transferOffset < tmp.transferOffset + tmp.used
    {
      prev, tmp, i := null, head, 0;
      while tmp != null && tmp.transferOffset + tmp.used <= b.transferOffset
        invariant 0 <= i <= |nodes| && tmp == Nth(nodes, i) && prev == Nth(nodes, i - 1)
        invariant forall j :: 0 <= j < i ==> nodes[j].transferOffset + nodes[j].used <= b.transferOffset
        decreases |nodes| - i
      {
        prev, tmp, i := tmp, tmp.next, i + 1;
      }
      InsertIs(slots, slot, i);
    }

    /** Links `b` after `prev`, or as the head when `prev` is null. */
    method LinkAt(prev: Buffer?, b: Buffer, ghost i: nat)
      requires Valid() && b !in members && i <= |nodes| && prev == Nth(nodes, i - 1)
      modifies this, members`next, b`next
      ensures Valid() && nodes == old(nodes)[..i] + [b] + old(nodes)[i..] && members == old(members) + {b}
    {
      if prev == null {
        PushFront(b);
        assert old(nodes)[..0] + [b] + old(nodes)[0..] == [b] + old(nodes);
      } else {
        LinkAfter(prev, b, i);
      }
    }

    /** The same, told of the values. */
    method SlotAt(prev: Buffer?, b: Buffer, ghost i: nat, ghost slots: seq<Slot>, ghost slot: Slot)
      requires Valid() && b !in members && i <= |nodes| && prev == Nth(nodes, i - 1)
      requires slots == Slots() && slot == b.Value()
      modifies this, members`next, b`next
      ensures Valid() && nodes == old(nodes)[..i] + [b] + old(nodes)[i..] && members == old(members) + {b}
      ensures Slots() == slots[..i] + [slot] + slots[i..]
    {
      ghost var was := nodes;
      LinkAt(prev, b, i);
      assert b.Value() == slot;
      ValuesInsert(was, slots, b, i);
    }

    /** Inserts `b` in order, given the last buffer; says which is last now. */
    method InsertInOrder(last: Buffer?, b: Buffer) returns (newLast: Buffer?)
      requires Valid() && b !in members && last == Last()
      modifies this, members`next, b`next
      ensures Valid() && newLast == Last() && members == old(members) + {b}
      ensures Slots() == Insert(old(Slots()), old(b.Value()))
    {
      ghost var slots, slot := Slots(), b.Value();
      var prev, tmp, i := Seek(b, slots, slot);
      newLast := if tmp == null then b else last;
      SlotAt(prev, b, i, slots, slot);
    }

    /** Links `b` between `prev` and the node after it. */
    method LinkAfter(prev: Buffer, b: Buffer, ghost i: nat)
      requires Valid() && b !in members && 0 < i <= |nodes| && prev == nodes[i - 1]
      modifies this, prev`next, b`next
      ensures Valid() && nodes == old(nodes)[..i] + [b] + old(nodes)[i..] && members == old(members) + {b}
    {
      ghost var was := nodes;
      Acyclic();
      b.next := prev.next;
      prev.next := b;
      members := members + {b};
      nodes := was[..i] + [b] + was[i..];
      forall k | 0 <= k < |nodes|
        ensures nodes[k].next == Nth(nodes, k + 1)
      {
        if k < i - 1 {
          assert nodes[k] == was[k] != prev && nodes[k + 1] == was[k + 1];
        } else if k > i {
          assert nodes[k] == was[k - 1] != prev && Nth(nodes, k + 1) == Nth(was, k);
        }
      }
    }
  }
}
