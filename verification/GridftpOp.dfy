/** The transfer state of one GridFTP operation, shared by the upload and download callbacks. */
module GridftpOps {
  import opened Bytes
  import opened OpStates
  import opened Buffers

  class GridftpOp {
    var result: Outcome
    var offset: nat
    var endOffset: nat
    var eof: bool
    var serverEof: bool
    const pending: BufferList
    /** The last pending buffer; null when the next one is to be stored at the head of the list. */
    var last: Buffer?
    var current: Buffer?
    const registered: BufferList
    var registeredCount: int
    const free: BufferList
    var issued: nat
    /** Every buffer there is, and the storage of each. */
    ghost var buffers: set<Buffer>
    ghost var storage: set<array<byte>>

    /** No two buffers share their address or their storage, which is of a size that can be counted. */
    ghost predicate Apart()
      reads this`buffers, this`storage, this`issued
    {
      && (forall b, c :: b in buffers && c in buffers && (b.data == c.data || b.address == c.address) ==> b == c)
      && forall b :: b in buffers ==> b.data in storage && b.data.Length < UINT64_MAX && b.address < issued
    }

    ghost function Repr(): set<object>
      reads this`buffers, this`storage
    {
      {this, registered, free, pending} + buffers + storage
    }

    /** The places a buffer can be in. */
    ghost function Places(b: Buffer): nat
      reads this`current, registered, free, pending
    {
      (if b in registered.nodes then 1 else 0) + (if b in free.nodes then 1 else 0)
      + (if b in pending.nodes then 1 else 0) + (if b == current then 1 else 0)
    }

    /** Where the values are conserved no buffer has been lost, and none is in two places. */
    lemma NoneIsLost(b: Buffer)
      requires Valid() && Conserved(State()) && b in buffers
      ensures Places(b) == 1
    {
      assert Held(State(), b.address) == 1;
      if b !in registered.nodes {
        NotNamed(registered, b);
      }
      if b !in free.nodes {
        NotNamed(free, b);
      }
      if b !in pending.nodes {
        NotNamed(pending, b);
      }
    }

    /**
     * The lists have no cycle, the last link is that of the last pending buffer, or of the list when it
     * is empty, and every buffer ever allocated is in exactly one place.
     */
    ghost predicate Accounted()
      reads this`buffers, this`current, this`last, registered, free, pending
    {
      && NoDuplicates(registered.nodes) && NoDuplicates(free.nodes) && NoDuplicates(pending.nodes)
      && last == Nth(pending.nodes, |pending.nodes| - 1)
      && forall b :: b in buffers ==> Places(b) == 1
    }

    lemma AllAccounted()
      requires Valid() && Conserved(State())
      ensures Accounted()
    {
      registered.Acyclic();
      free.Acyclic();
      pending.Acyclic();
      forall b | b in buffers
        ensures Places(b) == 1
      {
        NoneIsLost(b);
      }
    }

    lemma NotNamed(list: BufferList, b: Buffer)
      requires Valid() && list in {registered, free, pending} && b in buffers && b !in list.nodes
      ensures Times(list.Slots(), b.address) == 0
    {
      var slots := list.Slots();
      forall i | 0 <= i < |slots|
        ensures slots[i].address != b.address
      {
        assert list.nodes[i] in list.nodes;
      }
      TimesNone(slots, b.address);
    }

    /** What the server has been given stays given, and nothing is stored over it. */
    twostate predicate Served()
      reads this`buffers, this`storage, registered, storage
      requires registered.members <= buffers && forall b :: b in buffers ==> b.data in storage
    {
      && old(registered.members) <= registered.members
      && forall b :: b in old(registered.members) ==> b.data[..] == old(b.data[..])
    }

    /** Buffers are only ever added, each of them new. */
    twostate predicate Grown()
      reads this`buffers, this`storage
    {
      && (forall b :: b in buffers ==> b in old(buffers) || fresh(b))
      && forall d :: d in storage ==> d in old(storage) || fresh(d)
    }

    /** The three lists are chains of their own, and the current buffer is in none of them. */
    ghost predicate Valid()
      reads this`buffers, this`storage, this`issued, this`current, this`last
      reads registered, free, pending, buffers`next
    {
      && registered != free && registered != pending && free != pending
      && registered.members <= buffers && free.members <= buffers && pending.members <= buffers
      && registered.members !! free.members && registered.members !! pending.members && free.members !! pending.members
      && registered.Valid() && free.Valid() && pending.Valid() && last == pending.Last()
      && (current != null ==> Kept(current) && current.next == null)
      && Apart()
    }

    /** A buffer in none of the lists. */
    ghost predicate Kept(b: Buffer)
      reads this`buffers, registered, free, pending
    {
      b in buffers && b !in registered.members && b !in free.members && b !in pending.members
    }

    ghost function Current(): Option<Slot>
      reads this`current, current, if current == null then {} else {current.data}
    {
      if current == null then None else Some(current.Value())
    }

    twostate lemma CurrentUntouched()
      requires current == old(current)
      requires current != null ==>
        && current.used == old(current.used) && current.transferOffset == old(current.transferOffset)
        && current.data[..] == old(current.data[..])
      ensures Current() == old(Current())
    {
    }

    /** The operation as a value. */
    ghost function State(): OpState
      requires Valid()
      reads this, registered, free, pending, buffers, storage
    {
      OpState(result, offset, endOffset, eof, serverEof, pending.Slots(), Current(),
              registered.Slots(), registeredCount, free.Slots(), issued)
    }

    /** A buffer in the hands of the callback at work. */
    ghost predicate Loose(b: Buffer)
      reads this`buffers, this`current, registered, free, pending
    {
      Kept(b) && b != current
    }

    /** What touches no buffer and no list leaves them as they were. */
    twostate lemma ListsUntouched()
      requires old(Valid()) && current == old(current) && last == old(last)
      requires buffers == old(buffers) && storage == old(storage) && issued == old(issued)
      requires unchanged(registered, free, pending)
      requires forall b :: b in buffers ==> unchanged(b) && unchanged(b.data)
      ensures Valid() && Current() == old(Current())
      ensures pending.Slots() == old(pending.Slots()) && registered.Slots() == old(registered.Slots())
      ensures free.Slots() == old(free.Slots())
    {
      CurrentUntouched();
      registered.Untouched();
      free.Untouched();
      pending.Untouched();
    }

    /** Storing into a registered buffer that holds nothing yet changes no list. */
    twostate lemma StoredIn(b: Buffer)
      requires old(Valid()) && b in registered.members && b.used == 0 && old(b.used) == 0
      requires unchanged(this, registered, free, pending)
      requires forall x :: x in buffers ==> unchanged(x) && (x != b ==> unchanged(x.data))
      ensures Valid() && State() == old(State())
    {
      CurrentUntouched();
      registered.Stored(b);
      free.Untouched();
      pending.Untouched();
    }

    /** A transfer to REST; a length of -1 leaves it without an end. */
    constructor ForUpload(offset: nat, length: nat)
      ensures Valid() && fresh(registered) && fresh(free) && fresh(pending) && buffers == {} && storage == {}
      ensures State() == OpState(Success, offset, if length == UINT64_MAX then UINT64_MAX else offset + length,
                                 false, false, [], None, [], 0, [], 0)
    {
      result, this.offset := Success, offset;
      endOffset := if length == UINT64_MAX then UINT64_MAX else offset + length;
      eof, serverEof, current, registeredCount, issued := false, false, null, 0, 0;
      pending := new BufferList();
      last := null;
      registered := new BufferList();
      free := new BufferList();
      buffers, storage := {}, {};
    }

    /** A transfer from REST; a length of -1 leaves the end at 0. */
    constructor ForDownload(offset: nat, length: nat)
      ensures Valid() && fresh(registered) && fresh(free) && fresh(pending) && buffers == {} && storage == {}
      ensures State() == OpState(Success, offset, if length == UINT64_MAX then 0 else offset + length,
                                 false, false, [], None, [], 0, [], 0)
    {
      result, this.offset := Success, offset;
      endOffset := if length == UINT64_MAX then 0 else offset + length;
      eof, serverEof, current, registeredCount, issued := false, false, null, 0, 0;
      pending := new BufferList();
      last := null;
      registered := new BufferList();
      free := new BufferList();
      buffers, storage := {}, {};
    }

    // ---- moving buffers ----

    method PushFree(b: Buffer)
      requires Valid() && Loose(b)
      modifies free, b`next
      ensures Valid() && State() == old(State()).(free := [b.Value()] + old(State()).free)
    {
      free.PushFront(b);
      CurrentUntouched();
      pending.Untouched();
      registered.Untouched();
    }

    method PushRegistered(b: Buffer)
      requires Valid() && Loose(b)
      modifies registered, b`next
      ensures Valid() && State() == old(State()).(registered := [b.Value()] + old(State()).registered)
      ensures registered.members == old(registered.members) + {b}
    {
      registered.PushFront(b);
      CurrentUntouched();
      pending.Untouched();
      free.Untouched();
    }

    method PopFree() returns (b: Buffer)
      requires Valid() && free.nodes != []
      modifies free, free.head`next
      ensures Valid() && Loose(b) && b.next == null
      ensures b.Value() == old(State()).free[0] && State() == old(State()).(free := old(State()).free[1..])
    {
      b := free.PopFront();
      CurrentUntouched();
      pending.Untouched();
      registered.Untouched();
    }

    method PopPending() returns (b: Buffer)
      requires Valid() && pending.nodes != []
      modifies pending, this`last, pending.head`next
      ensures Valid() && Loose(b) && b.next == null
      ensures b.Value() == old(State()).pending[0]
      ensures State() == old(State()).(pending := old(State()).pending[1..])
    {
      ghost var s := State();
      b := UnlinkHead();
      assert pending.Slots() == s.pending[1..] && b.Value() == s.pending[0];
      CurrentUntouched();
      registered.Untouched();
      free.Untouched();
    }

    method UnlinkHead() returns (b: Buffer)
      requires pending.Valid() && last == pending.Last() && pending.nodes != []
      modifies pending, this`last, pending.head`next
      ensures pending.Valid() && last == pending.Last()
      ensures b == old(pending.nodes[0]) && b.next == null && b in old(pending.members)
      ensures pending.members == old(pending.members) - {b} && pending.Slots() == old(pending.Slots())[1..]
    {
      b := pending.PopFront();
      label Unlinked: if pending.head == null {
        last := null;
      }
      pending.Untouched@Unlinked();
    }

    /** Queues the buffer after those pending. */
    method AppendPending(b: Buffer)
      requires Valid() && Loose(b) && b.next == null
      modifies pending, this`last, pending.members`next
      ensures Valid() && State() == old(State()).(pending := old(State()).pending + [b.Value()])
    {
      ghost var s := State();
      LinkLast(b);
      assert pending.Slots() == s.pending + [b.Value()];
      CurrentUntouched();
      registered.Untouched();
      free.Untouched();
    }

    method LinkLast(b: Buffer)
      requires pending.Valid() && b !in pending.members && last == pending.Last() && b.next == null
      modifies pending, this`last, pending.members`next
      ensures pending.Valid() && last == pending.Last() && pending.members == old(pending.members) + {b}
      ensures b.next == null && pending.Slots() == old(pending.Slots()) + [b.Value()]
    {
      pending.Append(last, b);
      label Linked: last := b;
      pending.Untouched@Linked();
    }

    /** Puts the buffer in its place among those pending. */
    method InsertPending(b: Buffer)
      requires Valid() && Loose(b)
      modifies pending, this`last, pending.members`next, b`next
      ensures Valid() && State() == old(State()).(pending := Insert(old(State()).pending, old(b.Value())))
    {
      ghost var s, slot := State(), b.Value();
      LinkInOrder(b);
      assert pending.Slots() == Insert(s.pending, slot);
      CurrentUntouched();
      registered.Untouched();
      free.Untouched();
    }

    method LinkInOrder(b: Buffer)
      requires pending.Valid() && b !in pending.members && last == pending.Last()
      modifies pending, this`last, pending.members`next, b`next
      ensures pending.Valid() && last == pending.Last() && pending.members == old(pending.members) + {b}
      ensures pending.Slots() == Insert(old(pending.Slots()), old(b.Value()))
    {
      var newLast := pending.InsertInOrder(last, b);
      label Linked: last := newLast;
      pending.Untouched@Linked();
    }

    /** Takes the buffer with this address off the registered list. */
    method TakeRegistered(address: nat) returns (b: Buffer?)
      requires Valid()
      modifies registered, registered.members`next
      ensures Valid() && var i := Find(old(State()).registered, address);
        if i < |old(State()).registered| then
          b != null && Loose(b) && b == old(registered.nodes)[i] && b.Value() == old(State()).registered[i]
          && State() == old(State()).(registered := Without(old(State()).registered, i))
        else b == null && State() == old(State())
    {
      b := registered.Take(address);
      CurrentUntouched();
      pending.Untouched();
      free.Untouched();
    }

    /** A buffer that is not yet in any list. */
    method NewBuffer(length: nat) returns (b: Buffer)
      requires Valid() && length < UINT64_MAX
      modifies this`issued, this`buffers, this`storage
      ensures Valid() && Loose(b) && Grown()
      ensures b.next == null && b.Value() == Slot(old(issued), length, 0, UINT64_MAX, [])
      ensures State() == old(State()).(issued := old(issued) + 1)
    {
      ghost var s, slot := State(), Slot(issued, length, 0, UINT64_MAX, []);
      b := new Buffer(issued, length);
      assert b.Value() == slot;
      assert State() == s by {
        CurrentUntouched();
        registered.Untouched();
        free.Untouched();
        pending.Untouched();
      }
      Adopt(b);
    }

    method Adopt(b: Buffer)
      requires Valid() && b !in buffers && b.data.Length < UINT64_MAX && b.address == issued
      requires forall c :: c in buffers ==> c.data != b.data
      modifies this`issued, this`buffers, this`storage
      ensures Valid() && Loose(b) && buffers == old(buffers) + {b} && storage == old(storage) + {b.data}
      ensures State() == old(State()).(issued := old(issued) + 1)
    {
      ghost var s := State();
      issued, buffers, storage := issued + 1, buffers + {b}, storage + {b.data};
      assert Apart();
      CurrentUntouched();
      registered.Untouched();
      free.Untouched();
      pending.Untouched();
      assert State() == s.(issued := s.issued + 1);
    }

    method SetCurrent(b: Buffer)
      requires Valid() && current == null && Loose(b) && b.next == null
      modifies this`current
      ensures Valid() && current == b && State() == old(State()).(current := Some(b.Value()))
    {
      current := b;
      registered.Untouched();
      free.Untouched();
      pending.Untouched();
    }

    method ReleaseCurrent() returns (b: Buffer)
      requires Valid() && current != null
      modifies this`current
      ensures Valid() && Loose(b) && b.next == null && b == old(current)
      ensures b.Value() == old(State()).current.value && State() == old(State()).(current := None)
    {
      b := current;
      current := null;
      registered.Untouched();
      free.Untouched();
      pending.Untouched();
    }

    /** Notes how much a buffer in hand holds, and of what place in the file. */
    method Mark(b: Buffer, used: nat, at: nat)
      requires Valid() && Loose(b)
      modifies b`used, b`transferOffset
      ensures Valid() && Loose(b) && State() == old(State())
      ensures b.Value() == old(b.Value()).(used := used, at := at, data := b.Bytes(used))
    {
      b.used, b.transferOffset := used, at;
      CurrentUntouched();
      registered.Untouched();
      free.Untouched();
      pending.Untouched();
    }

    // ---- what the callbacks do with them ----

    /** Makes sure that there is a current buffer: else the first free one, else a new one. */
    method BufferGet(size: nat, blockSize: nat)
      requires Valid() && Max(size, blockSize) < UINT64_MAX
      modifies this, free, buffers
      ensures Valid() && current != null && Grown() && Served()
      ensures State() == OpStates.BufferGet(old(State()), size, blockSize)
    {
      ghost var s := State();
      if current == null {
        if free.head == null {
          assert s.free == [];
          NewFree(Max(size, blockSize));
        }
        UseFree();
      }
    }

    method NewFree(length: nat)
      requires Valid() && length < UINT64_MAX
      modifies this, free, buffers
      ensures Valid() && current == old(current) && Grown()
      ensures var s := old(State());
        State() == s.(free := [Slot(s.issued, length, 0, UINT64_MAX, [])] + s.free, issued := s.issued + 1)
    {
      ghost var s := State();
      var b := NewBuffer(length);
      assert State() == s.(issued := s.issued + 1);
      PushFree(b);
    }

    method UseFree()
      requires Valid() && current == null && free.nodes != []
      modifies this`current, free, free.members`next
      ensures Valid() && current != null
      ensures var s := old(State()); State() == s.(current := Some(s.free[0]), free := s.free[1..])
    {
      ghost var s := State();
      var b := PopFree();
      assert State() == s.(free := s.free[1..]);
      SetCurrent(b);
    }

    /** Moves what a partly copied pending head still holds to the front of its storage. */
    method ShiftHead(n: nat)
      requires Valid() && pending.nodes != [] && n <= pending.head.used <= pending.head.data.Length
      modifies pending.head`used, pending.head`transferOffset, pending.head.data
      ensures Valid()
      ensures var s := old(State()); State() == s.(pending := [Dropped(s.pending[0], n)] + s.pending[1..])
    {
      ghost var s := State();
      pending.DropFromHead(n);
      CurrentUntouched();
      registered.Untouched();
      free.Untouched();
    }

    /** Copies input into the current buffer, after what it holds. */
    method FillCurrent(input: bytes)
      requires Valid() && current != null && current.used + |input| <= current.data.Length
      modifies current`used, current.data
      ensures Valid()
      ensures var s := old(State()); var b := s.current.value;
        State() == s.(current := Some(b.(used := b.used + |input|, data := b.data + input)))
    {
      ghost var s := State();
      current.Put(input);
      registered.Untouched();
      free.Untouched();
      pending.Untouched();
    }

    /** Counts bytes that have been passed on. */
    method Uploaded(n: nat)
      requires Valid()
      modifies this`offset
      ensures Valid() && State() == old(State()).(offset := old(offset) + n)
      ensures pending.nodes == old(pending.nodes)
    {
      offset := offset + n;
      ListsUntouched();
    }

    /** The first failure stays the operation's result. */
    method Note(outcome: Outcome)
      requires Valid()
      modifies this`result
      ensures Valid() && State() == old(State()).(result := if old(result).Success? then outcome else old(result))
    {
      if result.Success? {
        result := outcome;
      }
      ListsUntouched();
    }

    /** The end has been seen; the caller is told of it when the server has flagged it. */
    method NoteEnd(flagged: bool, seen: bool)
      requires Valid()
      modifies this`eof, this`serverEof
      ensures Valid() && State() == old(State()).(serverEof := old(serverEof) || flagged, eof := old(eof) || seen)
    {
      serverEof, eof := serverEof || flagged, eof || seen;
      ListsUntouched();
    }

    /** Counts one more outstanding write, of `n` bytes. */
    method Launched(n: nat)
      requires Valid()
      modifies this`registeredCount, this`offset
      ensures Valid() && State() == old(State()).(count := old(registeredCount) + 1, offset := old(offset) + n)
      ensures pending.nodes == old(pending.nodes)
    {
      registeredCount, offset := registeredCount + 1, offset + n;
      ListsUntouched();
    }

    /** Counts one outstanding write less. */
    method Landed()
      requires Valid()
      modifies this`registeredCount
      ensures Valid() && State() == old(State()).(count := old(registeredCount) - 1)
    {
      registeredCount := registeredCount - 1;
      ListsUntouched();
    }
  }
}
