/** The read callbacks that repack response data into GridFTP writes, in place. */
module TilerMonitor {
  import opened Bytes
  import opened OpStates
  import opened Reorder
  import opened Tiler
  import opened Buffers
  import opened GridftpOps

  // ---- sending ----

  /** What the server is asked to write: all that the pending head holds, at the operation's offset. */
  method HeadWrite(op: GridftpOp, ghost s: OpState) returns (write: Write)
    requires op.Valid() && op.State() == s && op.pending.nodes != []
    ensures write == Write(s.pending[0].address, s.offset, s.pending[0].data)
  {
    var buffer := op.pending.head;
    assert buffer.Value() == s.pending[0];
    var data := if buffer.used <= buffer.data.Length then buffer.data[..buffer.used] else [];
    write := Write(buffer.address, op.offset, data);
  }

  /** Counts the pending head's write and moves the buffer to those registered. */
  method RegisterHead(op: GridftpOp, ghost s: OpState)
    requires op.Valid() && op.State() == s && op.pending.nodes != []
    modifies op, op.pending, op.registered, op.buffers
    ensures old(op.registered.members) <= op.registered.members
    ensures op.Valid() && op.Grown() && op.State() == SendOne(s)
  {
    ghost var t := s.(count := s.count + 1, offset := s.offset + s.pending[0].used);
    assert op.pending.head.Value() == s.pending[0];
    op.Launched(op.pending.head.used);
    assert op.State() == t;
    MoveHead(op, t);
  }

  method MoveHead(op: GridftpOp, ghost s: OpState)
    requires op.Valid() && op.State() == s && op.pending.nodes != []
    modifies op, op.pending, op.registered, op.buffers
    ensures old(op.registered.members) <= op.registered.members
    ensures op.Valid() && op.Grown()
    ensures op.State() == s.(pending := s.pending[1..], registered := [s.pending[0]] + s.registered)
  {
    ghost var head, t := s.pending[0], s.(pending := s.pending[1..]);
    var b := op.PopPending();
    assert op.State() == t && b.Value() == head;
    op.PushRegistered(b);
  }

  /** Registers one write. */
  method SendHead(op: GridftpOp, ghost s: OpState) returns (write: Write, ghost t: OpState)
    requires op.Valid() && op.State() == s && op.pending.nodes != []
    modifies op, op.pending, op.registered, op.buffers
    ensures old(op.registered.members) <= op.registered.members
    ensures op.Valid() && op.Grown() && op.State() == t && t == SendOne(s)
    ensures write == Write(s.pending[0].address, s.offset, s.pending[0].data)
  {
    write := HeadWrite(op, s);
    RegisterHead(op, s);
    t := SendOne(s);
  }

  /** One write more was accepted, after those in `done`. */
  lemma SendStep(s: OpState, left: Replies, done: seq<Write>)
    requires s.pending != [] && left.grant != 0
    ensures var r := SendPending(s, left); var more := SendPending(SendOne(s), left.(grant := left.grant - 1));
      && r.op == more.op && r.outcome == more.outcome
      && done + r.writes == done + [Write(s.pending[0].address, s.offset, s.pending[0].data)] + more.writes
  {
    var more := SendPending(SendOne(s), left.(grant := left.grant - 1));
    Assoc(done, [Write(s.pending[0].address, s.offset, s.pending[0].data)], more.writes);
  }

  /** One more write, after those in `done`. */
  method SendMore(op: GridftpOp, left: Replies, done: seq<Write>, ghost s: OpState, ghost rest: Sent)
    returns (writes: seq<Write>, ghost t: OpState, ghost more: Sent)
    requires op.Valid() && op.State() == s && op.pending.nodes != [] && left.grant != 0
    requires rest == SendPending(s, left)
    modifies op, op.pending, op.registered, op.buffers
    ensures old(op.registered.members) <= op.registered.members
    ensures op.Valid() && op.Grown() && op.State() == t && |t.pending| < |s.pending|
    ensures more == SendPending(t, left.(grant := left.grant - 1))
    ensures more.op == rest.op && more.outcome == rest.outcome && writes + more.writes == done + rest.writes
  {
    SendStep(s, left, done);
    more := SendPending(SendOne(s), left.(grant := left.grant - 1));
    var write;
    write, t := SendHead(op, s);
    writes := done + [write];
  }

  /** Notes the refusal of a write, if one is left to be made. */
  method NoteRefusal(op: GridftpOp, left: Replies, ghost s: OpState) returns (result: Outcome)
    requires op.Valid() && op.State() == s && (op.pending.nodes != [] ==> left.grant == 0)
    modifies op
    ensures op.Valid() && op.Grown() && op.registered.members == old(op.registered.members)
    ensures Sent(op.State(), [], result) == SendPending(s, left)
  {
    result := Success;
    if op.pending.head != null {
      op.Note(left.fault);
      result := left.fault;
    }
  }

  /** Registers the pending buffers as writes at consecutive offsets, until one is refused. */
  method SendPendingBuffers(op: GridftpOp, replies: Replies, ghost s: OpState)
    returns (result: Outcome, writes: seq<Write>)
    requires op.Valid() && op.State() == s
    modifies op, op.pending, op.registered, op.buffers
    ensures old(op.registered.members) <= op.registered.members
    ensures op.Valid() && op.Grown() && Sent(op.State(), writes, result) == SendPending(s, replies)
  {
    writes := [];
    var left := replies;
    ghost var t, goal := s, SendPending(s, replies);
    ghost var rest := goal;
    while op.pending.head != null && left.grant != 0
      invariant old(op.registered.members) <= op.registered.members
      invariant op.Valid() && op.Grown() && op.State() == t && rest == SendPending(t, left)
      invariant rest.op == goal.op && rest.outcome == goal.outcome && writes + rest.writes == goal.writes
      decreases |t.pending|
    {
      writes, t, rest := SendMore(op, left, writes, t, rest);
      left := left.(grant := left.grant - 1);
    }
    result := NoteRefusal(op, left, t);
  }

  // ---- filling ----

  /** One pass over a non-empty input: fills the current buffer and queues it when it is full. */
  method FillBuffer(op: GridftpOp, input: bytes, srv: Server, ghost s: OpState) returns (n: nat)
    requires op.Valid() && op.State() == s && Roomy(s) && input != [] && 0 < srv.blockSize
    requires Max(|input|, srv.blockSize) < UINT64_MAX
    modifies op, op.free, op.pending, op.buffers, op.storage
    ensures op.Valid() && op.Grown() && op.Served() && (op.State(), n) == Accept(s, input, srv)
    ensures 0 < n && Roomy(op.State())
  {
    ghost var g, r := BufferGet(s, |input|, srv.blockSize), Accept(s, input, srv);
    Accepted(s, input, srv, g);
    op.BufferGet(|input|, srv.blockSize);
    n := TakeIn(op, input, g);
    assert (op.State(), n) == r;
  }

  /** Copies input into the current buffer, and queues it when it is full. */
  method TakeIn(op: GridftpOp, input: bytes, ghost g: OpState) returns (n: nat)
    requires op.Valid() && op.State() == g && g.current.Some? && HasRoom(g.current.value) && input != []
    modifies op, op.free, op.pending, op.buffers, op.storage
    ensures op.Valid() && op.Grown() && op.Served()
    ensures 0 < n == Min(|input|, g.current.value.capacity - g.current.value.used)
    ensures var t := CopiedIn(g, input[..n]);
      op.State() == if t.current.value.used == t.current.value.capacity then Enqueue(t) else t
  {
    n := CopyIn(op, input, g);
    QueueFull(op, CopiedIn(g, input[..n]));
  }

  ghost function CopiedIn(s: OpState, input: bytes): OpState
    requires s.current.Some?
  {
    var b := s.current.value;
    s.(current := Some(b.(used := b.used + |input|, data := b.data + input)))
  }

  lemma Accepted(s: OpState, input: bytes, srv: Server, g: OpState)
    requires Roomy(s) && input != [] && 0 < srv.blockSize && g == BufferGet(s, |input|, srv.blockSize)
    ensures HasRoom(g.current.value)
    ensures var n := Min(|input|, g.current.value.capacity - g.current.value.used); var t := CopiedIn(g, input[..n]);
      && 0 < n && Roomy(Accept(s, input, srv).0)
      && Accept(s, input, srv) == (if t.current.value.used == t.current.value.capacity then Enqueue(t) else t, n)
  {
  }

  /** Copies what fits of the input into the current buffer. */
  method CopyIn(op: GridftpOp, input: bytes, ghost s: OpState) returns (n: nat)
    requires op.Valid() && op.State() == s && s.current.Some? && HasRoom(s.current.value) && input != []
    modifies op, op.free, op.pending, op.buffers, op.storage
    ensures op.Valid() && op.Grown() && op.Served()
    ensures 0 < n == Min(|input|, s.current.value.capacity - s.current.value.used)
    ensures op.State() == CopiedIn(s, input[..n])
  {
    var buffer := op.current;
    assert buffer.Value() == s.current.value;
    n := |input|;
    if n > buffer.data.Length - buffer.used {
      n := buffer.data.Length - buffer.used;
    }
    assert n > 0;
    op.FillCurrent(input[..n]);
  }

  /** Queues the current buffer when it is full. */
  method QueueFull(op: GridftpOp, ghost s: OpState)
    requires op.Valid() && op.State() == s && s.current.Some?
    modifies op, op.pending, op.buffers
    ensures op.Valid() && op.Grown()
    ensures op.State() == if s.current.value.used == s.current.value.capacity then Enqueue(s) else s
  {
    assert op.current.Value() == s.current.value;
    if op.current.used == op.current.data.Length {
      QueueCurrent(op, s);
    }
  }

  /** Moves the current buffer to the end of the pending list. */
  method QueueCurrent(op: GridftpOp, ghost s: OpState)
    requires op.Valid() && op.State() == s && s.current.Some?
    modifies op, op.pending, op.buffers
    ensures op.Valid() && op.Grown() && op.State() == Enqueue(s)
  {
    ghost var block, t := s.current.value, s.(current := None);
    var b := op.ReleaseCurrent();
    assert op.State() == t && b.Value() == block;
    op.AppendPending(b);
    assert b.Value() == block;
  }

  // ---- the read calls ----

  /** One pass of the copying loop that is not held up. */
  lemma AdvanceStep(s: OpState, input: bytes, srv: Server, left: Replies, done: seq<Write>)
    requires Roomy(s) && input != [] && 0 < srv.blockSize && s.count < srv.concurrency
    ensures var (t, n) := Accept(s, input, srv); var sent := SendPending(t, left);
      var p := Advance(s, input, srv, left);
      if sent.outcome.Failure? then p == Progress(sent.op, input[n..], sent.writes, Some(sent.outcome))
      else
        var more := Advance(sent.op, input[n..], srv, Spend(left, |sent.writes|));
        && p.op == more.op && p.rest == more.rest && p.outcome == more.outcome
        && done + p.writes == done + sent.writes + more.writes
  {
    var (t, n) := Accept(s, input, srv);
    var sent := SendPending(t, left);
    Accepted(s, input, srv, BufferGet(s, |input|, srv.blockSize));
    Assoc(done, sent.writes, Advance(sent.op, input[n..], srv, Spend(left, |sent.writes|)).writes);
  }

  /** Takes in what fits of the input and sends what is full. */
  method FillAndSend(op: GridftpOp, input: bytes, srv: Server, left: Replies, ghost s: OpState)
    returns (n: nat, result: Outcome, sent: seq<Write>)
    requires op.Valid() && op.State() == s && Roomy(s) && input != [] && 0 < srv.blockSize
    requires Max(|input|, srv.blockSize) < UINT64_MAX
    modifies op.Repr()
    ensures op.Valid() && op.Grown() && op.Served() && Roomy(op.State()) && 0 < n == Accept(s, input, srv).1
    ensures Sent(op.State(), sent, result) == SendPending(Accept(s, input, srv).0, left)
  {
    n := FillBuffer(op, input, srv, s);
    ghost var t := Accept(s, input, srv).0;
    SendKeepsRoom(t, left);
    result, sent := SendPendingBuffers(op, left, t);
  }

  lemma {:induction false} SendKeepsRoom(s: OpState, replies: Replies)
    ensures var r := SendPending(s, replies).op; r.current == s.current && r.free == s.free
    decreases |s.pending|
  {
    if s.pending != [] && replies.grant != 0 {
      SendKeepsRoom(SendOne(s), replies.(grant := replies.grant - 1));
    }
  }

  /** A read call with data, or the rest of one, up to its next wait or its return. */
  method ReadGridftpOp(op: GridftpOp, input: bytes, srv: Server, replies: Replies, ghost s: OpState)
    returns (rest: bytes, writes: seq<Write>, answer: Option<Outcome>)
    requires op.Valid() && op.State() == s && Roomy(s) && 0 < srv.blockSize
    requires Max(|input|, srv.blockSize) < UINT64_MAX
    modifies op.Repr()
    ensures op.Valid() && op.Grown() && op.Served()
    ensures Progress(op.State(), rest, writes, answer) == Advance(s, input, srv, replies)
  {
    rest, writes := input, [];
    var left := replies;
    ghost var t, goal := s, Advance(s, input, srv, replies);
    while rest != []
      invariant op.Valid() && op.Grown() && op.State() == t && Roomy(t) && |rest| <= |input|
      invariant op.Served()
      invariant var more := Advance(t, rest, srv, left);
        && more.op == goal.op && more.rest == goal.rest && more.outcome == goal.outcome
        && writes + more.writes == goal.writes
      decreases |rest|
    {
      if op.registeredCount >= srv.concurrency {
        return rest, writes, None;
      }
      AdvanceStep(t, rest, srv, left, writes);
      var n, result, sent := FillAndSend(op, rest, srv, left, t);
      t := op.State();
      rest, writes := rest[n..], writes + sent;
      if result.Failure? {
        return rest, writes, Some(result);
      }
      left := Spend(left, |sent|);
    }
    answer := Some(Success);
  }

  /** The read call without data, up to where it waits for the writes to complete. */
  method FinishRead(op: GridftpOp, replies: Replies, ghost s: OpState) returns (result: Outcome, writes: seq<Write>)
    requires op.Valid() && op.State() == s
    modifies op, op.pending, op.registered, op.buffers
    ensures op.Valid() && op.Grown() && op.Served() && Sent(op.State(), writes, result) == Flush(s, replies)
  {
    ghost var t := s;
    if op.current != null && op.current.used > 0 {
      assert op.current.Value() == s.current.value;
      t := Enqueue(s);
      QueueCurrent(op, s);
    }
    result, writes := SendPendingBuffers(op, replies, t);
  }

  /** The write callback. */
  method GridftpWriteCallback(op: GridftpOp, address: nat, ghost s: OpState)
    requires op.Valid() && op.State() == s
    modifies op, op.free, op.registered, op.buffers
    ensures op.Valid() && op.Grown() && op.State() == OnWritten(s, address)
  {
    ReturnBuffer(op, address, s);
    op.Landed();
  }

  /** Moves the registered buffer with this address, if there is one, to the free list. */
  method ReturnBuffer(op: GridftpOp, address: nat, ghost s: OpState)
    requires op.Valid() && op.State() == s
    modifies op.free, op.registered, op.buffers
    ensures op.Valid() && op.Grown()
    ensures var i := Find(s.registered, address);
      op.State() == if i == |s.registered| then s
        else s.(registered := Without(s.registered, i), free := [s.registered[i].(used := 0, data := [])] + s.free)
  {
    var b := op.TakeRegistered(address);
    if b != null {
      ghost var i := Find(s.registered, address);
      ghost var t := s.(registered := Without(s.registered, i));
      Recycle(op, b, t, s.registered[i]);
    }
  }

  /** Clears a buffer and frees it. */
  method Recycle(op: GridftpOp, b: Buffer, ghost s: OpState, ghost block: Slot)
    requires op.Valid() && op.State() == s && op.Loose(b) && b.Value() == block
    modifies op.free, b
    ensures op.Valid() && op.Grown() && op.State() == s.(free := [block.(used := 0, data := [])] + s.free)
  {
    op.Mark(b, 0, b.transferOffset);
    assert b.Value() == block.(used := 0, data := []);
    op.PushFree(b);
  }
}
