/** The upload callback and the read callback, acting on the shared operation in place. */
module ReorderMonitor {
  import opened Bytes
  import opened OpStates
  import opened Reorder
  import opened Buffers
  import opened GridftpOps

  /** What an upload call comes back with, or that it waits. */
  datatype Answer = Waits | Returns(outcome: Outcome, copied: nat)

  method CountBuffers(list: BufferList) returns (count: nat, available: int, used: nat)
    requires list.Valid()
    ensures count == |list.Slots()| && available == Room(list.Slots()) && used == Used(list.Slots())
  {
    ghost var slots := list.Slots();
    var buffer := list.head;
    count, available, used := 0, 0, 0;
    while buffer != null
      invariant count <= |slots| && buffer == Nth(list.nodes, count)
      invariant available + Room(slots[count..]) == Room(slots) && used + Used(slots[count..]) == Used(slots)
      decreases |slots| - count
    {
      assert slots[count..][0] == buffer.Value() && slots[count..][1..] == slots[count + 1..];
      count := count + 1;
      available := available + buffer.data.Length - buffer.used;
      used := used + buffer.used;
      buffer := buffer.next;
    }
  }

  /** The current, first free or new buffer, which is nobody's any more. */
  method GetBuffer(op: GridftpOp, size: nat, blockSize: nat) returns (b: Buffer)
    requires op.Valid() && Max(size, blockSize) < UINT64_MAX
    modifies op, op.free, op.buffers
    ensures op.Valid() && op.Grown() && op.Loose(b) && op.current == null
    ensures var g := BufferGet(old(op.State()), size, blockSize);
      op.State() == g.(current := None) && b.Value() == g.current.value
  {
    op.BufferGet(size, blockSize);
    b := op.ReleaseCurrent();
  }

  lemma UnusedTaken(s: OpState, srv: Server)
    requires s.current.None? && Unused(s.free)
    ensures var (g, b) := TakeBuffer(s, srv); Unused(g.free) && g.current.None? && b.used == 0
  {
  }

  /** A clean buffer of the server's block size, for one more read. */
  method ReadBuffer(op: GridftpOp, srv: Server) returns (b: Buffer)
    requires op.Valid() && op.current == null && Unused(op.State().free) && srv.blockSize < UINT64_MAX
    modifies op, op.free, op.buffers
    ensures op.Valid() && op.Grown() && op.Loose(b) && op.current == null
    ensures (op.State(), b.Value()) == TakeBuffer(old(op.State()), srv)
    ensures Unused(op.State().free) && b.used == 0
  {
    ghost var s := op.State();
    UnusedTaken(s, srv);
    b := GetBuffer(op, srv.blockSize, srv.blockSize);
    ghost var t, slot := op.State(), b.Value();
    op.Mark(b, b.used, UINT64_MAX);
    assert op.State() == t && b.Value() == slot.(at := UINT64_MAX);
  }

  /** Asks for one more read; the buffer is registered if the server grants it and freed if not. */
  method RequestRead(op: GridftpOp, srv: Server, remaining: nat, granted: bool) returns (request: Request)
    requires op.Valid() && op.current == null && Unused(op.State().free) && srv.blockSize < UINT64_MAX
    modifies op, op.free, op.registered, op.buffers
    ensures old(op.registered.members) <= op.registered.members
    ensures op.Valid() && op.Grown() && op.current == null && Unused(op.State().free)
    ensures var (g, b) := TakeBuffer(old(op.State()), srv);
      && op.State() == (if granted then g.(registered := [b] + g.registered) else g.(free := [b] + g.free))
      && request == Request(b.address, Min(remaining, b.capacity))
  {
    var b := ReadBuffer(op, srv);
    ghost var g, slot := op.State(), b.Value();
    assert Unused([slot] + g.free);
    request := Request(b.address, if remaining < b.data.Length then remaining else b.data.Length);
    if granted {
      op.PushRegistered(b);
    } else {
      op.PushFree(b);
    }
  }

  /** Registers reads until the concurrency is reached, the range is covered or the server refuses. */
  method WriteRegisterReads(op: GridftpOp, srv: Server, replies: Replies)
    returns (result: Outcome, requests: seq<Request>)
    requires op.Valid() && Safe(op.State()) && srv.blockSize < UINT64_MAX
    modifies op, op.free, op.registered, op.buffers
    ensures op.Valid() && op.Grown() && op.Served()
    ensures (op.State(), result) == RegisterReads(old(op.State()), srv, replies)
    ensures requests == Requests(old(op.State()), srv, replies)
  {
    result, requests := Success, [];
    if op.result.Success? && !op.eof {
      var i, booked, _ := CountBuffers(op.registered);
      result, requests := RegisterOnward(op, booked, i, srv, replies, Begin(op.State(), replies));
    }
  }

  /** What is still to be asked for. */
  method Remaining(op: GridftpOp, booked: int, srv: Server) returns (remaining: nat)
    requires op.Valid()
    ensures remaining == Left(op.State(), booked, srv)
  {
    remaining := srv.blockSize;
    if op.endOffset != UINT64_MAX {
      remaining := (op.endOffset - op.offset - booked) % (UINT64_MAX + 1);
    }
  }

  /** A pass as it stands in the operation. */
  ghost predicate Stands(op: GridftpOp, p: Pass)
    requires op.Valid()
    reads op, op.registered, op.free, op.pending, op.buffers, op.storage
  {
    op.State() == p.op && op.current == null && Unused(p.op.free)
  }

  /** The next request of a pass; it goes on where the request was granted. */
  method RegisterNext(op: GridftpOp, srv: Server, remaining: nat, granted: bool, ghost p: Pass)
    returns (request: Request, ghost q: Pass)
    requires op.Valid() && Stands(op, p) && srv.blockSize < UINT64_MAX
    requires !Over(p, srv) && remaining == Left(p.op, p.booked, srv) && granted == (p.replies.grant != 0)
    modifies op, op.free, op.registered, op.buffers
    ensures old(op.registered.members) <= op.registered.members
    ensures op.Valid() && op.Grown() && Stands(op, q)
    ensures q == if p.replies.grant == 0 then Refused(p, srv) else Granted(p, srv)
    ensures p.replies.grant != 0 ==> q.booked == p.booked + request.length && q.requests == p.requests + [request]
  {
    q := if p.replies.grant == 0 then Refused(p, srv) else Granted(p, srv);
    request := RequestRead(op, srv, remaining, granted);
  }

  /** One turn of the registration loop: the range is covered, or the next request is made. */
  method RegisterTurn(op: GridftpOp, booked: int, srv: Server, left: Replies, requests: seq<Request>, ghost p: Pass)
    returns (over: bool, result: Outcome, sum: int, more: seq<Request>, ghost q: Pass)
    requires op.Valid() && Stands(op, p) && srv.blockSize < UINT64_MAX && p.i < srv.concurrency
    requires booked == p.booked && left == p.replies && requests == p.requests
    modifies op, op.free, op.registered, op.buffers
    ensures old(op.registered.members) <= op.registered.members
    ensures op.Valid() && op.Grown() && Stands(op, q) && sum == q.booked && more == q.requests
    ensures RegisterFrom(p, srv) == if over then (q, result) else RegisterFrom(q, srv)
    ensures !over ==> left.grant != 0 && q.i == p.i + 1 && q.replies == left.(grant := left.grant - 1)
  {
    result, sum, more, q := Success, booked, requests, p;
    var remaining := Remaining(op, booked, srv);
    over := op.endOffset != UINT64_MAX && remaining == 0;
    if !over {
      var request;
      request, q := RegisterNext(op, srv, remaining, left.grant != 0, p);
      if left.grant == 0 {
        over, result := true, left.fault;
      } else {
        sum, more := booked + request.length, requests + [request];
      }
    }
  }

  method RegisterOnward(op: GridftpOp, sum: int, from: nat, srv: Server, replies: Replies, ghost start: Pass)
    returns (result: Outcome, requests: seq<Request>)
    requires op.Valid() && Stands(op, start) && srv.blockSize < UINT64_MAX
    requires sum == start.booked && from == start.i && replies == start.replies && start.requests == []
    modifies op, op.free, op.registered, op.buffers
    ensures old(op.registered.members) <= op.registered.members
    ensures op.Valid() && op.Grown() && op.State() == RegisterFrom(start, srv).0.op
    ensures result == RegisterFrom(start, srv).1 && requests == RegisterFrom(start, srv).0.requests
  {
    var i, booked, left := from, sum, replies;
    ghost var p, goal := start, RegisterFrom(start, srv);
    requests := [];
    while i < srv.concurrency
      invariant old(op.registered.members) <= op.registered.members
      invariant op.Valid() && op.Grown() && Stands(op, p)
      invariant booked == p.booked && i == p.i && left == p.replies && requests == p.requests
      invariant RegisterFrom(p, srv) == goal
      decreases srv.concurrency - i
    {
      var over;
      over, result, booked, requests, p := RegisterTurn(op, booked, srv, left, requests, p);
      if over {
        return;
      }
      i, left := i + 1, left.(grant := left.grant - 1);
    }
    result := Success;
  }

  // ---- copying out ----

  /** The operation when `n` bytes of its pending head have been copied. */
  ghost function Copied(s: OpState, n: nat): OpState
    requires s.pending != [] && n <= s.pending[0].used && n <= |s.pending[0].data|
  {
    var head := s.pending[0];
    if n < head.used then s.(offset := s.offset + n, pending := [Dropped(head, n)] + s.pending[1..])
    else Freed(s.(offset := s.offset + n))
  }

  ghost function Freed(s: OpState): OpState
    requires s.pending != []
  {
    s.(pending := s.pending[1..], free := [s.pending[0].(used := 0, at := UINT64_MAX, data := [])] + s.free)
  }

  lemma CopiedOne(s: OpState, room: nat, n: nat)
    requires Filled(s.pending) && Ready(s) && n == Min(room, s.pending[0].used)
    ensures CopyOne(s, room) == (Copied(s, n), s.pending[0].data[..n]) && Filled(Copied(s, n).pending)
  {
  }

  /** Copies from the head of the pending list, moving up what is left of it or freeing it. */
  method CopyBlock(op: GridftpOp, buffer: array<byte>, filled: nat, ghost s: OpState) returns (n: nat)
    requires op.Valid() && op.State() == s && buffer !in op.storage && filled < buffer.Length
    requires Filled(s.pending) && Ready(s)
    modifies op, op.free, op.pending, op.buffers, op.storage, buffer
    ensures op.Valid() && op.Grown() && op.Served() && Filled(op.State().pending)
    ensures 0 < n <= buffer.Length - filled && n == Min(buffer.Length - filled, s.pending[0].used)
    ensures var (t, got) := CopyOne(s, buffer.Length - filled);
      op.State() == t && buffer[..] == old(buffer[..filled]) + got + old(buffer[filled + n..])
  {
    n := CopyBytes(op, buffer, filled, s);
    CopiedOne(s, buffer.Length - filled, n);
    ghost var now := buffer[..];
    assert buffer !in op.Repr();
    FreeOrShift(op, n, s);
    assert buffer[..] == now;
  }

  /** Copies what fits of the pending head. */
  method CopyBytes(op: GridftpOp, buffer: array<byte>, filled: nat, ghost s: OpState) returns (n: nat)
    requires op.Valid() && op.State() == s && buffer !in op.storage && filled < buffer.Length
    requires Filled(s.pending) && Ready(s)
    modifies buffer
    ensures op.Valid() && op.State() == s
    ensures op.pending.nodes != [] && n <= op.pending.head.used <= op.pending.head.data.Length
    ensures 0 < n == Min(buffer.Length - filled, s.pending[0].used)
    ensures buffer[..] == old(buffer[..filled]) + CopyOne(s, buffer.Length - filled).1 + old(buffer[filled + n..])
  {
    var head := op.pending.head;
    assert head.Value() == s.pending[0];
    n := buffer.Length - filled;
    if n > head.used {
      n := head.used;
    }
    assert n > 0;
    ghost var was, got := buffer[..], s.pending[0].data[..n];
    CopiedOne(s, buffer.Length - filled, n);
    forall k | 0 <= k < n {
      buffer[filled + k] := head.data[k];
    }
    op.ListsUntouched();
    Spliced(buffer[..], was, got, filled);
    assert was[..filled] == old(buffer[..filled]) && was[filled + n..] == old(buffer[filled + n..]);
  }

  /** A text with other bytes in one place. */
  lemma Spliced(now: bytes, was: bytes, got: bytes, i: nat)
    requires i + |got| <= |was| == |now|
    requires forall k :: 0 <= k < |now| ==> now[k] == if i <= k < i + |got| then got[k - i] else was[k]
    ensures now == was[..i] + got + was[i + |got|..]
  {
  }

  /** Moves up what is left of the pending head after `n` bytes of it have been copied, or frees it. */
  method FreeOrShift(op: GridftpOp, n: nat, ghost s: OpState)
    requires op.Valid() && op.State() == s && op.pending.nodes != []
    requires n <= op.pending.head.used <= op.pending.head.data.Length
    modifies op, op.free, op.pending, op.buffers, op.storage
    ensures op.Valid() && op.Grown() && op.Served() && n <= |s.pending[0].data| && op.State() == Copied(s, n)
  {
    assert op.pending.head.Value() == s.pending[0];
    op.Uploaded(n);
    ghost var t := s.(offset := s.offset + n);
    assert op.State() == t;
    if n < op.pending.head.used {
      op.ShiftHead(n);
    } else {
      FreeHead(op, t);
    }
  }

  method FreeHead(op: GridftpOp, ghost s: OpState)
    requires op.Valid() && op.State() == s && op.pending.nodes != []
    modifies op, op.free, op.pending, op.buffers
    ensures op.Valid() && op.Grown() && op.State() == Freed(s)
  {
    ghost var head := s.pending[0];
    ghost var t := s.(pending := s.pending[1..]);
    var b := op.PopPending();
    assert op.State() == t && b.Value() == head;
    FreeBlock(op, b, 0, UINT64_MAX, t, head);
  }

  /** One more block after those copied. */
  lemma CopiedMore(now: bytes, next: bytes, done: bytes, got: bytes, more: bytes, start: bytes, k: nat)
    requires |now| == |start| && k == |done| + |got| <= |start| && more == done + got
    requires now == done + start[|done|..] && next == now[..|done|] + got + now[k..]
    ensures next == more + start[k..] && |more| == k
  {
  }

  /** And what copying out still gives after it. */
  lemma CopiedThen(s: OpState, room: nat, done: bytes, n: nat, more: bytes, left: (OpState, bytes), rest: (OpState, bytes))
    requires Filled(s.pending) && Ready(s) && 0 < room && n == Min(room, s.pending[0].used)
    requires more == done + CopyOne(s, room).1
    requires left == CopyOut(s, room) && rest == CopyOut(CopyOne(s, room).0, room - n)
    ensures rest.0 == left.0 && more + rest.1 == done + left.1
  {
    CopyOutStep(s, room);
    Assoc(done, CopyOne(s, room).1, rest.1);
  }

  lemma GotOne(s: OpState, room: nat)
    requires Filled(s.pending) && Ready(s)
    ensures |CopyOne(s, room).1| == Min(room, s.pending[0].used)
  {
    CopiedOne(s, room, Min(room, s.pending[0].used));
  }

  /** One more block after those in `done`; `left` is what copying out still gives. */
  method CopyNext(op: GridftpOp, buffer: array<byte>, ghost start: bytes, ghost done: bytes, filled: nat,
                  ghost s: OpState, ghost left: (OpState, bytes))
    returns (next: nat, ghost t: OpState, ghost more: bytes, ghost rest: (OpState, bytes))
    requires op.Valid() && op.State() == s && buffer !in op.storage && Filled(s.pending) && Ready(s)
    requires filled == |done| < buffer.Length == |start|
    requires buffer[..] == done + start[filled..] && left == CopyOut(s, buffer.Length - filled)
    modifies op, op.free, op.pending, op.buffers, op.storage, buffer
    ensures op.Valid() && op.Grown() && op.Served() && op.State() == t && Filled(t.pending)
    ensures filled < next == |more| <= buffer.Length
    ensures buffer[..] == more + start[next..] && rest == CopyOut(t, buffer.Length - next)
    ensures rest.0 == left.0 && more + rest.1 == done + left.1
  {
    ghost var room, now := buffer.Length - filled, buffer[..];
    var n := CopyBlock(op, buffer, filled, s);
    next := filled + n;
    ghost var got := CopyOne(s, room).1;
    t, more := CopyOne(s, room).0, done + got;
    rest := CopyOut(t, room - n);
    GotOne(s, room);
    CopiedMore(now, buffer[..], done, got, more, start, next);
    CopiedThen(s, room, done, n, more, left, rest);
  }

  /** Copies the blocks that are due into the caller's buffer, and leaves the rest of it alone. */
  method CopyPending(op: GridftpOp, buffer: array<byte>, ghost s: OpState) returns (filled: nat)
    requires op.Valid() && op.State() == s && buffer !in op.storage && Filled(s.pending)
    modifies op, op.free, op.pending, op.buffers, op.storage, buffer
    ensures op.Valid() && op.Grown() && op.Served() && op.State() == CopyOut(s, buffer.Length).0
    ensures filled == |CopyOut(s, buffer.Length).1| <= buffer.Length
    ensures buffer[..] == CopyOut(s, buffer.Length).1 + old(buffer[..])[filled..]
  {
    filled := 0;
    ghost var start, goal := buffer[..], CopyOut(s, buffer.Length);
    ghost var t, done, left := s, [], goal;
    NoneCopied(start, goal.1);
    while filled < buffer.Length && op.pending.head != null && op.pending.head.transferOffset == op.offset
      invariant op.Valid() && op.Grown() && op.State() == t && Filled(t.pending)
      invariant op.Served()
      invariant filled == |done| <= buffer.Length
      invariant buffer[..] == done + start[filled..] && left == CopyOut(t, buffer.Length - filled)
      invariant left.0 == goal.0 && done + left.1 == goal.1
      decreases buffer.Length - filled
    {
      filled, t, done, left := CopyNext(op, buffer, start, done, filled, t, left);
    }
    AllCopied(t, buffer.Length - filled, done, left, goal);
  }

  lemma NoneCopied(start: bytes, all: bytes)
    ensures start == [] + start[0..] && [] + all == all
  {
  }

  lemma AllCopied(s: OpState, room: nat, done: bytes, left: (OpState, bytes), goal: (OpState, bytes))
    requires (room == 0 || !Ready(s)) && left == CopyOut(s, room)
    requires left.0 == goal.0 && done + left.1 == goal.1
    ensures goal.0 == s && goal.1 == done
  {
    CopyOutEnds(s, room);
    assert done + [] == done;
  }

  // ---- the upload call ----

  /** One turn of the waiting loop, for reads to wait for. */
  method TakeTurn(op: GridftpOp, srv: Server, replies: Replies, ghost s: OpState)
    returns (wait: bool, requests: seq<Request>)
    requires op.Valid() && op.State() == s && Safe(s) && !Ready(s) && !Complete(s) && srv.blockSize < UINT64_MAX
    modifies op, op.free, op.registered, op.buffers
    ensures op.Valid() && op.Grown() && op.Served() && (op.State(), wait) == Turn(s, srv, replies)
    ensures requests == Requests(s, srv, replies)
  {
    var result;
    result, requests := WriteRegisterReads(op, srv, replies);
    ghost var t := op.State();
    assert (t, result) == RegisterReads(s, srv, replies);
    op.Note(result);
    assert op.State() == if t.result.Success? then t.(result := result) else t;
    wait := op.result.Success? || op.registered.head != null;
  }

  /** An upload call from the top of its waiting loop to its next wait or its return. */
  method ResumeWrite(op: GridftpOp, buffer: array<byte>, srv: Server, replies: Replies, ghost s: OpState)
    returns (answer: Answer, requests: seq<Request>)
    requires op.Valid() && op.State() == s && Safe(s) && buffer !in op.storage && srv.blockSize < UINT64_MAX
    modifies op.Repr(), buffer
    ensures op.Valid() && op.Grown() && op.Served()
    ensures var (t, reply) := Resume(s, buffer.Length, srv, replies);
      op.State() == t && Agrees(answer, reply, buffer[..])
    ensures requests == if Ready(s) || Complete(s) then [] else Requests(s, srv, replies)
  {
    requests := [];
    var ready := IsReady(op, s);
    var complete := IsComplete(op, s);
    if !ready && !complete {
      var wait;
      wait, requests := TakeTurn(op, srv, replies, s);
      if wait {
        return Waits, requests;
      }
      return Returns(op.result, 0), requests;
    }
    if op.result.Failure? {
      return Returns(op.result, 0), requests;
    }
    var copied := CopyPending(op, buffer, s);
    answer := Returns(Success, copied);
  }

  /** An upload call from its start to its first wait or its return. */
  method WriteGridftpOp(op: GridftpOp, buffer: array<byte>, srv: Server, replies: Replies, ghost s: OpState)
    returns (answer: Answer, requests: seq<Request>)
    requires op.Valid() && op.State() == s && Safe(s) && buffer !in op.storage && srv.blockSize < UINT64_MAX
    modifies op.Repr(), buffer
    ensures op.Valid() && op.Grown() && op.Served()
    ensures var (t, reply) := Upload(s, buffer.Length, srv, replies);
      op.State() == t && Agrees(answer, reply, buffer[..])
  {
    if op.offset == op.endOffset {
      op.NoteEnd(false, true);
      return Returns(Success, 0), [];
    }
    answer, requests := ResumeWrite(op, buffer, srv, replies, s);
  }

  predicate Agrees(answer: Answer, reply: Reply, buffer: bytes) {
    match answer
    case Waits => reply.Blocked?
    case Returns(outcome, copied) => copied <= |buffer| && reply == Returned(outcome, buffer[..copied])
  }

  method IsReady(op: GridftpOp, ghost s: OpState) returns (ready: bool)
    requires op.Valid() && op.State() == s
    ensures ready == Ready(s)
  {
    ready := op.pending.head != null && op.pending.head.transferOffset == op.offset;
  }

  method IsComplete(op: GridftpOp, ghost s: OpState) returns (complete: bool)
    requires op.Valid() && op.State() == s
    ensures complete == Complete(s)
  {
    complete := op.eof && op.registered.head == null;
  }

  // ---- the read callback ----

  /** The operation with the server's verdict on a read recorded. */
  ghost function Judged(s: OpState, c: Completion): OpState {
    s.(serverEof := s.serverEof || c.eof, eof := s.eof || c.eof || ReachesEnd(s, c),
       result := if s.result.Success? then c.outcome else s.result)
  }

  /** Records the server's verdict on a read, and says whether it is the end. */
  method RecordVerdict(op: GridftpOp, outcome: Outcome, end: nat, eof: bool, ghost s: OpState, ghost c: Completion)
    returns (over: bool)
    requires op.Valid() && op.State() == s
    requires c.outcome == outcome && c.at + |c.data| == end && c.eof == eof
    modifies op`result, op`eof, op`serverEof
    ensures op.Valid() && op.State() == Judged(s, c) && over == (c.eof || ReachesEnd(s, c))
    ensures op.registered.nodes == old(op.registered.nodes)
  {
    op.Note(outcome);
    over := eof || (op.endOffset != 0 && end == op.endOffset);
    op.NoteEnd(eof, over);
  }

  /** The block that has come in: its buffer leaves the registered list and holds what the server stored. */
  ghost function Block(s: OpState, c: Completion): Slot
    requires Named(s.registered, c.address)
  {
    s.registered[Find(s.registered, c.address)].(used := |c.data|, at := c.at, data := c.data)
  }

  method TakeBlock(op: GridftpOp, address: nat, at: nat, nbytes: nat, ghost s: OpState, ghost c: Completion)
    returns (b: Buffer)
    requires op.Valid() && op.State() == s && Named(s.registered, c.address) && Stored(op, s, c)
    requires c.address == address && c.at == at && |c.data| == nbytes
    modifies op, op.free, op.pending, op.registered, op.buffers
    ensures op.Valid() && op.Grown() && op.Loose(b) && b.Value() == Block(s, c)
    ensures op.State() == s.(registered := Without(s.registered, Find(s.registered, c.address)))
  {
    ghost var i := Find(s.registered, address);
    b := op.TakeRegistered(address);
    op.Mark(b, nbytes, at);
  }

  /** The bytes of a read are where the server was asked to store them. */
  ghost predicate Stored(op: GridftpOp, s: OpState, c: Completion)
    requires op.Valid()
    reads op, op.registered, op.free, op.pending, op.buffers, op.storage
  {
    var i := Find(s.registered, c.address);
    i < |op.registered.nodes| && |c.data| <= op.registered.nodes[i].data.Length
      && op.registered.nodes[i].Bytes(|c.data|) == c.data
  }

  /** The read callback; says whether it signals the waiting upload call. */
  method GridftpReadCallback(op: GridftpOp, address: nat, outcome: Outcome, at: nat, nbytes: nat, eof: bool,
                             ghost s: OpState, ghost c: Completion)
    returns (signal: bool)
    requires op.Valid() && op.State() == s && Named(s.registered, address) && Stored(op, s, c)
    requires c == Completion(address, outcome, at, c.data, eof) && |c.data| == nbytes
    modifies op, op.free, op.pending, op.registered, op.buffers
    ensures op.Valid() && op.Grown() && (op.State(), signal) == OnRead(s, c)
  {
    signal := RecordVerdict(op, outcome, at + nbytes, eof, s, c);
    signal := Receive(op, address, at, nbytes, signal, Judged(s, c), c);
  }

  /** Moves the buffer that was read into to the free or the pending list. */
  method Receive(op: GridftpOp, address: nat, at: nat, nbytes: nat, over: bool, ghost s: OpState, ghost c: Completion)
    returns (signal: bool)
    requires op.Valid() && op.State() == s && Named(s.registered, c.address) && Stored(op, s, c)
    requires c.address == address && c.at == at && |c.data| == nbytes
    modifies op, op.free, op.pending, op.registered, op.buffers
    ensures op.Valid() && op.Grown() && signal == (over || s.result.Failure? || c.data != [])
    ensures op.State() == Received(s, c)
  {
    ghost var t := s.(registered := Without(s.registered, Find(s.registered, c.address)));
    var b := TakeBlock(op, address, at, nbytes, s, c);
    signal := PlaceBlock(op, b, over, t, Block(s, c));
  }

  ghost function Received(s: OpState, c: Completion): OpState
    requires Named(s.registered, c.address)
  {
    Placed(s.(registered := Without(s.registered, Find(s.registered, c.address))), Block(s, c))
  }

  ghost function Placed(s: OpState, block: Slot): OpState {
    if s.result.Failure? then s.(eof := true, free := [block.(used := 0, at := 0, data := [])] + s.free)
    else if block.used == 0 then s.(free := [block.(used := UINT64_MAX, at := UINT64_MAX, data := [])] + s.free)
    else s.(pending := Insert(s.pending, block))
  }

  /** Frees the buffer of a failed or empty read, and queues another one in order. */
  method PlaceBlock(op: GridftpOp, b: Buffer, over: bool, ghost s: OpState, ghost block: Slot) returns (signal: bool)
    requires op.Valid() && op.State() == s && op.Loose(b) && b.Value() == block && block.used <= block.capacity
    modifies op, op.free, op.pending, op.registered, op.buffers
    ensures op.Valid() && op.Grown()
    ensures signal == (over || s.result.Failure? || 0 < block.used)
    ensures op.State() == Placed(s, block)
  {
    signal := over;
    if op.result.Failure? {
      op.NoteEnd(false, true);
      FreeBlock(op, b, 0, 0, s.(eof := true), block);
      signal := true;
    } else if b.used == 0 {
      FreeBlock(op, b, UINT64_MAX, UINT64_MAX, s, block);
    } else {
      op.InsertPending(b);
      signal := true;
    }
  }

  method FreeBlock(op: GridftpOp, b: Buffer, used: nat, at: nat, ghost s: OpState, ghost block: Slot)
    requires op.Valid() && op.State() == s && op.Loose(b) && b.Value() == block && (used == 0 || used == UINT64_MAX)
    modifies op.free, b
    ensures op.Valid() && op.Grown()
    ensures op.State() == s.(free := [block.(used := used, at := at, data := [])] + s.free)
  {
    op.Mark(b, used, at);
    assert b.Value() == block.(used := used, at := at, data := []);
    op.PushFree(b);
  }
}
