/** The reorder buffer between GridFTP reads and the REST upload, on values. */
module Reorder {
  import opened Bytes
  import opened OpStates

  /** The server's constants for one transfer. */
  datatype Server = Server(blockSize: nat, concurrency: nat)

  /** The server's replies to one registration pass: `grant` requests accepted, then `fault`. */
  datatype Replies = Replies(grant: nat, fault: Outcome)

  /** What one atomic step of an upload call ends with. */
  datatype Reply = Blocked | Returned(outcome: Outcome, data: bytes)

  predicate Ready(s: OpState) {
    s.pending != [] && s.pending[0].at == s.offset
  }

  predicate Complete(s: OpState) {
    s.eof && s.registered == []
  }

  function Room(slots: seq<Slot>): int {
    if slots == [] then 0 else slots[0].capacity - slots[0].used + Room(slots[1..])
  }

  function Used(slots: seq<Slot>): nat {
    if slots == [] then 0 else slots[0].used + Used(slots[1..])
  }

  /** A buffer for one more read request. */
  function TakeBuffer(s: OpState, srv: Server): (OpState, Slot) {
    var g := BufferGet(s, srv.blockSize, srv.blockSize);
    (g.(current := None), g.current.value.(at := UINT64_MAX))
  }

  /** Bytes not yet asked for when `booked` are outstanding, in the source's unsigned 64-bit arithmetic. */
  function Left(s: OpState, booked: int, srv: Server): nat {
    if s.end == UINT64_MAX then srv.blockSize
    else (s.end - s.offset - booked) % (UINT64_MAX + 1)
  }

  /** A read asked of the server: the buffer for it and how many bytes. */
  datatype Request = Request(address: nat, length: nat)

  /** A registration pass midway: bytes outstanding, reads registered, the server's replies, what it was asked. */
  datatype Pass = Pass(op: OpState, booked: int, i: nat, replies: Replies, requests: seq<Request>)

  predicate Over(p: Pass, srv: Server) {
    p.i >= srv.concurrency || (p.op.end != UINT64_MAX && Left(p.op, p.booked, srv) == 0)
  }

  /** One more read, which the server grants. */
  function Granted(p: Pass, srv: Server): Pass
    requires p.replies.grant != 0
  {
    var (g, b) := TakeBuffer(p.op, srv);
    var length := Min(Left(p.op, p.booked, srv), b.capacity);
    Pass(g.(registered := [b] + g.registered), p.booked + length, p.i + 1,
         p.replies.(grant := p.replies.grant - 1), p.requests + [Request(b.address, length)])
  }

  /** One more read, which the server refuses. */
  function Refused(p: Pass, srv: Server): Pass {
    var (g, b) := TakeBuffer(p.op, srv);
    p.(op := g.(free := [b] + g.free))
  }

  function RegisterFrom(p: Pass, srv: Server): (Pass, Outcome)
    decreases srv.concurrency - p.i, 1
  {
    if Over(p, srv) then (p, Success)
    else if p.replies.grant == 0 then (Refused(p, srv), p.replies.fault)
    else RegisterMore(p, srv)
  }

  function RegisterMore(p: Pass, srv: Server): (Pass, Outcome)
    requires p.replies.grant != 0 && p.i < srv.concurrency
    decreases srv.concurrency - p.i, 0
  {
    RegisterFrom(Granted(p, srv), srv)
  }

  function Begin(s: OpState, replies: Replies): Pass {
    Pass(s, Room(s.registered), |s.registered|, replies, [])
  }

  function RegisterReads(s: OpState, srv: Server, replies: Replies): (OpState, Outcome) {
    if s.result.Success? && !s.eof then
      var (p, outcome) := RegisterFrom(Begin(s, replies), srv);
      (p.op, outcome)
    else (s, Success)
  }

  /** The reads it asks for. */
  function Requests(s: OpState, srv: Server, replies: Replies): seq<Request> {
    if s.result.Success? && !s.eof then RegisterFrom(Begin(s, replies), srv).0.requests else []
  }

  /** One turn of the waiting loop; true when the call must wait. */
  function Turn(s: OpState, srv: Server, replies: Replies): (OpState, bool) {
    if Ready(s) || Complete(s) then (s, false)
    else
      var (s1, r) := RegisterReads(s, srv, replies);
      var s2 := if s1.result.Success? then s1.(result := r) else s1;
      (s2, s2.result.Success? || s2.registered != [])
  }

  /** Copies at most `room` bytes out of the pending head. */
  function CopyOne(s: OpState, room: nat): (OpState, bytes)
    requires Ready(s)
  {
    var head := s.pending[0];
    var n := Min(room, head.used);
    var got := if n <= |head.data| then head.data[..n] else head.data;
    if n < head.used then
      (s.(offset := s.offset + n,
          pending := [head.(used := head.used - n, at := head.at + n,
                            data := if n <= |head.data| then head.data[n..] else [])] + s.pending[1..]), got)
    else
      (s.(offset := s.offset + n, pending := s.pending[1..],
          free := [head.(used := 0, at := UINT64_MAX, data := [])] + s.free), got)
  }

  function CopyOut(s: OpState, room: nat): (OpState, bytes)
    decreases room
  {
    if room == 0 || !Ready(s) || s.pending[0].used == 0 then (s, [])
    else
      var (s1, got) := CopyOne(s, room);
      var (s2, more) := CopyOut(s1, room - Min(room, s.pending[0].used));
      (s2, got + more)
  }

  lemma CopyOutStep(s: OpState, room: nat)
    requires 0 < room && Ready(s) && 0 < s.pending[0].used
    ensures var (t, got) := CopyOne(s, room); var left := room - Min(room, s.pending[0].used);
      CopyOut(s, room) == (CopyOut(t, left).0, got + CopyOut(t, left).1)
  {
  }

  lemma CopyOutEnds(s: OpState, room: nat)
    requires room == 0 || !Ready(s)
    ensures CopyOut(s, room) == (s, [])
  {
  }

  /** From the top of the waiting loop to its wait, or to the end of the call. */
  function Resume(s: OpState, room: nat, srv: Server, replies: Replies): (OpState, Reply) {
    var (s1, wait) := Turn(s, srv, replies);
    if wait then (s1, Blocked)
    else if s1.result.Failure? then (s1, Returned(s1.result, []))
    else var (s2, data) := CopyOut(s1, room); (s2, Returned(Success, data))
  }

  /** A whole upload call up to its wait or its return. */
  function Upload(s: OpState, room: nat, srv: Server, replies: Replies): (OpState, Reply) {
    if s.offset == s.end then (s.(eof := true), Returned(Success, []))
    else Resume(s, room, srv, replies)
  }

  /** A completed read: which buffer, the server's verdict, the bytes and where they belong. */
  datatype Completion = Completion(address: nat, outcome: Outcome, at: nat, data: bytes, eof: bool)

  predicate ReachesEnd(s: OpState, c: Completion) {
    s.end != 0 && c.at + |c.data| == s.end
  }

  /** The read callback; the second component says whether it signals the condition variable. */
  function OnRead(s: OpState, c: Completion): (OpState, bool)
    requires Named(s.registered, c.address)
  {
    var i := Find(s.registered, c.address);
    var eof := c.eof || ReachesEnd(s, c);
    var b := s.registered[i];
    var s1 := s.(serverEof := s.serverEof || c.eof,
                 result := if s.result.Success? then c.outcome else s.result,
                 eof := s.eof || eof,
                 registered := Without(s.registered, i));
    if s1.result.Failure? then
      (s1.(eof := true, free := [b.(used := 0, at := 0, data := [])] + s1.free), true)
    else if c.data == [] then
      (s1.(free := [b.(used := UINT64_MAX, at := UINT64_MAX, data := [])] + s1.free), eof)
    else
      (s1.(pending := Insert(s1.pending, b.(used := |c.data|, at := c.at, data := c.data))), true)
  }

  predicate Unused(slots: seq<Slot>) {
    forall i :: 0 <= i < |slots| ==> slots[i].used == 0
  }

  predicate Filled(slots: seq<Slot>) {
    forall i :: 0 <= i < |slots| ==> 0 < slots[i].used == |slots[i].data|
  }

  /** What the source's assertions need: clean buffers to register and non-empty blocks to copy. */
  predicate Safe(s: OpState) {
    && s.current.None? && Filled(s.pending)
    && (s.result.Success? && !s.eof ==> Unused(s.free))
  }
}
