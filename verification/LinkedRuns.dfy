/** Whole runs of the upload on the linked operation: what is proved of runs holds of links and storage. */
module LinkedUploads {
  import opened Bytes
  import opened OpStates
  import opened Reorder
  import opened ReorderRuns
  import opened Buffers
  import opened GridftpOps
  import opened ReorderMonitor

  /** A read brings no more bytes than its buffer has room for. */
  predicate Fitting(w: World, e: Event) {
    e.Read? && Named(w.op.registered, e.c.address) ==>
      |e.c.data| <= w.op.registered[Find(w.op.registered, e.c.address)].capacity
  }

  ghost predicate AllFitting(cfg: Config, events: seq<Event>) {
    forall k :: 0 <= k < |events| && Run(cfg, events[..k]).Some? ==>
      Fitting(Run(cfg, events[..k]).value, events[k])
  }

  lemma {:induction false} RunPrefix(cfg: Config, events: seq<Event>, k: nat)
    requires k < |events| && Run(cfg, events).Some?
    ensures Run(cfg, events[..k]).Some? && Allowed(cfg, Run(cfg, events[..k]).value, events[k])
    ensures Run(cfg, events[..k + 1]) == Some(Step(cfg, Run(cfg, events[..k]).value, events[k]))
  {
    var last := |events| - 1;
    if k == last {
      assert events[..k + 1] == events;
    } else {
      RunPrefix(cfg, events[..last], k);
      assert events[..last][..k] == events[..k] && events[..last][..k + 1] == events[..k + 1];
    }
  }

  lemma ReadySafe(cfg: Config, w: World)
    requires Inv(cfg, w)
    ensures Safe(w.op) && Unused(w.op.registered)
  {
    LaidIsFilled(cfg.file, w.op.pending, w.op.offset);
  }

  /** What the caller's buffer of the blocked call must be like. */
  ghost predicate Waiting(op: GridftpOp, held: array<byte>, w: World)
    reads op
  {
    w.waiting.Some? ==> held.Length == w.waiting.value && held !in op.storage
  }

  method Registered(op: GridftpOp, address: nat, ghost s: OpState) returns (b: Buffer)
    requires op.Valid() && op.State() == s && Named(s.registered, address)
    ensures var i := Find(s.registered, address);
      i < |op.registered.nodes| && b == op.registered.nodes[i] && b.Value() == s.registered[i]
  {
    ghost var i := Find(s.registered, address);
    assert i < |s.registered| && s.registered == op.registered.Slots();
    var _, node, j := op.registered.Locate(address);
    assert op.registered.Slots() == s.registered;
    assert j == Find(op.registered.Slots(), address);
    assert j == i;
    b := node;
  }

  /** The server stores a block in the buffer that it was asked to read into. */
  method Store(op: GridftpOp, address: nat, data: bytes, ghost s: OpState, ghost c: Completion)
    requires op.Valid() && op.State() == s && Unused(s.registered) && Named(s.registered, address)
    requires c.address == address && c.data == data
    requires |data| <= s.registered[Find(s.registered, address)].capacity
    modifies op.storage
    ensures op.Valid() && op.State() == s && Stored(op, s, c)
  {
    var b := Registered(op, address, s);
    forall k | 0 <= k < |data| {
      b.data[k] := data[k];
    }
    assert b.data[..|data|] == data;
    op.StoredIn(b);
  }

  /** What a call that is answered adds to the upload. */
  method Given(answer: Answer, buffer: array<byte>) returns (piece: bytes)
    requires answer.Returns? ==> answer.copied <= buffer.Length
    ensures piece == if answer.Returns? then buffer[..answer.copied] else []
  {
    piece := if answer.Returns? then buffer[..answer.copied] else [];
  }

  method NewHeld(op: GridftpOp, room: nat, ghost s: OpState) returns (held: array<byte>)
    requires op.Valid() && op.State() == s
    ensures op.Valid() && op.State() == s && fresh(held) && held.Length == room && held !in op.storage
    ensures op.Repr() == old(op.Repr())
  {
    held := new byte[room];
    op.ListsUntouched();
  }

  method PlayCall(op: GridftpOp, cfg: Config, e: Event, held: array<byte>, ghost w: World) returns (piece: bytes)
    requires op.Valid() && op.State() == w.op && Safe(w.op) && cfg.srv.blockSize < UINT64_MAX
    requires e.Call? && Possible(w, e)
    requires held.Length == e.room && held !in op.storage
    modifies op.Repr(), held
    ensures op.Valid() && op.Grown() && op.Served()
    ensures var w' := Step(cfg, w, e);
      op.State() == w'.op && w'.sent == w.sent + piece && Waiting(op, held, w')
  {
    var answer, _ := WriteGridftpOp(op, held, cfg.srv, e.replies, w.op);
    piece := Given(answer, held);
    assert w.sent + [] == w.sent;
  }

  method PlayWake(op: GridftpOp, cfg: Config, e: Event, held: array<byte>, ghost w: World) returns (piece: bytes)
    requires op.Valid() && op.State() == w.op && Safe(w.op) && cfg.srv.blockSize < UINT64_MAX
    requires e.Wake? && Possible(w, e)
    requires Waiting(op, held, w)
    modifies op.Repr(), held
    ensures op.Valid() && op.Grown() && op.Served()
    ensures var w' := Step(cfg, w, e);
      op.State() == w'.op && w'.sent == w.sent + piece && Waiting(op, held, w')
  {
    var answer, _ := ResumeWrite(op, held, cfg.srv, e.replies, w.op);
    piece := Given(answer, held);
    assert w.sent + [] == w.sent;
  }

  method PlayRead(op: GridftpOp, cfg: Config, e: Event, held: array<byte>, ghost w: World)
    requires op.Valid() && op.State() == w.op && Unused(w.op.registered) && e.Read? && Possible(w, e) && Fitting(w, e)
    requires Waiting(op, held, w)
    modifies op.Repr()
    ensures op.Valid() && op.Grown()
    ensures var w' := Step(cfg, w, e); op.State() == w'.op && w'.sent == w.sent && Waiting(op, held, w')
  {
    var c := e.c;
    Store(op, c.address, c.data, w.op, c);
    var _ := GridftpReadCallback(op, c.address, c.outcome, c.at, |c.data|, c.eof, w.op, c);
  }

  /**
   * Any run of a transfer on the linked operation: after it the lists are chains without a cycle and
   * without a buffer in two of them, the last link is the pending list's, and what they hold, and what
   * has been uploaded, is as in the run.
   */
  method RunUpload(cfg: Config, events: seq<Event>) returns (op: GridftpOp, uploaded: bytes)
    requires cfg.Valid() && cfg.srv.blockSize < UINT64_MAX
    requires Run(cfg, events).Some? && AllFitting(cfg, events)
    ensures op.Valid() && op.Accounted()
    ensures var w := Run(cfg, events).value; op.State() == w.op && uploaded == w.sent
  {
    op := new GridftpOp.ForUpload(cfg.start, if cfg.end == UINT64_MAX then UINT64_MAX else cfg.end - cfg.start);
    uploaded := PlayAll(op, cfg, events);
    RunKeeps(cfg, events);
    op.AllAccounted();
  }

  method PlayAll(op: GridftpOp, cfg: Config, events: seq<Event>) returns (uploaded: bytes)
    requires cfg.Valid() && cfg.srv.blockSize < UINT64_MAX
    requires Run(cfg, events).Some? && AllFitting(cfg, events)
    requires op.Valid() && op.State() == Start(cfg).op
    modifies op.Repr()
    ensures op.Valid() && op.Grown()
    ensures var w := Run(cfg, events).value; op.State() == w.op && uploaded == w.sent
  {
    uploaded := [];
    var held := new byte[0];
    ghost var w := Start(cfg);
    assert events[..0] == [];
    for k := 0 to |events|
      invariant op.Valid() && op.Grown() && op.State() == w.op
      invariant fresh(held) && held !in op.storage && Waiting(op, held, w) && uploaded == w.sent
      invariant Run(cfg, events[..k]) == Some(w)
    {
      NextPlays(cfg, events, k, w);
      held, uploaded, w := PlayOn(op, cfg, events[k], held, uploaded, w);
    }
    assert events[..|events|] == events;
  }

  /** The next event of a run can be played, and leads where the run does. */
  lemma NextPlays(cfg: Config, events: seq<Event>, k: nat, w: World)
    requires cfg.Valid() && k < |events| && Run(cfg, events).Some? && AllFitting(cfg, events)
    requires Run(cfg, events[..k]) == Some(w)
    ensures Possible(w, events[k]) && Fitting(w, events[k]) && Safe(w.op) && Unused(w.op.registered)
    ensures Run(cfg, events[..k + 1]) == Some(Step(cfg, w, events[k]))
  {
    RunPrefix(cfg, events, k);
    RunKeeps(cfg, events[..k]);
    ReadySafe(cfg, w);
  }

  /** One event, and what has been uploaded with it. */
  method PlayOn(op: GridftpOp, cfg: Config, e: Event, held: array<byte>, before: bytes, ghost w: World)
    returns (kept: array<byte>, uploaded: bytes, ghost next: World)
    requires op.Valid() && op.State() == w.op && Safe(w.op) && Unused(w.op.registered) && cfg.srv.blockSize < UINT64_MAX
    requires Possible(w, e) && Fitting(w, e) && held !in op.storage && Waiting(op, held, w) && before == w.sent
    modifies op.Repr(), held
    ensures op.Valid() && op.Grown() && (kept == held || fresh(kept)) && kept !in op.storage
    ensures next == Step(cfg, w, e) && op.State() == next.op && uploaded == next.sent && Waiting(op, kept, next)
  {
    var piece;
    kept, piece := Play(op, cfg, e, held, w);
    next, uploaded := Step(cfg, w, e), before + piece;
  }

  method Play(op: GridftpOp, cfg: Config, e: Event, held: array<byte>, ghost w: World)
    returns (kept: array<byte>, piece: bytes)
    requires op.Valid() && op.State() == w.op && Safe(w.op) && Unused(w.op.registered) && cfg.srv.blockSize < UINT64_MAX
    requires Possible(w, e) && Fitting(w, e) && held !in op.storage && Waiting(op, held, w)
    modifies op.Repr(), held
    ensures op.Valid() && op.Grown() && (kept == held || fresh(kept)) && kept !in op.storage
    ensures var w' := Step(cfg, w, e);
      op.State() == w'.op && w'.sent == w.sent + piece && Waiting(op, kept, w')
  {
    kept, piece := held, [];
    match e
    case Call(room, _) =>
      kept := NewHeld(op, room, w.op);
      piece := PlayCall(op, cfg, e, kept, w);
    case Wake(_) => piece := PlayWake(op, cfg, e, held, w);
    case Read(_) => PlayRead(op, cfg, e, held, w);
  }
}

/** Whole runs of the download on the linked operation. */
module LinkedDownloads {
  import opened Bytes
  import opened OpStates
  import opened Reorder
  import opened Tiler
  import opened TilerRuns
  import opened Buffers
  import opened GridftpOps
  import opened TilerMonitor

  /** The input of an event has a size that can be counted. */
  predicate Sized(e: Event) {
    e.Feed? ==> |e.chunk| < UINT64_MAX
  }

  lemma {:induction false} RunPrefix(srv: Server, start: nat, events: seq<Event>, k: nat)
    requires k < |events| && Run(srv, start, events).Some?
    ensures Run(srv, start, events[..k]).Some? && Allowed(Run(srv, start, events[..k]).value, events[k])
    ensures Run(srv, start, events[..k + 1]) == Some(Step(srv, Run(srv, start, events[..k]).value, events[k]))
  {
    var last := |events| - 1;
    if k == last {
      assert events[..k + 1] == events;
    } else {
      RunPrefix(srv, start, events[..last], k);
      assert events[..last][..k] == events[..k] && events[..last][..k + 1] == events[..k + 1];
    }
  }

  /** What is left of the input of a call that waits. */
  predicate Holding(w: World, rest: bytes) {
    w.phase.Feeding? ==> rest == w.phase.rest && |rest| < UINT64_MAX
  }

  /** Every write not yet completed finds its bytes in the storage of its buffer. */
  ghost predicate InFlight(op: GridftpOp, inFlight: map<nat, bytes>)
    reads op, op.registered, op.registered.nodes, Storage(op.registered.nodes)
  {
    forall b :: b in op.registered.nodes ==>
      b.address in inFlight && b.used <= b.data.Length && b.data[..b.used] == inFlight[b.address]
  }

  method PlayData(op: GridftpOp, srv: Server, input: bytes, replies: Replies, ghost w: World)
    returns (rest: bytes, writes: seq<Write>)
    requires op.Valid() && op.State() == w.op && Roomy(w.op) && 0 < srv.blockSize
    requires Max(|input|, srv.blockSize) < UINT64_MAX
    modifies op.Repr()
    ensures op.Valid() && op.Grown() && op.Served()
    ensures |Advance(w.op, input, srv, replies).rest| <= |input|
    ensures var w' := Progressed(w, input, Advance(w.op, input, srv, replies));
      op.State() == w'.op && w'.writes == w.writes + writes && Holding(w', rest)
  {
    AdvanceRest(w.op, input, srv, replies);
    var answer;
    rest, writes, answer := ReadGridftpOp(op, input, srv, replies, w.op);
  }

  method Play(op: GridftpOp, srv: Server, e: Event, held: bytes, ghost w: World)
    returns (rest: bytes, writes: seq<Write>)
    requires op.Valid() && op.State() == w.op && Roomy(w.op) && 0 < srv.blockSize < UINT64_MAX
    requires Allowed(w, e) && Sized(e) && Holding(w, held)
    modifies op.Repr()
    ensures op.Valid() && op.Grown()
    ensures var w' := Step(srv, w, e);
      op.State() == w'.op && w'.writes == w.writes + writes && Holding(w', rest)
  {
    rest, writes := held, [];
    assert w.writes + [] == w.writes;
    match e
    case Feed(chunk, replies) =>
      rest, writes := PlayData(op, srv, chunk, replies, w.(offered := w.offered + chunk));
    case Resume(replies) =>
      rest, writes := PlayData(op, srv, held, replies, w);
    case Close(replies) =>
      var result;
      result, writes := FinishRead(op, replies, w.op);
    case Drain =>
    case Written(address) =>
      GridftpWriteCallback(op, address, w.op);
  }

  method PlayNext(op: GridftpOp, srv: Server, start: nat, events: seq<Event>, k: nat, held: bytes, ghost w: World)
    returns (rest: bytes, writes: seq<Write>, ghost next: World)
    requires 0 < srv.blockSize < UINT64_MAX && k < |events| && Sized(events[k])
    requires Run(srv, start, events).Some? && Run(srv, start, events[..k]) == Some(w)
    requires op.Valid() && op.State() == w.op && Holding(w, held)
    modifies op.Repr()
    ensures op.Valid() && op.Grown() && Run(srv, start, events[..k + 1]) == Some(next)
    ensures op.State() == next.op && next.writes == w.writes + writes && Holding(next, rest)
  {
    RunPrefix(srv, start, events, k);
    AssertionHolds(srv, start, events[..k]);
    next := Step(srv, w, events[k]);
    rest, writes := Play(op, srv, events[k], held, w);
  }

  method PlayAll(op: GridftpOp, srv: Server, start: nat, events: seq<Event>) returns (writes: seq<Write>)
    requires 0 < srv.blockSize < UINT64_MAX && forall e :: e in events ==> Sized(e)
    requires Run(srv, start, events).Some? && op.Valid() && op.State() == Start(start).op
    modifies op.Repr()
    ensures op.Valid() && op.Grown()
    ensures var w := Run(srv, start, events).value; op.State() == w.op && writes == w.writes
  {
    writes := [];
    var rest := [];
    ghost var w := Start(start);
    assert events[..0] == [];
    for k := 0 to |events|
      invariant op.Valid() && op.Grown() && op.State() == w.op && Holding(w, rest) && writes == w.writes
      invariant Run(srv, start, events[..k]) == Some(w)
    {
      var more;
      rest, more, w := PlayNext(op, srv, start, events, k, rest, w);
      writes := writes + more;
    }
    assert events[..|events|] == events;
  }

  /**
   * Any run of a download on the linked operation: after it the lists are chains without a cycle and
   * without a buffer in two of them, the last link is the pending list's, the server was asked for the
   * writes of the run, and the storage of every buffer it still has holds the bytes it was given.
   */
  method RunDownload(srv: Server, start: nat, events: seq<Event>) returns (op: GridftpOp, writes: seq<Write>)
    requires 0 < srv.blockSize < UINT64_MAX && forall e :: e in events ==> Sized(e)
    requires Run(srv, start, events).Some?
    ensures op.Valid() && op.Accounted()
    ensures var w := Run(srv, start, events).value;
      op.State() == w.op && writes == w.writes && InFlight(op, w.inFlight)
  {
    op := new GridftpOp.ForDownload(start, UINT64_MAX);
    writes := PlayAll(op, srv, start, events);
    RunKeeps(srv, start, events);
    GivenBytes(op, Run(srv, start, events).value);
    op.AllAccounted();
  }

  lemma GivenBytes(op: GridftpOp, w: World)
    requires op.Valid() && op.State() == w.op && Flying(w.op, w.inFlight) && TilerRuns.Filled(w.op.registered)
    ensures InFlight(op, w.inFlight)
  {
    forall b | b in op.registered.nodes
      ensures b.address in w.inFlight && b.used <= b.data.Length && b.data[..b.used] == w.inFlight[b.address]
    {
      var i :| 0 <= i < |op.registered.nodes| && op.registered.nodes[i] == b;
      assert w.op.registered[i] == b.Value();
    }
  }
}
