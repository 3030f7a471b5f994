/** What a partial transfer asks of the server, and uploads, against the range it was given. */
module ReorderRange {
  import opened Bytes
  import opened OpStates
  import opened Reorder
  import opened ReorderRuns

  // ---- how much a pass asks for ----

  /** How many bytes these requests ask for. */
  function Asked(requests: seq<Request>): nat {
    if requests == [] then 0 else requests[|requests| - 1].length + Asked(requests[..|requests| - 1])
  }

  predicate Sized(slots: seq<Slot>, size: nat) {
    forall i :: 0 <= i < |slots| ==> slots[i].capacity == size
  }

  /** How many requests a pass has left to make, each of which the server grants. */
  function Turns(p: Pass, srv: Server): nat {
    if srv.concurrency <= p.i then 0 else Min(srv.concurrency - p.i, p.replies.grant)
  }

  /** What it will ask for: a block each time, until nothing is left of what it takes the range to be. */
  function Quota(p: Pass, srv: Server): nat {
    var blocks := Turns(p, srv) * srv.blockSize;
    if p.op.end == UINT64_MAX then blocks else Min(blocks, Left(p.op, p.booked, srv))
  }

  /** Taking off no more than the remainder does not wrap. */
  lemma TakeOff(x: int, n: nat)
    requires n <= x % (UINT64_MAX + 1)
    ensures (x - n) % (UINT64_MAX + 1) == x % (UINT64_MAX + 1) - n
  {
  }

  lemma OneTurn(p: Pass, srv: Server)
    requires !Over(p, srv) && p.replies.grant != 0 && Sized(p.op.free, srv.blockSize) && p.op.current.None?
    ensures var g := Granted(p, srv); var n := g.booked - p.booked;
      && Sized(g.op.free, srv.blockSize) && g.op.current.None?
      && n == Min(Left(p.op, p.booked, srv), srv.blockSize) && Quota(p, srv) == n + Quota(g, srv)
  {
    var g := Granted(p, srv);
    var n := Turns(g, srv);
    assert Turns(p, srv) == n + 1;
    assert (n + 1) * srv.blockSize == n * srv.blockSize + srv.blockSize;
    if p.op.end != UINT64_MAX {
      TakeOff(p.op.end - p.op.offset - p.booked, g.booked - p.booked);
    }
  }

  // ---- what the outstanding reads were asked for ----

  /** The bytes asked of the reads outstanding, `asked` telling for each buffer the length last asked into it. */
  function Due(slots: seq<Slot>, asked: map<nat, nat>): nat {
    if slots == [] then 0
    else (if slots[0].address in asked then asked[slots[0].address] else 0) + Due(slots[1..], asked)
  }

  function Noted(asked: map<nat, nat>, requests: seq<Request>): map<nat, nat> {
    if requests == [] then asked
    else
      var r := requests[|requests| - 1];
      Noted(asked, requests[..|requests| - 1])[r.address := r.length]
  }

  lemma {:induction false} DueOther(slots: seq<Slot>, asked: map<nat, nat>, a: nat, n: nat)
    requires Times(slots, a) == 0
    ensures Due(slots, asked[a := n]) == Due(slots, asked)
  {
    if slots != [] {
      DueOther(slots[1..], asked, a, n);
    }
  }

  lemma {:induction false} DueWithout(slots: seq<Slot>, i: nat, asked: map<nat, nat>)
    requires i < |slots|
    ensures Due(slots, asked)
      == Due(Without(slots, i), asked) + if slots[i].address in asked then asked[slots[i].address] else 0
  {
    if i == 0 {
      assert Without(slots, 0) == slots[1..];
    } else {
      DueWithout(slots[1..], i - 1, asked);
      assert Without(slots, i)[0] == slots[0] && Without(slots, i)[1..] == Without(slots[1..], i - 1);
    }
  }

  /** The buffer taken for one more read is not among those registered. */
  lemma TakenIsNew(s: OpState, srv: Server)
    requires Conserved(s) && s.current.None?
    ensures var (g, b) := TakeBuffer(s, srv); g.registered == s.registered && Times(s.registered, b.address) == 0
  {
    var (g, b) := TakeBuffer(s, srv);
    TakeBufferKeeps(s, srv);
    assert Held(g, b.address) + 1 <= 1;
  }

  lemma TurnNotes(p: Pass, srv: Server, asked: map<nat, nat>)
    requires Conserved(p.op) && p.op.current.None? && p.replies.grant != 0
    ensures var g := Granted(p, srv); var n := g.booked - p.booked;
      && 0 <= n && Asked(g.requests) == Asked(p.requests) + n
      && Due(g.op.registered, Noted(asked, g.requests)) == n + Due(p.op.registered, Noted(asked, p.requests))
  {
    var (t, b) := TakeBuffer(p.op, srv);
    var g := Granted(p, srv);
    TakenIsNew(p.op, srv);
    assert g.requests[..|p.requests|] == p.requests;
    DueOther(p.op.registered, Noted(asked, p.requests), b.address, g.booked - p.booked);
    assert g.op.registered[1..] == p.op.registered;
  }

  /** A pass asks for its quota. */
  lemma {:induction false} PassAsks(p: Pass, srv: Server, asked: map<nat, nat>)
    requires Registrable(p.op, p.i, srv) && Sized(p.op.free, srv.blockSize)
    ensures var (q, _) := RegisterFrom(p, srv);
      && Asked(q.requests) == Asked(p.requests) + Quota(p, srv)
      && Due(q.op.registered, Noted(asked, q.requests))
         == Due(p.op.registered, Noted(asked, p.requests)) + Quota(p, srv)
    decreases srv.concurrency - p.i
  {
    if !Over(p, srv) && p.replies.grant != 0 {
      OneTurn(p, srv);
      RegisterOneMore(p.op, p.i, srv);
      TurnNotes(p, srv, asked);
      PassAsks(Granted(p, srv), srv, asked);
    }
  }

  /** What an upload step asks of the server; nothing if it has no need to wait, or waits no more. */
  predicate Registers(w: World, e: Event) {
    && !e.Read? && !(e.Call? && w.op.offset == w.op.end)
    && !Ready(w.op) && !Complete(w.op) && w.op.result.Success? && !w.op.eof
  }

  function Asking(cfg: Config, w: World, e: Event): seq<Request> {
    if Registers(w, e) then Requests(w.op, cfg.srv, e.replies) else []
  }

  /** How much it will ask for, as known before it. */
  function WillAsk(cfg: Config, w: World, e: Event): nat {
    if Registers(w, e) then Quota(Begin(w.op, e.replies), cfg.srv) else 0
  }

  /** How far the transfer reaches with what is pending and what is due. */
  function Committed(w: World, asked: map<nat, nat>): nat {
    w.op.offset + Used(w.op.pending) + Due(w.op.registered, asked)
  }

  lemma TurnAsks(cfg: Config, s: OpState, replies: Replies, asked: map<nat, nat>)
    requires cfg.Valid() && Tidy(cfg, s) && Sized(s.free, cfg.srv.blockSize)
    requires !Ready(s) && !Complete(s) && s.result.Success? && !s.eof
    ensures var (r, _) := Turn(s, cfg.srv, replies);
      && r.offset == s.offset && r.pending == s.pending
      && Due(r.registered, Noted(asked, Requests(s, cfg.srv, replies)))
         == Due(s.registered, asked) + Quota(Begin(s, replies), cfg.srv)
  {
    var p := Begin(s, replies);
    RegisterFromKeeps(p, cfg.srv);
    PassAsks(p, cfg.srv, asked);
  }

  // ---- every step ----

  lemma {:induction false} CopyCommits(cfg: Config, s: OpState, sent: bytes, received: set<nat>, room: nat)
    requires Faithful(cfg, s, sent, received)
    ensures var r := CopyOut(s, room).0;
      r.registered == s.registered && r.offset + Used(r.pending) == s.offset + Used(s.pending)
    decreases room
  {
    if room != 0 && Ready(s) {
      var (s1, got) := CopyOne(s, room);
      CopyOneFaithful(cfg, s, sent, received, room);
      CopyCommits(cfg, s1, sent + got, received, room - |got|);
    }
  }

  lemma {:induction false} UsedInsert(slots: seq<Slot>, b: Slot)
    ensures Used(Insert(slots, b)) == Used(slots) + b.used
  {
    if slots != [] && slots[0].at + slots[0].used <= b.at {
      UsedInsert(slots[1..], b);
    }
  }

  /** A read brings no more than was asked of it. */
  predicate Brief(asked: map<nat, nat>, e: Event) {
    e.Read? ==> |e.c.data| <= if e.c.address in asked then asked[e.c.address] else 0
  }

  lemma ReadCommits(cfg: Config, w: World, c: Completion, asked: map<nat, nat>)
    requires Possible(w, Read(c)) && Brief(asked, Read(c))
    ensures Committed(Step(cfg, w, Read(c)), asked) <= Committed(w, asked)
  {
    var i := Find(w.op.registered, c.address);
    DueWithout(w.op.registered, i, asked);
    UsedInsert(w.op.pending, w.op.registered[i].(used := |c.data|, at := c.at, data := c.data));
  }

  lemma ResumeCommits(cfg: Config, w: World, room: nat, replies: Replies, asked: map<nat, nat>)
    requires cfg.Valid() && Inv(cfg, w) && Sized(w.op.free, cfg.srv.blockSize)
    requires w.op.offset != w.op.end && replies.fault.Failure?
    ensures var w' := Replied(w, room, Resume(w.op, room, cfg.srv, replies)); var e := Wake(replies);
      Committed(w', Noted(asked, Asking(cfg, w, e))) == Committed(w, asked) + WillAsk(cfg, w, e)
  {
    var e := Wake(replies);
    if Registers(w, e) {
      TurnAsks(cfg, w.op, replies, asked);
    }
    TurnKeeps(cfg, w.op, replies);
    var (s1, wait) := Turn(w.op, cfg.srv, replies);
    assert Faithful(cfg, s1, w.sent, w.received);
    if !wait && s1.result.Success? {
      CopyCommits(cfg, s1, w.sent, w.received, room);
    }
  }

  /**
   * An upload step asks for exactly its quota more, and passing bytes on changes nothing; a read that
   * brings no more than was asked of it never adds to what is asked for.
   */
  lemma StepCommits(cfg: Config, w: World, e: Event, asked: map<nat, nat>)
    requires cfg.Valid() && Inv(cfg, w) && Sized(w.op.free, cfg.srv.blockSize)
    requires Allowed(cfg, w, e) && Brief(asked, e)
    ensures var after := Committed(Step(cfg, w, e), Noted(asked, Asking(cfg, w, e)));
      if e.Read? then after <= Committed(w, asked) else after == Committed(w, asked) + WillAsk(cfg, w, e)
  {
    match e
    case Call(room, replies) =>
      if w.op.offset != w.op.end {
        ResumeCommits(cfg, w, room, replies, asked);
      }
    case Wake(replies) => ResumeCommits(cfg, w, w.waiting.value, replies, asked);
    case Read(c) => ReadCommits(cfg, w, c, asked);
  }

  // ---- buffers are of the server's block size ----

  predicate AllSized(s: OpState, size: nat) {
    s.current.None? && Sized(s.free, size) && Sized(s.registered, size) && Sized(s.pending, size)
  }

  lemma {:induction false} PassSized(p: Pass, srv: Server)
    requires AllSized(p.op, srv.blockSize)
    ensures AllSized(RegisterFrom(p, srv).0.op, srv.blockSize)
    decreases srv.concurrency - p.i
  {
    if !Over(p, srv) && p.replies.grant != 0 {
      PassSized(Granted(p, srv), srv);
    }
  }

  lemma {:induction false} CopySized(s: OpState, room: nat, size: nat)
    requires AllSized(s, size)
    ensures AllSized(CopyOut(s, room).0, size)
    decreases room
  {
    if room != 0 && Ready(s) && s.pending[0].used != 0 {
      CopySized(CopyOne(s, room).0, room - Min(room, s.pending[0].used), size);
    }
  }

  lemma {:induction false} InsertSized(slots: seq<Slot>, b: Slot, size: nat)
    requires Sized(slots, size) && b.capacity == size
    ensures Sized(Insert(slots, b), size)
  {
    if slots != [] && slots[0].at + slots[0].used <= b.at {
      InsertSized(slots[1..], b, size);
    }
  }

  lemma StepSized(cfg: Config, w: World, e: Event)
    requires Possible(w, e) && AllSized(w.op, cfg.srv.blockSize)
    ensures AllSized(Step(cfg, w, e).op, cfg.srv.blockSize)
  {
    match e
    case Read(c) =>
      var b := w.op.registered[Find(w.op.registered, c.address)];
      InsertSized(w.op.pending, b.(used := |c.data|, at := c.at, data := c.data), cfg.srv.blockSize);
    case _ =>
      PassSized(Begin(w.op, e.replies), cfg.srv);
      CopySized(Turn(w.op, cfg.srv, e.replies).0, RoomOf(w, e).value, cfg.srv.blockSize);
  }

  lemma {:induction false} RunSized(cfg: Config, events: seq<Event>)
    requires Run(cfg, events).Some?
    ensures AllSized(Run(cfg, events).value.op, cfg.srv.blockSize)
  {
    if events != [] {
      RunEnds(cfg, events);
      var n := |events| - 1;
      RunSized(cfg, events[..n]);
      StepSized(cfg, Run(cfg, events[..n]).value, events[n]);
    }
  }

  // ---- whole runs ----

  /** The length last asked into each buffer. */
  ghost function AskedFor(cfg: Config, events: seq<Event>): map<nat, nat> {
    if events == [] then map[]
    else
      var n := |events| - 1;
      var asked := AskedFor(cfg, events[..n]);
      if Run(cfg, events[..n]).Some? then Noted(asked, Asking(cfg, Run(cfg, events[..n]).value, events[n])) else asked
  }

  /** After these events no more has been asked for than the range still misses. */
  ghost predicate InRange(cfg: Config, events: seq<Event>)
    requires Run(cfg, events).Some?
  {
    Committed(Run(cfg, events).value, AskedFor(cfg, events)) <= cfg.end
  }

  /**
   * What can be seen before a step: together with what is uploaded, pending and due, the blocks it has
   * yet to register, or what it takes to be left of the range if that is less, stay in the range.
   */
  ghost predicate Stays(cfg: Config, events: seq<Event>, e: Event)
    requires Run(cfg, events).Some?
  {
    var w := Run(cfg, events).value;
    Committed(w, AskedFor(cfg, events)) + WillAsk(cfg, w, e) <= cfg.end
  }

  lemma Next(cfg: Config, events: seq<Event>, e: Event)
    requires Run(cfg, events).Some? && Allowed(cfg, Run(cfg, events).value, e)
    ensures Run(cfg, events + [e]) == Some(Step(cfg, Run(cfg, events).value, e))
    ensures AskedFor(cfg, events + [e])
      == Noted(AskedFor(cfg, events), Asking(cfg, Run(cfg, events).value, e))
  {
    assert (events + [e])[..|events|] == events;
  }

  /** A partial transfer that has kept within its range leaves it with a step exactly if that can be seen before. */
  lemma WithinRangeIff(cfg: Config, events: seq<Event>, e: Event)
    requires cfg.Valid() && Run(cfg, events).Some? && Allowed(cfg, Run(cfg, events).value, e)
    requires Brief(AskedFor(cfg, events), e) && InRange(cfg, events)
    ensures Run(cfg, events + [e]).Some? && (InRange(cfg, events + [e]) <==> Stays(cfg, events, e))
  {
    RunKeeps(cfg, events);
    RunSized(cfg, events);
    Next(cfg, events, e);
    StepCommits(cfg, Run(cfg, events).value, e, AskedFor(cfg, events));
  }

  /** No read of the run has brought more than was asked of it. */
  ghost predicate AllBrief(cfg: Config, events: seq<Event>) {
    events == [] ||
    var n := |events| - 1;
    AllBrief(cfg, events[..n]) && Brief(AskedFor(cfg, events[..n]), events[n])
  }

  ghost predicate AlwaysInRange(cfg: Config, events: seq<Event>)
    requires Run(cfg, events).Some?
  {
    InRange(cfg, events) && (events != [] ==> AlwaysInRange(cfg, events[..|events| - 1]))
  }

  ghost predicate AlwaysStays(cfg: Config, events: seq<Event>)
    requires Run(cfg, events).Some?
  {
    events != [] ==>
      var n := |events| - 1;
      AlwaysStays(cfg, events[..n]) && Stays(cfg, events[..n], events[n])
  }

  /** So a run keeps within the range throughout if and only if that can be seen before each of its steps. */
  lemma {:induction false} RunWithinRangeIff(cfg: Config, events: seq<Event>)
    requires cfg.Valid() && Run(cfg, events).Some? && AllBrief(cfg, events)
    ensures AlwaysInRange(cfg, events) <==> AlwaysStays(cfg, events)
  {
    if events != [] {
      var n := |events| - 1;
      RunEnds(cfg, events);
      RunWithinRangeIff(cfg, events[..n]);
      if InRange(cfg, events[..n]) {
        LastWithinRange(cfg, events, events[..n], events[n]);
      }
    }
  }

  lemma LastWithinRange(cfg: Config, all: seq<Event>, front: seq<Event>, e: Event)
    requires cfg.Valid() && Run(cfg, front).Some? && Allowed(cfg, Run(cfg, front).value, e) && all == front + [e]
    requires Brief(AskedFor(cfg, front), e) && InRange(cfg, front)
    ensures Run(cfg, all).Some? && (InRange(cfg, all) <==> Stays(cfg, front, e))
  {
    WithinRangeIff(cfg, front, e);
  }

  /** No pass asks for more than it takes to be left of the range, and one with turns enough for all of it. */
  lemma QuotaOfLeft(p: Pass, srv: Server)
    requires p.op.end != UINT64_MAX
    ensures Quota(p, srv) <= Left(p.op, p.booked, srv)
    ensures Left(p.op, p.booked, srv) <= Turns(p, srv) * srv.blockSize ==> Quota(p, srv) == Left(p.op, p.booked, srv)
  {
  }

  /** What is taken to be left is what is left when that much room is; otherwise it wraps. */
  lemma LeftIs(s: OpState, room: nat, srv: Server)
    requires s.end != UINT64_MAX && s.offset <= s.end <= UINT64_MAX && room <= UINT64_MAX
    ensures Left(s, room, srv)
      == if s.offset + room <= s.end then s.end - s.offset - room else s.end - s.offset - room + UINT64_MAX + 1
  {
  }

  /** Safe at any rate: what is pending or due is no more than the room outstanding, and so much is left. */
  lemma StaysWithRoom(cfg: Config, events: seq<Event>, e: Event)
    requires cfg.Valid() && cfg.end != UINT64_MAX && Run(cfg, events).Some?
    requires var s := Run(cfg, events).value.op;
      && Used(s.pending) + Due(s.registered, AskedFor(cfg, events)) <= Room(s.registered)
      && s.offset + Room(s.registered) <= s.end
    ensures Stays(cfg, events, e)
  {
    RunKeeps(cfg, events);
    var w := Run(cfg, events).value;
    if Registers(w, e) {
      LeftIs(w.op, Room(w.op.registered), cfg.srv);
      QuotaOfLeft(Begin(w.op, e.replies), cfg.srv);
    }
  }

  /** A pass that runs until nothing is left of the range stays in it only so. */
  lemma CoveringStaysIff(cfg: Config, events: seq<Event>, e: Event)
    requires cfg.Valid() && cfg.end != UINT64_MAX && Run(cfg, events).Some? && InRange(cfg, events)
    requires var w := Run(cfg, events).value;
      && Registers(w, e) && Room(w.op.registered) <= UINT64_MAX
      && Left(w.op, Room(w.op.registered), cfg.srv) <= Turns(Begin(w.op, e.replies), cfg.srv) * cfg.srv.blockSize
    ensures var s := Run(cfg, events).value.op;
      Stays(cfg, events, e) <==>
        && Used(s.pending) + Due(s.registered, AskedFor(cfg, events)) <= Room(s.registered)
        && s.offset + Room(s.registered) <= s.end
  {
    RunKeeps(cfg, events);
    var w := Run(cfg, events).value;
    RoomOfUnused(w.op.registered);
    LeftIs(w.op, Room(w.op.registered), cfg.srv);
    QuotaOfLeft(Begin(w.op, e.replies), cfg.srv);
  }

  lemma {:induction false} RoomOfUnused(slots: seq<Slot>)
    requires Unused(slots)
    ensures 0 <= Room(slots)
  {
    if slots != [] {
      RoomOfUnused(slots[1..]);
    }
  }

  // ---- what a partial transfer uploads ----

  /** While nothing is received from beyond the range, nothing is uploaded from beyond it. */
  lemma NothingBeyond(cfg: Config, events: seq<Event>)
    requires cfg.Valid() && Run(cfg, events).Some?
    requires forall k: nat :: k in Run(cfg, events).value.received ==> k < cfg.end
    ensures Run(cfg, events).value.op.offset <= cfg.end
  {
    RunKeeps(cfg, events);
    var w := Run(cfg, events).value;
    if cfg.start < w.op.offset {
      assert w.op.offset - 1 in w.received;
    }
  }

  /** And once all that is received has been uploaded, something from beyond it was uploaded just if it was received. */
  lemma UploadsBeyondIff(cfg: Config, events: seq<Event>)
    requires cfg.Valid() && Run(cfg, events).Some? && Run(cfg, events).value.op.pending == []
    ensures var w := Run(cfg, events).value;
      w.op.offset <= cfg.end <==> forall k: nat :: k in w.received ==> k < cfg.end
  {
    RunKeeps(cfg, events);
    var w := Run(cfg, events).value;
    if w.op.offset <= cfg.end {
      assert forall k: nat :: k in w.received ==> k < w.op.offset;
    } else {
      var k: nat := w.op.offset - 1;
      assert k in w.received && cfg.end <= k;
    }
  }

  /**
   * Which comes about: once all reads are over, and have left no gap, a call with room for the rest
   * uploads up to where they reach, beyond the range just if they do.
   */
  lemma OneCallUploadsAll(cfg: Config, events: seq<Event>, e: Event, upTo: nat)
    requires cfg.Valid() && Run(cfg, events).Some? && Allowed(cfg, Run(cfg, events).value, e)
    requires var w := Run(cfg, events).value;
      && w.op.result.Success? && w.op.eof && w.op.registered == [] && Gapless(cfg, w.received, upTo)
      && cfg.start < upTo && w.op.offset != cfg.end
      && RoomOf(w, e).Some? && upTo - w.op.offset <= RoomOf(w, e).value
    ensures Step(cfg, Run(cfg, events).value, e).op.offset == upTo
  {
    var w := Run(cfg, events).value;
    RunKeeps(cfg, events);
    HeadIsDue(cfg, w, upTo);
    CopyOutFaithful(cfg, w.op, w.sent, w.received, RoomOf(w, e).value);
    var (r, got) := CopyOut(w.op, RoomOf(w, e).value);
    Beyond(cfg, r, w.sent + got, w.received, upTo);
  }

  lemma Beyond(cfg: Config, r: OpState, sent: bytes, received: set<nat>, upTo: nat)
    requires Faithful(cfg, r, sent, received) && Gapless(cfg, received, upTo) && cfg.start < upTo
    ensures r.offset <= upTo && (r.offset < upTo ==> Ready(r))
  {
    HeadIsDue(cfg, World(r, None, false, sent, received, Blocked), upTo);
  }
}
