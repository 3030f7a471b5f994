/** Every interleaving of upload calls, wake-ups and read callbacks of the reorder buffer. */
module ReorderRuns {
  import opened Bytes
  import opened OpStates
  import opened Reorder

  /** One transfer: the stored file and the part of it that was asked for. */
  datatype Config = Config(file: bytes, start: nat, end: nat, srv: Server)
  {
    ghost predicate Valid() {
      && start <= |file| < UINT64_MAX
      && start <= end <= UINT64_MAX
      && 0 < srv.blockSize && 0 < srv.concurrency
    }
  }

  datatype Event =
    | Call(room: nat, replies: Replies)
    | Wake(replies: Replies)
    | Read(c: Completion)

  /** The monitor, the blocked call if any, the bytes uploaded and the positions received. */
  datatype World = World(op: OpState, waiting: Option<nat>, signalled: bool, sent: bytes, received: set<nat>,
                         last: Reply)

  function Start(cfg: Config): World {
    World(OpState(Success, cfg.start, cfg.end, false, false, [], None, [], 0, [], 0),
          None, false, [], {}, Returned(Success, []))
  }

  predicate Within(k: int, at: nat, n: nat) {
    at <= k < at + n
  }

  function Span(at: nat, n: nat): set<nat> {
    set k: nat | k < at + n && Within(k, at, n)
  }

  /** Calls do not overlap, only a blocked call wakes, and only an outstanding read completes. */
  predicate Possible(w: World, e: Event) {
    match e
    case Call(_, replies) => w.waiting.None? && replies.fault.Failure?
    case Wake(replies) => w.waiting.Some? && replies.fault.Failure?
    case Read(c) => Named(w.op.registered, c.address)
  }

  /** The server's side of the contract: good reads carry fresh bytes of the file, or end it. */
  ghost predicate Honest(cfg: Config, w: World, c: Completion) {
    w.op.result.Success? && c.outcome.Success? ==>
      if c.data == [] then c.eof
      else
        && cfg.start <= c.at && c.at + |c.data| <= |cfg.file|
        && c.data == cfg.file[c.at..c.at + |c.data|]
        && Span(c.at, |c.data|) !! w.received
  }

  ghost predicate Allowed(cfg: Config, w: World, e: Event) {
    Possible(w, e) && (e.Read? ==> Honest(cfg, w, e.c))
  }

  function Replied(w: World, room: nat, step: (OpState, Reply)): World {
    match step.1
    case Blocked => w.(op := step.0, waiting := Some(room), signalled := false, last := Blocked)
    case Returned(_, data) =>
      w.(op := step.0, waiting := None, signalled := false, sent := w.sent + data, last := step.1)
  }

  function Step(cfg: Config, w: World, e: Event): World
    requires Possible(w, e)
  {
    match e
    case Call(room, replies) => Replied(w, room, Upload(w.op, room, cfg.srv, replies))
    case Wake(replies) => Replied(w, w.waiting.value, Resume(w.op, w.waiting.value, cfg.srv, replies))
    case Read(c) =>
      var (s, signal) := OnRead(w.op, c);
      w.(op := s, signalled := w.signalled || (signal && w.waiting.Some?),
         received := if s.result.Success? then w.received + Span(c.at, |c.data|) else w.received)
  }

  // ---- what every step keeps ----

  predicate Holds(file: bytes, b: Slot) {
    && 0 < b.used && b.at + b.used <= |file|
    && b.data == file[b.at..b.at + b.used]
  }

  /** Blocks of the file in order of position, disjoint, none of them below `from`. */
  predicate Laid(file: bytes, slots: seq<Slot>, from: nat) {
    slots == [] ||
    (from <= slots[0].at && Holds(file, slots[0]) && Laid(file, slots[1..], slots[0].at + slots[0].used))
  }

  predicate Inside(slots: seq<Slot>, k: nat) {
    slots != [] && (slots[0].at <= k < slots[0].at + slots[0].used || Inside(slots[1..], k))
  }

  /** The uploaded bytes are the file's, and nothing received is lost, repeated or out of order. */
  ghost predicate Faithful(cfg: Config, s: OpState, sent: bytes, received: set<nat>) {
    && cfg.start <= s.offset <= |cfg.file|
    && sent == cfg.file[cfg.start..s.offset]
    && Laid(cfg.file, s.pending, s.offset)
    && (forall k: nat :: k in received <==> (cfg.start <= k < s.offset || Inside(s.pending, k)))
  }

  /** Ownership of buffers, and buffers fit for reuse. */
  ghost predicate Tidy(cfg: Config, s: OpState) {
    && s.current.None? && s.end == cfg.end
    && Conserved(s)
    && |s.registered| <= cfg.srv.concurrency
    && Unused(s.registered)
    && (s.result.Success? && !s.eof ==> Unused(s.free))
  }

  /** A blocked call has a reason to wait and someone who will wake it. */
  predicate Awaited(w: World) {
    w.waiting.Some? ==>
      && w.op.offset != w.op.end
      && (w.signalled || (w.op.registered != [] && !Ready(w.op)))
  }

  ghost predicate Inv(cfg: Config, w: World) {
    && Faithful(cfg, w.op, w.sent, w.received)
    && Tidy(cfg, w.op)
    && Awaited(w)
  }

  // ---- registration ----

  ghost predicate SameStream(s: OpState, r: OpState) {
    r == s.(free := r.free, registered := r.registered, issued := r.issued)
  }

  /** Every allocated buffer is in one place, except `b`, which is in none. */
  ghost predicate OneOut(g: OpState, b: Slot) {
    forall a: nat :: Held(g, a) + (if b.address == a then 1 else 0) == if a < g.issued then 1 else 0
  }

  lemma PushConserves(g: OpState, b: Slot)
    requires OneOut(g, b)
    ensures Conserved(g.(free := [b] + g.free))
    ensures Conserved(g.(registered := [b] + g.registered))
  {
    var f, r := g.(free := [b] + g.free), g.(registered := [b] + g.registered);
    forall a: nat
      ensures Held(f, a) == Held(r, a) == if a < g.issued then 1 else 0
    {
      assert Held(g, a) + (if b.address == a then 1 else 0) == if a < g.issued then 1 else 0;
    }
  }

  lemma TakeBufferKeeps(s: OpState, srv: Server)
    requires Conserved(s) && s.current.None?
    ensures var (g, b) := TakeBuffer(s, srv); OneOut(g, b)
  {
    var (g, b) := TakeBuffer(s, srv);
    var m := BufferGet(s, srv.blockSize, srv.blockSize);
    BufferGetConserves(s, srv.blockSize, srv.blockSize);
    forall a: nat
      ensures Held(g, a) + (if b.address == a then 1 else 0) == if a < g.issued then 1 else 0
    {
      assert Held(m, a) == if a < m.issued then 1 else 0;
    }
  }

  ghost predicate Registrable(s: OpState, i: nat, srv: Server) {
    && Conserved(s) && s.current.None? && Unused(s.free) && Unused(s.registered)
    && |s.registered| == i <= srv.concurrency
  }

  lemma RegisterOneMore(s: OpState, i: nat, srv: Server)
    requires Registrable(s, i, srv) && i < srv.concurrency
    ensures var (g, b) := TakeBuffer(s, srv);
      && SameStream(s, g)
      && Registrable(g.(registered := [b] + g.registered), i + 1, srv)
      && Registrable(g.(free := [b] + g.free), i, srv)
  {
    var (g, b) := TakeBuffer(s, srv);
    TakeBufferKeeps(s, srv);
    PushConserves(g, b);
  }

  lemma {:induction false} RegisterFromKeeps(p: Pass, srv: Server)
    requires Registrable(p.op, p.i, srv)
    ensures var (q, _) := RegisterFrom(p, srv);
      SameStream(p.op, q.op) && p.i <= |q.op.registered| && Registrable(q.op, |q.op.registered|, srv)
    decreases srv.concurrency - p.i
  {
    if !Over(p, srv) {
      RegisterOneMore(p.op, p.i, srv);
      if p.replies.grant != 0 {
        RegisterFromKeeps(Granted(p, srv), srv);
      }
    }
  }

  /** The latest request is for the first of the buffers, and for no more than that can hold; and so on. */
  predicate Fit(requests: seq<Request>, slots: seq<Slot>) {
    requests == [] ||
    var r := requests[|requests| - 1];
    slots != [] && r.address == slots[0].address && r.length <= slots[0].capacity
    && Fit(requests[..|requests| - 1], slots[1..])
  }

  /** Each read asked for is into the buffer registered for it, and for no more than that can hold. */
  lemma {:induction false} RequestsFit(p: Pass, srv: Server)
    requires Fit(p.requests, p.op.registered)
    ensures var (q, _) := RegisterFrom(p, srv);
      |p.requests| <= |q.requests| && Fit(q.requests, q.op.registered)
    decreases srv.concurrency - p.i
  {
    if !Over(p, srv) && p.replies.grant != 0 {
      var g := Granted(p, srv);
      assert g.requests[..|p.requests|] == p.requests;
      assert g.op.registered[1..] == p.op.registered;
      RequestsFit(g, srv);
    }
  }

  /** With nothing outstanding and bytes still to ask for, a pass registers a read or fails. */
  lemma FirstRead(s: OpState, srv: Server, replies: Replies)
    requires Registrable(s, 0, srv) && 0 < srv.concurrency && replies.fault.Failure?
    requires s.offset < UINT64_MAX && s.end <= UINT64_MAX && s.offset != s.end
    ensures var (q, outcome) := RegisterFrom(Begin(s, replies), srv);
      outcome.Failure? || q.op.registered != []
  {
    var p := Begin(s, replies);
    assert Left(s, 0, srv) != 0 || s.end == UINT64_MAX;
    RegisterOneMore(s, 0, srv);
    if replies.grant != 0 {
      RegisterFromKeeps(Granted(p, srv), srv);
    }
  }

  lemma TurnKeeps(cfg: Config, s: OpState, replies: Replies)
    requires cfg.Valid() && Tidy(cfg, s) && s.offset != s.end && replies.fault.Failure?
    requires s.offset < UINT64_MAX
    ensures var (r, wait) := Turn(s, cfg.srv, replies);
      && SameStream(s, r.(result := s.result)) && Tidy(cfg, r)
      && (if wait then r.registered != [] && !Ready(r)
          else (r.result.Failure? && r.registered == []) || Ready(r) || Complete(r))
  {
    if !(Ready(s) || Complete(s)) && s.result.Success? && !s.eof {
      RegisterFromKeeps(Begin(s, replies), cfg.srv);
      if s.registered == [] {
        FirstRead(s, cfg.srv, replies);
      }
      var (r, outcome) := RegisterReads(s, cfg.srv, replies);
      ConservedSameLists(r, r.(result := outcome));
    }
  }

  // ---- copying out ----

  lemma CopyOneTidy(cfg: Config, s: OpState, room: nat)
    requires Tidy(cfg, s) && Ready(s)
    ensures Tidy(cfg, CopyOne(s, room).0)
  {
    var (r, _) := CopyOne(s, room);
    forall a: nat
      ensures Held(r, a) == if a < r.issued then 1 else 0
    {
      assert Held(s, a) == if a < s.issued then 1 else 0;
    }
  }

  lemma InsideAfterCopy(file: bytes, s: OpState, room: nat)
    requires Ready(s) && Laid(file, s.pending, s.offset)
    ensures var (r, got) := CopyOne(s, room);
      && Laid(file, r.pending, r.offset)
      && r.offset == s.offset + |got| && |got| == Min(room, s.pending[0].used)
      && got == file[s.offset..r.offset]
      && forall k: nat :: Inside(s.pending, k) <==> s.offset <= k < r.offset || Inside(r.pending, k)
  {
  }

  lemma CopyOneFaithful(cfg: Config, s: OpState, sent: bytes, received: set<nat>, room: nat)
    requires Faithful(cfg, s, sent, received) && Ready(s) && 0 < room
    ensures var (r, got) := CopyOne(s, room);
      && 0 < |got| == Min(room, s.pending[0].used)
      && r == s.(offset := s.offset + |got|, pending := r.pending, free := r.free)
      && Faithful(cfg, r, sent + got, received)
  {
    InsideAfterCopy(cfg.file, s, room);
  }

  lemma {:induction false} CopyOutTidy(cfg: Config, s: OpState, room: nat)
    requires Tidy(cfg, s)
    ensures Tidy(cfg, CopyOut(s, room).0)
    decreases room
  {
    if room != 0 && Ready(s) && s.pending[0].used != 0 {
      CopyOneTidy(cfg, s, room);
      CopyOutTidy(cfg, CopyOne(s, room).0, room - Min(room, s.pending[0].used));
    }
  }

  lemma {:induction false} CopyOutFaithful(cfg: Config, s: OpState, sent: bytes, received: set<nat>, room: nat)
    requires Faithful(cfg, s, sent, received)
    ensures var (r, got) := CopyOut(s, room);
      && |got| <= room && (|got| == room || !Ready(r))
      && r == s.(offset := r.offset, pending := r.pending, free := r.free)
      && Faithful(cfg, r, sent + got, received)
    decreases room
  {
    if room == 0 || !Ready(s) {
      CopyOutEnds(s, room);
      assert sent + [] == sent;
    } else {
      var (s1, got) := CopyOne(s, room);
      CopyOneFaithful(cfg, s, sent, received, room);
      CopyOutFaithful(cfg, s1, sent + got, received, room - |got|);
      CopyOutStep(s, room);
      Assoc(sent, got, CopyOut(s1, room - |got|).1);
    }
  }

  // ---- the read callback ----

  lemma {:induction false} InsertLaid(file: bytes, slots: seq<Slot>, from: nat, b: Slot)
    requires Laid(file, slots, from) && from <= b.at && Holds(file, b)
    requires forall k: nat :: b.at <= k < b.at + b.used ==> !Inside(slots, k)
    ensures Laid(file, Insert(slots, b), from)
    ensures forall k: nat :: Inside(Insert(slots, b), k) <==> Inside(slots, k) || b.at <= k < b.at + b.used
  {
    if slots != [] {
      if slots[0].at + slots[0].used <= b.at {
        assert forall k: nat :: Inside(slots[1..], k) ==> Inside(slots, k);
        InsertLaid(file, slots[1..], slots[0].at + slots[0].used, b);
      } else {
        assert !Inside(slots, b.at);
        assert slots[0].at < b.at + b.used ==> Inside(slots, slots[0].at);
      }
    }
  }

  lemma {:induction false} InsertTimes(slots: seq<Slot>, b: Slot, a: nat)
    ensures Times(Insert(slots, b), a) == Times(slots, a) + if b.address == a then 1 else 0
  {
    if slots != [] && slots[0].at + slots[0].used <= b.at {
      InsertTimes(slots[1..], b, a);
    }
  }

  /** Every read callback the server may make signals the waiting call. */
  lemma EveryCallbackSignals(cfg: Config, w: World, c: Completion)
    requires Allowed(cfg, w, Read(c))
    ensures OnRead(w.op, c).1
  {
  }

  lemma OnReadConserves(s: OpState, c: Completion)
    requires Named(s.registered, c.address) && Conserved(s)
    ensures Conserved(OnRead(s, c).0)
  {
    var (r, _) := OnRead(s, c);
    var i := Find(s.registered, c.address);
    var b := s.registered[i];
    forall a: nat
      ensures Held(r, a) == if a < r.issued then 1 else 0
    {
      assert Held(s, a) == if a < s.issued then 1 else 0;
      TimesWithout(s.registered, i, a);
      InsertTimes(s.pending, b.(used := |c.data|, at := c.at, data := c.data), a);
    }
  }

  lemma OnReadKeeps(cfg: Config, w: World, c: Completion)
    requires Faithful(cfg, w.op, w.sent, w.received) && Tidy(cfg, w.op)
    requires Allowed(cfg, w, Read(c))
    ensures var w' := Step(cfg, w, Read(c));
      Faithful(cfg, w'.op, w'.sent, w'.received) && Tidy(cfg, w'.op)
  {
    OnReadConserves(w.op, c);
    var (r, _) := OnRead(w.op, c);
    if r.result.Success? && c.data != [] {
      NothingThere(cfg, w, c);
      var b := w.op.registered[Find(w.op.registered, c.address)].(used := |c.data|, at := c.at, data := c.data);
      InsertLaid(cfg.file, w.op.pending, w.op.offset, b);
    }
  }

  /** Nothing that a good read brings has been uploaded or is pending. */
  lemma NothingThere(cfg: Config, w: World, c: Completion)
    requires Faithful(cfg, w.op, w.sent, w.received) && Honest(cfg, w, c)
    requires w.op.result.Success? && c.outcome.Success? && c.data != []
    ensures w.op.offset <= c.at && forall k: nat :: c.at <= k < c.at + |c.data| ==> !Inside(w.op.pending, k)
  {
    assert Within(c.at, c.at, |c.data|);
    assert c.at in Span(c.at, |c.data|);
    forall k: nat | c.at <= k < c.at + |c.data|
      ensures !Inside(w.op.pending, k)
    {
      assert Within(k, c.at, |c.data|);
      assert k in Span(c.at, |c.data|);
    }
  }

  // ---- whole runs ----

  /** The world after these events, if each of them is allowed when it happens. */
  ghost function Run(cfg: Config, events: seq<Event>): Option<World> {
    if events == [] then Some(Start(cfg))
    else
      var last := |events| - 1;
      match Run(cfg, events[..last])
      case None => None
      case Some(w) => if Allowed(cfg, w, events[last]) then Some(Step(cfg, w, events[last])) else None
  }

  lemma ResumeKeeps(cfg: Config, w: World, room: nat, replies: Replies)
    requires cfg.Valid() && Inv(cfg, w) && w.op.offset != w.op.end && replies.fault.Failure?
    ensures Inv(cfg, Replied(w, room, Resume(w.op, room, cfg.srv, replies)))
  {
    TurnKeeps(cfg, w.op, replies);
    var (s1, wait) := Turn(w.op, cfg.srv, replies);
    assert Faithful(cfg, s1, w.sent, w.received);
    assert w.sent + [] == w.sent;
    if !wait && s1.result.Success? {
      CopyOutFaithful(cfg, s1, w.sent, w.received, room);
      CopyOutTidy(cfg, s1, room);
    }
  }

  lemma StepKeeps(cfg: Config, w: World, e: Event)
    requires cfg.Valid() && Inv(cfg, w) && Allowed(cfg, w, e)
    ensures Inv(cfg, Step(cfg, w, e))
  {
    match e
    case Call(room, replies) =>
      if w.op.offset == w.op.end {
        ConservedSameLists(w.op, w.op.(eof := true));
        assert w.sent + [] == w.sent;
      } else {
        ResumeKeeps(cfg, w, room, replies);
      }
    case Wake(replies) =>
      ResumeKeeps(cfg, w, w.waiting.value, replies);
    case Read(c) =>
      OnReadKeeps(cfg, w, c);
      EveryCallbackSignals(cfg, w, c);
  }

  lemma {:induction false} RunKeeps(cfg: Config, events: seq<Event>)
    requires cfg.Valid() && Run(cfg, events).Some?
    ensures Inv(cfg, Run(cfg, events).value)
  {
    if events == [] {
      var w := Start(cfg);
      assert forall a: nat :: Held(w.op, a) == 0;
    } else {
      var last := |events| - 1;
      RunKeeps(cfg, events[..last]);
      StepKeeps(cfg, Run(cfg, events[..last]).value, events[last]);
    }
  }

  /**
   * Whatever the interleaving and the order of arrival, what has been uploaded is the file from
   * the start of the range to `offset`, and what is held back lies in order above it.
   */
  lemma UploadedInOrder(cfg: Config, events: seq<Event>)
    requires cfg.Valid() && Run(cfg, events).Some?
    ensures var w := Run(cfg, events).value;
      && cfg.start <= w.op.offset <= |cfg.file|
      && w.sent == cfg.file[cfg.start..w.op.offset]
      && Laid(cfg.file, w.op.pending, w.op.offset)
      && forall k: nat :: k in w.received <==> (cfg.start <= k < w.op.offset || Inside(w.op.pending, k))
  {
    RunKeeps(cfg, events);
  }

  /** Buffers are neither lost nor shared, and at most the permitted number is with the server. */
  lemma BuffersConserved(cfg: Config, events: seq<Event>)
    requires cfg.Valid() && Run(cfg, events).Some?
    ensures var s := Run(cfg, events).value.op;
      && Conserved(s) && |s.registered| <= cfg.srv.concurrency
      && (s.result.Success? && !s.eof ==> Unused(s.free))
  {
    RunKeeps(cfg, events);
  }

  lemma {:induction false} LaidIsFilled(file: bytes, slots: seq<Slot>, from: nat)
    requires Laid(file, slots, from)
    ensures Filled(slots)
  {
    if slots != [] {
      LaidIsFilled(file, slots[1..], slots[0].at + slots[0].used);
    }
  }

  /** No run reaches a state in which an assertion of the upload code fails. */
  lemma AssertionsHold(cfg: Config, events: seq<Event>)
    requires cfg.Valid() && Run(cfg, events).Some?
    ensures Safe(Run(cfg, events).value.op)
  {
    RunKeeps(cfg, events);
    var s := Run(cfg, events).value.op;
    LaidIsFilled(cfg.file, s.pending, s.offset);
  }

  /**
   * A call that waits is never stuck: either a signal is on its way to it, or its condition still
   * holds and a read is outstanding, and any way the server may complete that read signals it.
   */
  lemma NoLostWakeup(cfg: Config, events: seq<Event>, c: Completion)
    requires cfg.Valid() && Run(cfg, events).Some?
    requires Run(cfg, events).value.waiting.Some?
    ensures var w := Run(cfg, events).value;
      && (w.signalled || (w.op.registered != [] && !Ready(w.op) && !Complete(w.op)))
      && (Allowed(cfg, w, Read(c)) ==> Step(cfg, w, Read(c)).signalled)
  {
    RunKeeps(cfg, events);
  }

  /**
   * Why the contract has a read without bytes mean the end: such a read leaves the next registration
   * safe if and only if reading is then over.
   */
  lemma EmptyReadSafeIffEnd(s: OpState, c: Completion)
    requires Safe(s) && s.result.Success? && Named(s.registered, c.address)
    requires c.outcome.Success? && c.data == []
    ensures Safe(OnRead(s, c).0) <==> s.eof || c.eof || ReachesEnd(s, c)
  {
    assert OnRead(s, c).0.free[0].used == UINT64_MAX;
  }

  lemma {:induction false} GrantedSucceeds(p: Pass, srv: Server)
    requires srv.concurrency <= p.i + p.replies.grant
    ensures RegisterFrom(p, srv).1 == Success
    decreases srv.concurrency - p.i
  {
    if !Over(p, srv) {
      GrantedSucceeds(Granted(p, srv), srv);
    }
  }

  /** The first upload call of a transfer whose reads are all accepted waits for them. */
  lemma FirstCallWaits(cfg: Config, e: Event)
    requires cfg.Valid() && cfg.start != cfg.end && e == Call(1, Replies(cfg.srv.concurrency, Failure(0)))
    ensures var w := Step(cfg, Start(cfg), e);
      w.op.registered != [] && w.op.result.Success? && !w.op.eof && w.op.end == cfg.end && w.op.offset == cfg.start
  {
    var s := Start(cfg).op;
    assert forall a: nat :: Held(s, a) == 0;
    GrantedSucceeds(Begin(s, e.replies), cfg.srv);
    FirstRead(s, cfg.srv, e.replies);
    RegisterFromKeeps(Begin(s, e.replies), cfg.srv);
  }

  /** In every transfer of anything at all, a read without bytes and without the end can do the harm. */
  lemma EmptyReadHarms(cfg: Config) returns (events: seq<Event>, c: Completion)
    requires cfg.Valid() && cfg.start != cfg.end
    ensures Run(cfg, events).Some? && Possible(Run(cfg, events).value, Read(c))
    ensures c.outcome.Success? && c.data == [] && !c.eof
    ensures !Safe(Step(cfg, Run(cfg, events).value, Read(c)).op)
  {
    var e := Call(1, Replies(cfg.srv.concurrency, Failure(0)));
    events := [e];
    FirstCallWaits(cfg, e);
    assert events[..0] == [];
    assert Run(cfg, []) == Some(Start(cfg));
    var w := Run(cfg, events).value;
    c := Completion(w.op.registered[0].address, Success, cfg.start, [], false);
    AssertionsHold(cfg, events);
    assert Named(w.op.registered, c.address);
    EmptyReadSafeIffEnd(w.op, c);
  }

  /** The same of the steps of a call from the top of its waiting loop. */
  lemma ResumeKeepsVerdict(cfg: Config, w: World, room: nat, replies: Replies)
    requires cfg.Valid() && Inv(cfg, w) && w.op.offset != w.op.end && replies.fault.Failure?
    ensures var (s, reply) := Resume(w.op, room, cfg.srv, replies);
      && s.serverEof == w.op.serverEof
      && (w.op.result.Failure? ==> s.result == w.op.result && (reply == Blocked || reply == Returned(w.op.result, [])))
  {
    TurnKeeps(cfg, w.op, replies);
    var (s1, wait) := Turn(w.op, cfg.srv, replies);
    if !wait && s1.result.Success? {
      CopyOutFaithful(cfg, s1, w.sent, w.received, room);
    }
  }

  /** An upload call changes neither what the server has flagged nor an error there has been. */
  lemma CallKeepsVerdict(cfg: Config, w: World, e: Event)
    requires cfg.Valid() && Inv(cfg, w) && Allowed(cfg, w, e) && !e.Read?
    ensures var w' := Step(cfg, w, e);
      && w'.op.serverEof == w.op.serverEof
      && (w.op.result.Failure? ==> w'.op.result == w.op.result)
      && (w.op.result.Failure? && w.op.offset != w.op.end ==>
            w'.last == Blocked || w'.last == Returned(w.op.result, []))
  {
    if w.op.offset != w.op.end {
      ResumeKeepsVerdict(cfg, w, RoomOf(w, e).value, e.replies);
    }
  }

  /** The first error is the transfer's for good, and what every later call that returns reports. */
  lemma FirstErrorStays(cfg: Config, events: seq<Event>, e: Event)
    requires cfg.Valid() && Run(cfg, events).Some? && Allowed(cfg, Run(cfg, events).value, e)
    requires Run(cfg, events).value.op.result.Failure?
    ensures var w := Run(cfg, events).value; var w' := Step(cfg, w, e);
      && w'.op.result == w.op.result
      && (!e.Read? && w.op.offset != w.op.end ==> w'.last == Blocked || w'.last == Returned(w.op.result, []))
  {
    RunKeeps(cfg, events);
    if !e.Read? {
      CallKeepsVerdict(cfg, Run(cfg, events).value, e);
    }
  }

  /** Over runs: whatever happens after a failure, it is still the result. */
  lemma {:induction false} FirstErrorLasts(cfg: Config, events: seq<Event>, more: seq<Event>)
    requires cfg.Valid() && Run(cfg, events).Some? && Run(cfg, events).value.op.result.Failure?
    requires Run(cfg, events + more).Some?
    ensures Run(cfg, events + more).value.op.result == Run(cfg, events).value.op.result
    decreases |more|
  {
    if more == [] {
      assert events + more == events;
    } else {
      var n := |more| - 1;
      RunLast(cfg, events, more);
      FirstErrorLasts(cfg, events, more[..n]);
      FirstErrorStays(cfg, events + more[..n], more[n]);
    }
  }

  /** And later calls that return report it, if and only if the end of the range has not been reached. */
  lemma FailureReportedIff(cfg: Config, events: seq<Event>, more: seq<Event>, e: Event)
    requires cfg.Valid() && Run(cfg, events).Some? && Run(cfg, events).value.op.result.Failure?
    requires Run(cfg, events + more).Some? && Allowed(cfg, Run(cfg, events + more).value, e)
    requires !e.Read? && Step(cfg, Run(cfg, events + more).value, e).last.Returned?
    ensures var w := Run(cfg, events + more).value; var last := Step(cfg, w, e).last;
      && (last == Returned(Run(cfg, events).value.op.result, []) <==> w.op.offset != w.op.end)
      && (last == Returned(Success, []) <==> w.op.offset == w.op.end)
  {
    FirstErrorLasts(cfg, events, more);
    RunKeeps(cfg, events + more);
    FirstErrorStays(cfg, events + more, e);
  }

  predicate Flagged(events: seq<Event>) {
    exists k :: 0 <= k < |events| && events[k].Read? && events[k].c.eof
  }

  lemma FlaggedLast(events: seq<Event>)
    requires events != []
    ensures var last := |events| - 1;
      Flagged(events) <==> Flagged(events[..last]) || (events[last].Read? && events[last].c.eof)
  {
    var before := events[..|events| - 1];
    assert forall k :: 0 <= k < |before| ==> before[k] == events[k];
  }

  lemma StepReports(cfg: Config, w: World, e: Event)
    requires cfg.Valid() && Inv(cfg, w) && Allowed(cfg, w, e)
    ensures Step(cfg, w, e).op.serverEof <==> w.op.serverEof || (e.Read? && e.c.eof)
  {
    if !e.Read? {
      CallKeepsVerdict(cfg, w, e);
    }
  }

  /** The caller of the transfer is told of the end of the file exactly when a read has flagged it. */
  lemma {:induction false} EofIsReported(cfg: Config, events: seq<Event>)
    requires cfg.Valid() && Run(cfg, events).Some?
    ensures Run(cfg, events).value.op.serverEof <==> Flagged(events)
  {
    if events != [] {
      var last := |events| - 1;
      EofIsReported(cfg, events[..last]);
      RunKeeps(cfg, events[..last]);
      FlaggedLast(events);
      StepReports(cfg, Run(cfg, events[..last]).value, events[last]);
    }
  }

  /** The room of the upload buffer that a step fills; none for a read callback. */
  function RoomOf(w: World, e: Event): Option<nat> {
    match e
    case Call(room, _) => Some(room)
    case Wake(_) => w.waiting
    case Read(_) => None
  }

  ghost predicate Gapless(cfg: Config, received: set<nat>, upTo: nat) {
    cfg.start <= upTo && forall k: nat :: k in received <==> cfg.start <= k < upTo
  }

  /** A call that returns without data while its head is not ready has nothing left with the server. */
  lemma EmptyReturn(cfg: Config, events: seq<Event>, e: Event)
    requires cfg.Valid() && Run(cfg, events).Some? && Allowed(cfg, Run(cfg, events).value, e)
    requires var w := Run(cfg, events).value;
      && RoomOf(w, e).Some? && 0 < RoomOf(w, e).value
      && Step(cfg, w, e).last.Returned? && Step(cfg, w, e).last.data == []
    ensures var w := Run(cfg, events).value; var w' := Step(cfg, w, e);
      && w'.op.offset == w.op.offset && w'.op.pending == w.op.pending && w'.received == w.received && w'.sent == w.sent
      && (w.op.offset != w.op.end && !Ready(w'.op) ==> w'.op.registered == [])
      && (w'.last.outcome.Success? ==> (w'.op.eof && !Ready(w'.op)) || w.op.offset == w.op.end)
  {
    var w := Run(cfg, events).value;
    RunKeeps(cfg, events);
    var replies := e.replies;
    if w.op.offset != w.op.end {
      TurnKeeps(cfg, w.op, replies);
      var (s1, wait) := Turn(w.op, cfg.srv, replies);
      if s1.result.Success? && Ready(s1) {
        CopyOneFaithful(cfg, s1, w.sent, w.received, RoomOf(w, e).value);
      }
    }
    assert w.sent + [] == w.sent;
  }

  /**
   * The end of the upload is truthful: when the ranges received leave no gap and stay inside the
   * range asked for, a call returns no data only when every byte received has been uploaded.
   */
  lemma EndIsTruthful(cfg: Config, events: seq<Event>, e: Event, upTo: nat)
    requires cfg.Valid() && Run(cfg, events).Some? && Allowed(cfg, Run(cfg, events).value, e)
    requires var w := Run(cfg, events).value;
      && RoomOf(w, e).Some? && 0 < RoomOf(w, e).value
      && Step(cfg, w, e).last == Returned(Success, [])
      && Gapless(cfg, w.received, upTo) && upTo <= cfg.end
    ensures upTo <= |cfg.file| && Step(cfg, Run(cfg, events).value, e).sent == cfg.file[cfg.start..upTo]
  {
    var w := Run(cfg, events).value;
    RunKeeps(cfg, events);
    EmptyReturn(cfg, events, e);
    if w.op.pending != [] {
      var head := w.op.pending[0];
      assert Inside(w.op.pending, head.at);
      LaidAbove(cfg.file, w.op.pending, w.op.offset, w.op.offset);
      assert false;
    }
    assert forall k: nat :: k in w.received <==> cfg.start <= k < w.op.offset;
    assert upTo == w.op.offset by {
      assert upTo !in w.received;
      assert w.op.offset !in w.received;
    }
  }

  lemma {:induction false} LaidAbove(file: bytes, slots: seq<Slot>, from: nat, k: nat)
    requires Laid(file, slots, from) && (k < from || (slots != [] && k < slots[0].at))
    ensures !Inside(slots, k)
  {
    if slots != [] {
      LaidAbove(file, slots[1..], slots[0].at + slots[0].used, k);
    }
  }

  // ---- reaching the end ----

  /** All reads are over without an error, and what they brought leaves no gap up to `upTo`. */
  ghost predicate Arrived(cfg: Config, w: World, upTo: nat) {
    && w.op.result.Success? && w.op.eof && w.op.registered == []
    && Gapless(cfg, w.received, upTo) && upTo <= cfg.end
    && (w.waiting.Some? ==> 0 < w.waiting.value)
  }

  /** With no gap, the block that is due is at the head unless everything has been passed on. */
  lemma HeadIsDue(cfg: Config, w: World, upTo: nat)
    requires Faithful(cfg, w.op, w.sent, w.received) && Gapless(cfg, w.received, upTo)
    ensures w.op.offset <= upTo
    ensures if w.op.offset < upTo then Ready(w.op) else w.op.pending == []
  {
    var s := w.op;
    assert cfg.start < s.offset ==> s.offset - 1 in w.received;
    if s.offset < upTo {
      assert s.offset in w.received;
      if !Ready(s) {
        LaidAbove(cfg.file, s.pending, s.offset, s.offset);
      }
    }
    assert s.pending != [] ==> Inside(s.pending, s.pending[0].at);
  }

  /** Then an upload call with room passes on at least a byte, or says that the end is reached. */
  lemma CallProgresses(cfg: Config, w: World, e: Event, upTo: nat)
    requires cfg.Valid() && Inv(cfg, w) && Arrived(cfg, w, upTo) && Allowed(cfg, w, e)
    requires RoomOf(w, e).Some? && 0 < RoomOf(w, e).value
    ensures var w' := Step(cfg, w, e);
      && Inv(cfg, w') && Arrived(cfg, w', upTo) && w.op.offset <= upTo
      && (if w.op.offset < upTo then w.op.offset < w'.op.offset
          else w'.op.offset == upTo && w'.last == Returned(Success, []))
  {
    StepKeeps(cfg, w, e);
    HeadIsDue(cfg, w, upTo);
    if w.op.offset != w.op.end {
      var room := RoomOf(w, e).value;
      CopyOutFaithful(cfg, w.op, w.sent, w.received, room);
      if w.op.offset < upTo {
        CopyOneFaithful(cfg, w.op, w.sent, w.received, room);
        CopyOutStep(w.op, room);
        var s1 := CopyOne(w.op, room).0;
        CopyOutFaithful(cfg, s1, w.sent + CopyOne(w.op, room).1, w.received, room - Min(room, w.op.pending[0].used));
      } else {
        CopyOutEnds(w.op, room);
      }
    }
  }

  /** Upload calls and wake-ups only, with room in every buffer. */
  predicate Roomy(calls: seq<Event>) {
    forall k :: 0 <= k < |calls| ==> !calls[k].Read? && (calls[k].Call? ==> 0 < calls[k].room)
  }

  lemma RunEnds(cfg: Config, all: seq<Event>)
    requires all != [] && Run(cfg, all).Some?
    ensures var n := |all| - 1;
      && Run(cfg, all[..n]).Some?
      && Allowed(cfg, Run(cfg, all[..n]).value, all[n])
      && Run(cfg, all).value == Step(cfg, Run(cfg, all[..n]).value, all[n])
  {
  }

  lemma Front(events: seq<Event>, calls: seq<Event>)
    requires calls != []
    ensures var all, n := events + calls, |calls| - 1;
      all != [] && all[..|all| - 1] == events + calls[..n] && all[|all| - 1] == calls[n]
  {
  }

  lemma RunLast(cfg: Config, events: seq<Event>, calls: seq<Event>)
    requires calls != [] && Run(cfg, events + calls).Some?
    ensures var n := |calls| - 1;
      && Run(cfg, events + calls[..n]).Some?
      && Allowed(cfg, Run(cfg, events + calls[..n]).value, calls[n])
      && Run(cfg, events + calls).value == Step(cfg, Run(cfg, events + calls[..n]).value, calls[n])
  {
    Front(events, calls);
    RunEnds(cfg, events + calls);
  }

  /**
   * Once all reads are over, as many calls as there are bytes left, and one more, reach the call that
   * gives no data, with every byte received uploaded.
   */
  lemma {:induction false} CallsReachTheEnd(cfg: Config, events: seq<Event>, calls: seq<Event>, upTo: nat)
    requires cfg.Valid() && Run(cfg, events).Some? && Arrived(cfg, Run(cfg, events).value, upTo)
    requires Run(cfg, events + calls).Some? && Roomy(calls)
    ensures var w := Run(cfg, events).value; var w' := Run(cfg, events + calls).value;
      && Arrived(cfg, w', upTo) && w'.op.offset <= upTo <= |cfg.file|
      && (w'.op.offset < upTo ==> w.op.offset + |calls| <= w'.op.offset)
      && (upTo < w.op.offset + |calls| ==>
            w'.last == Returned(Success, []) && w'.sent == cfg.file[cfg.start..upTo])
    decreases |calls|
  {
    RunKeeps(cfg, events + calls);
    if calls == [] {
      assert events + calls == events;
      HeadIsDue(cfg, Run(cfg, events).value, upTo);
      UpToIsInFile(cfg, Run(cfg, events).value, upTo);
    } else {
      var n := |calls| - 1;
      RunLast(cfg, events, calls);
      CallsReachTheEnd(cfg, events, calls[..n], upTo);
      RunKeeps(cfg, events + calls[..n]);
      var v := Run(cfg, events + calls[..n]).value;
      CallProgresses(cfg, v, calls[n], upTo);
      HeadIsDue(cfg, Run(cfg, events + calls).value, upTo);
    }
  }

  lemma {:induction false} LaidInFile(file: bytes, slots: seq<Slot>, from: nat, k: nat)
    requires Laid(file, slots, from) && Inside(slots, k)
    ensures k < |file|
  {
    if !(slots[0].at <= k < slots[0].at + slots[0].used) {
      LaidInFile(file, slots[1..], slots[0].at + slots[0].used, k);
    }
  }

  lemma UpToIsInFile(cfg: Config, w: World, upTo: nat)
    requires Faithful(cfg, w.op, w.sent, w.received) && Gapless(cfg, w.received, upTo)
    ensures upTo <= |cfg.file|
  {
    if |cfg.file| < upTo {
      assert upTo - 1 in w.received;
      LaidInFile(cfg.file, w.op.pending, w.op.offset, upTo - 1);
    }
  }
}
