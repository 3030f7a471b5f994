/** How reading comes to its end, which error is a transfer's result, and what signals a waiting call. */
module ReorderOutcomes {
  import opened Bytes
  import opened OpStates
  import opened Reorder
  import opened ReorderRuns
  import opened ReorderRange

  // ---- when reading is over ----

  /** The range ends where these bytes do; an end of 0 is none. */
  predicate EndsRange(cfg: Config, c: Completion) {
    cfg.end != 0 && c.at + |c.data| == cfg.end
  }

  /**
   * What ends reading, told from the events: a read that the server marks as the last, that fails or
   * comes after a failure, or that reaches the end of the range; or a call at the end of the range.
   */
  ghost predicate Ends(cfg: Config, before: seq<Event>, e: Event) {
    Run(cfg, before).Some? &&
    var w := Run(cfg, before).value;
    match e
    case Read(c) => c.eof || c.outcome.Failure? || w.op.result.Failure? || EndsRange(cfg, c)
    case Call(_, _) => cfg.start + |w.sent| == cfg.end
    case Wake(_) => false
  }

  ghost predicate Ended(cfg: Config, events: seq<Event>) {
    exists k :: 0 <= k < |events| && Ends(cfg, events[..k], events[k])
  }

  lemma EndedLast(cfg: Config, events: seq<Event>, n: nat)
    requires |events| == n + 1
    ensures Ended(cfg, events) <==> Ended(cfg, events[..n]) || Ends(cfg, events[..n], events[n])
  {
    var before := events[..n];
    assert forall k :: 0 <= k < n ==> before[k] == events[k] && before[..k] == events[..k];
    if Ended(cfg, before) {
      var k :| 0 <= k < n && Ends(cfg, before[..k], before[k]);
      assert Ends(cfg, events[..k], events[k]);
    }
  }

  /** The steps of a call from the top of its waiting loop: what they leave alone, and what they come back with. */
  lemma ResumeLeaves(cfg: Config, w: World, room: nat, replies: Replies)
    requires cfg.Valid() && Inv(cfg, w) && w.op.offset != w.op.end && replies.fault.Failure?
    ensures var (s, reply) := Resume(w.op, room, cfg.srv, replies); var (t, _) := Turn(w.op, cfg.srv, replies);
      && s.eof == w.op.eof && s.result == t.result && s.registered == t.registered && s.issued == t.issued
      && (reply.Returned? ==> reply.outcome == s.result)
  {
    TurnKeeps(cfg, w.op, replies);
    var (s1, wait) := Turn(w.op, cfg.srv, replies);
    if !wait && s1.result.Success? {
      CopyOutFaithful(cfg, s1, w.sent, w.received, room);
    }
  }

  lemma StepEnds(cfg: Config, events: seq<Event>, e: Event)
    requires cfg.Valid() && Run(cfg, events).Some? && Allowed(cfg, Run(cfg, events).value, e)
    ensures var w := Run(cfg, events).value;
      Step(cfg, w, e).op.eof <==> w.op.eof || Ends(cfg, events, e)
  {
    RunKeeps(cfg, events);
    var w := Run(cfg, events).value;
    if !e.Read? && w.op.offset != w.op.end {
      ResumeLeaves(cfg, w, RoomOf(w, e).value, e.replies);
    }
  }

  /** In every run, reading is over if and only if something has ended it. */
  lemma {:induction false} ReadingIsOverIff(cfg: Config, events: seq<Event>)
    requires cfg.Valid() && Run(cfg, events).Some?
    ensures Run(cfg, events).value.op.eof <==> Ended(cfg, events)
  {
    if events != [] {
      var n := |events| - 1;
      RunEnds(cfg, events);
      ReadingIsOverIff(cfg, events[..n]);
      StepEnds(cfg, events[..n], events[n]);
      EndedLast(cfg, events, n);
    }
  }

  /** Once reading is over or the transfer has failed, a pass asks for nothing and registers nothing. */
  lemma IdlePass(cfg: Config, w: World, e: Event)
    requires cfg.Valid() && Inv(cfg, w) && Allowed(cfg, w, e) && !e.Read? && (w.op.eof || w.op.result.Failure?)
    ensures Requests(w.op, cfg.srv, e.replies) == []
    ensures var s := Step(cfg, w, e).op; s.registered == w.op.registered && s.issued == w.op.issued
  {
    if w.op.offset != w.op.end {
      ResumeLeaves(cfg, w, RoomOf(w, e).value, e.replies);
    }
  }

  /** And so in every run: whatever happens after that, nothing more is asked of the server. */
  lemma NothingAskedAfter(cfg: Config, events: seq<Event>, more: seq<Event>, e: Event)
    requires cfg.Valid() && Run(cfg, events).Some? && Run(cfg, events + more).Some?
    requires Ended(cfg, events) || Run(cfg, events).value.op.result.Failure?
    requires Allowed(cfg, Run(cfg, events + more).value, e) && !e.Read?
    ensures var w := Run(cfg, events + more).value; var s := Step(cfg, w, e).op;
      && Requests(w.op, cfg.srv, e.replies) == []
      && s.registered == w.op.registered && s.issued == w.op.issued
  {
    RunKeeps(cfg, events + more);
    if Ended(cfg, events) {
      var k :| 0 <= k < |events| && Ends(cfg, events[..k], events[k]);
      assert (events + more)[..k] == events[..k] && (events + more)[k] == events[k];
      ReadingIsOverIff(cfg, events + more);
    } else {
      FirstErrorLasts(cfg, events, more);
    }
    IdlePass(cfg, Run(cfg, events + more).value, e);
  }

  // ---- what a pass asks for ----

  /** The bytes left when `j` more blocks have been asked for. */
  function Part(left: nat, j: nat, size: nat): int {
    if left - j * size < size then left - j * size else size
  }

  /** The requests of a pass from the n-th on ask for a block each, or for what is left, and for something. */
  predicate InBlocks(requests: seq<Request>, n: nat, left: nat, endless: bool, size: nat) {
    forall k :: n <= k < |requests| ==>
      0 < requests[k].length == if endless then size else Part(left, k - n, size)
  }

  /** What is asked for after the first block; nothing is, where less than a block was left. */
  lemma PartAfter(left: nat, j: nat, size: nat, length: nat)
    requires 0 < j && 0 < size && 0 < length == Part(left - Min(left, size), j - 1, size)
    ensures length == Part(left, j, size)
  {
    assert j * size == (j - 1) * size + size;
    assert 0 <= (j - 1) * size;
  }

  lemma {:induction false} PassInBlocks(p: Pass, srv: Server)
    requires Sized(p.op.free, srv.blockSize) && p.op.current.None? && 0 < srv.blockSize
    ensures var q := RegisterFrom(p, srv).0;
      && p.requests <= q.requests && |q.op.registered| == |p.op.registered| + |q.requests| - |p.requests|
      && InBlocks(q.requests, |p.requests|, Left(p.op, p.booked, srv), p.op.end == UINT64_MAX, srv.blockSize)
    decreases srv.concurrency - p.i
  {
    if !Over(p, srv) && p.replies.grant != 0 {
      var g, left, n := Granted(p, srv), Left(p.op, p.booked, srv), |p.requests|;
      OneTurn(p, srv);
      PassInBlocks(g, srv);
      var all := RegisterFrom(g, srv).0.requests;
      assert all[n] == g.requests[n];
      assert g.requests[n].length == Min(left, srv.blockSize);
      if p.op.end != UINT64_MAX {
        TakeOff(p.op.end - p.op.offset - p.booked, g.booked - p.booked);
        assert Left(g.op, g.booked, srv) == left - Min(left, srv.blockSize);
        NextInBlocks(all, n, left, srv.blockSize);
      }
    }
  }

  lemma NextInBlocks(requests: seq<Request>, n: nat, left: nat, size: nat)
    requires n < |requests| && 0 < size && 0 < left && requests[n].length == Min(left, size)
    requires InBlocks(requests, n + 1, left - Min(left, size), false, size)
    ensures InBlocks(requests, n, left, false, size)
  {
    forall k | n <= k < |requests|
      ensures 0 < requests[k].length == Part(left, k - n, size)
    {
      if n < k {
        PartAfter(left, k - n, size, requests[k].length);
      }
    }
  }

  /** What is taken to be left of the range while `n` reads are outstanding. */
  function Missing(cfg: Config, offset: nat, n: nat): nat {
    if cfg.end == UINT64_MAX then cfg.srv.blockSize
    else (cfg.end - offset - n * cfg.srv.blockSize) % 0x1_0000_0000_0000_0000
  }

  lemma LeftIsMissing(cfg: Config, s: OpState)
    requires Unused(s.registered) && Sized(s.registered, cfg.srv.blockSize) && s.end == cfg.end
    ensures Left(s, Room(s.registered), cfg.srv) == Missing(cfg, s.offset, |s.registered|)
  {
    RoomIs(s.registered, cfg.srv.blockSize);
  }

  lemma TurnInBlocks(cfg: Config, w: World, e: Event)
    requires cfg.Valid() && Inv(cfg, w) && AllSized(w.op, cfg.srv.blockSize) && Registers(w, e)
    ensures var s := Turn(w.op, cfg.srv, e.replies).0; var asks := Asking(cfg, w, e);
      && |s.registered| == |w.op.registered| + |asks|
      && InBlocks(asks, 0, Missing(cfg, w.op.offset, |w.op.registered|), cfg.end == UINT64_MAX, cfg.srv.blockSize)
  {
    LeftIsMissing(cfg, w.op);
    PassInBlocks(Begin(w.op, e.replies), cfg.srv);
  }

  /**
   * A step asks for reads of a block each, but for the last in the range, which is for what is taken to be
   * left; none is for nothing, and each of them is registered.
   */
  lemma AsksInBlocks(cfg: Config, events: seq<Event>, e: Event, k: nat)
    requires cfg.Valid() && Run(cfg, events).Some? && Allowed(cfg, Run(cfg, events).value, e) && !e.Read?
    requires k < |Asking(cfg, Run(cfg, events).value, e)|
    ensures var w := Run(cfg, events).value; var asks := Asking(cfg, w, e); var size := cfg.srv.blockSize;
      && |Step(cfg, w, e).op.registered| == |w.op.registered| + |asks|
      && 0 < asks[k].length
      && asks[k].length
         == if cfg.end == UINT64_MAX then size else Part(Missing(cfg, w.op.offset, |w.op.registered|), k, size)
  {
    RunKeeps(cfg, events);
    RunSized(cfg, events);
    var w := Run(cfg, events).value;
    TurnInBlocks(cfg, w, e);
    ResumeLeaves(cfg, w, RoomOf(w, e).value, e.replies);
  }

  // ---- which error is the result ----

  /**
   * The server refuses a read in this step, as can be seen before it: it grants fewer than the concurrency
   * leaves room for, and these, of a block each, do not cover what is taken to be left of the range.
   */
  predicate Refuses(cfg: Config, w: World, e: Event) {
    Registers(w, e) &&
    var i, n := |w.op.registered|, e.replies.grant;
    && i + n < cfg.srv.concurrency
    && (cfg.end == UINT64_MAX || n * cfg.srv.blockSize < Missing(cfg, w.op.offset, i))
  }

  predicate Short(p: Pass, srv: Server) {
    && p.i + p.replies.grant < srv.concurrency
    && (p.op.end == UINT64_MAX || p.replies.grant * srv.blockSize < Left(p.op, p.booked, srv))
  }

  lemma OneFewer(n: nat, size: nat, left: nat)
    requires 0 < n
    ensures n * size < left <==> (n - 1) * size < left - Min(left, size)
  {
    assert n * size == (n - 1) * size + size;
    assert 0 <= (n - 1) * size;
  }

  lemma ShortNext(p: Pass, srv: Server)
    requires !Over(p, srv) && p.replies.grant != 0 && Sized(p.op.free, srv.blockSize) && p.op.current.None?
    ensures Short(Granted(p, srv), srv) <==> Short(p, srv)
  {
    var g := Granted(p, srv);
    OneTurn(p, srv);
    OneFewer(p.replies.grant, srv.blockSize, Left(p.op, p.booked, srv));
    if p.op.end != UINT64_MAX {
      TakeOff(p.op.end - p.op.offset - p.booked, g.booked - p.booked);
      assert Left(g.op, g.booked, srv) == Left(p.op, p.booked, srv) - (g.booked - p.booked);
    }
  }

  lemma {:induction false} PassResult(p: Pass, srv: Server)
    requires Sized(p.op.free, srv.blockSize) && p.op.current.None?
    ensures RegisterFrom(p, srv).1 == if Short(p, srv) then p.replies.fault else Success
    decreases srv.concurrency - p.i
  {
    if !Over(p, srv) && p.replies.grant != 0 {
      OneTurn(p, srv);
      ShortNext(p, srv);
      PassResult(Granted(p, srv), srv);
    }
  }

  lemma {:induction false} RoomIs(slots: seq<Slot>, size: nat)
    requires Unused(slots) && Sized(slots, size)
    ensures Room(slots) == |slots| * size
  {
    if slots != [] {
      RoomIs(slots[1..], size);
    }
  }

  /** The error that an event brings: a failed read's, or the one a refused read comes with. */
  function Brought(cfg: Config, w: World, e: Event): Outcome {
    match e
    case Read(c) => c.outcome
    case Call(_, replies) => if Refuses(cfg, w, e) then replies.fault else Success
    case Wake(replies) => if Refuses(cfg, w, e) then replies.fault else Success
  }

  lemma TurnResult(cfg: Config, w: World, e: Event)
    requires cfg.Valid() && Inv(cfg, w) && AllSized(w.op, cfg.srv.blockSize) && Allowed(cfg, w, e) && !e.Read?
    requires w.op.offset != w.op.end
    ensures Turn(w.op, cfg.srv, e.replies).0.result
      == if w.op.result.Failure? then w.op.result else Brought(cfg, w, e)
  {
    if Registers(w, e) {
      LeftIsMissing(cfg, w.op);
      assert Short(Begin(w.op, e.replies), cfg.srv) <==> Refuses(cfg, w, e);
      PassResult(Begin(w.op, e.replies), cfg.srv);
      RegisterFromKeeps(Begin(w.op, e.replies), cfg.srv);
    }
  }

  /** A step that fails a transfer gives it the error that the event brings. */
  lemma StepResult(cfg: Config, events: seq<Event>, e: Event)
    requires cfg.Valid() && Run(cfg, events).Some? && Allowed(cfg, Run(cfg, events).value, e)
    ensures var w := Run(cfg, events).value;
      Step(cfg, w, e).op.result == if w.op.result.Failure? then w.op.result else Brought(cfg, w, e)
  {
    RunKeeps(cfg, events);
    RunSized(cfg, events);
    var w := Run(cfg, events).value;
    if !e.Read? && w.op.offset != w.op.end {
      TurnResult(cfg, w, e);
      ResumeLeaves(cfg, w, RoomOf(w, e).value, e.replies);
    }
  }

  lemma {:induction false} ShortFrees(p: Pass, srv: Server)
    requires Sized(p.op.free, srv.blockSize) && p.op.current.None? && Short(p, srv)
    ensures RegisterFrom(p, srv).0.op.free != []
    decreases srv.concurrency - p.i
  {
    if p.replies.grant != 0 {
      OneTurn(p, srv);
      ShortNext(p, srv);
      ShortFrees(Granted(p, srv), srv);
    }
  }

  lemma TurnFrees(cfg: Config, w: World, e: Event)
    requires cfg.Valid() && Inv(cfg, w) && AllSized(w.op, cfg.srv.blockSize) && Refuses(cfg, w, e)
    ensures Turn(w.op, cfg.srv, e.replies).0.free != []
  {
    LeftIsMissing(cfg, w.op);
    ShortFrees(Begin(w.op, e.replies), cfg.srv);
  }

  /** A turn that leaves the transfer failed is the whole step. */
  lemma FailedTurn(s: OpState, room: nat, srv: Server, replies: Replies)
    requires Turn(s, srv, replies).0.result.Failure?
    ensures Resume(s, room, srv, replies).0 == Turn(s, srv, replies).0
  {
  }

  /** The buffer for a refused read is kept for the next, so that trying again allocates none for it. */
  lemma RefusalFrees(cfg: Config, events: seq<Event>, e: Event)
    requires cfg.Valid() && Run(cfg, events).Some? && Allowed(cfg, Run(cfg, events).value, e)
    requires Refuses(cfg, Run(cfg, events).value, e)
    ensures Step(cfg, Run(cfg, events).value, e).op.free != []
  {
    RunKeeps(cfg, events);
    RunSized(cfg, events);
    var w := Run(cfg, events).value;
    TurnFrees(cfg, w, e);
    TurnResult(cfg, w, e);
    FailedTurn(w.op, RoomOf(w, e).value, cfg.srv, e.replies);
  }

  /** What each event of a run has brought, in order. */
  ghost function AllBrought(cfg: Config, events: seq<Event>): seq<Outcome>
    requires Run(cfg, events).Some?
  {
    if events == [] then []
    else
      var n := |events| - 1;
      AllBrought(cfg, events[..n]) + [Brought(cfg, Run(cfg, events[..n]).value, events[n])]
  }

  /**
   * In every run the result is the first error that an event has brought, with its own code, whether it
   * is that of a read or of a refusal; it is success if there has been none.
   */
  lemma {:induction false} ResultIsFirstError(cfg: Config, events: seq<Event>)
    requires cfg.Valid() && Run(cfg, events).Some?
    ensures Run(cfg, events).value.op.result == FirstFailure(AllBrought(cfg, events))
  {
    if events != [] {
      var n := |events| - 1;
      RunEnds(cfg, events);
      ResultIsFirstError(cfg, events[..n]);
      StepResult(cfg, events[..n], events[n]);
      OneMoreOutcome(AllBrought(cfg, events[..n]), Brought(cfg, Run(cfg, events[..n]).value, events[n]));
    }
  }

  /** An upload call that returns before the end of the range returns the result. */
  lemma CallReturnsResult(cfg: Config, events: seq<Event>, e: Event)
    requires cfg.Valid() && Run(cfg, events).Some? && Allowed(cfg, Run(cfg, events).value, e) && !e.Read?
    requires Run(cfg, events).value.op.offset != cfg.end
    ensures var w' := Step(cfg, Run(cfg, events).value, e);
      w'.last.Returned? ==> w'.last.outcome == w'.op.result
  {
    RunKeeps(cfg, events);
    var w := Run(cfg, events).value;
    ResumeLeaves(cfg, w, RoomOf(w, e).value, e.replies);
  }

  // ---- what signals ----

  /**
   * Whatever the server does, a read signals a waiting call if and only if it fails, or the transfer has,
   * or it brings bytes or the end.
   */
  lemma SignalsIff(cfg: Config, events: seq<Event>, c: Completion)
    requires cfg.Valid() && Run(cfg, events).Some? && Possible(Run(cfg, events).value, Read(c))
    requires Run(cfg, events).value.waiting.Some?
    ensures var w := Run(cfg, events).value;
      Step(cfg, w, Read(c)).signalled <==>
        w.signalled || w.op.result.Failure? || c.outcome.Failure? || c.data != [] || c.eof || EndsRange(cfg, c)
  {
    RunKeeps(cfg, events);
  }

  /** A call that waits for the last read outstanding is left waiting for ever if and only if it brings neither. */
  lemma StrandedIff(cfg: Config, events: seq<Event>, c: Completion)
    requires cfg.Valid() && Run(cfg, events).Some? && Possible(Run(cfg, events).value, Read(c))
    requires var w := Run(cfg, events).value;
      w.waiting.Some? && !w.signalled && |w.op.registered| == 1 && w.op.result.Success?
    ensures var w' := Step(cfg, Run(cfg, events).value, Read(c));
      && w'.op.registered == []
      && (!w'.signalled <==> c.outcome.Success? && c.data == [] && !c.eof && !EndsRange(cfg, c))
  {
    SignalsIff(cfg, events, c);
    var w := Run(cfg, events).value;
    assert Find(w.op.registered, c.address) == 0;
  }
}
