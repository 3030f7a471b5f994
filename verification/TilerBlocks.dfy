/** How large the tiler's writes are, and which error its calls come back with. */
module TilerBlocks {
  import opened Bytes
  import opened OpStates
  import opened Reorder
  import opened Tiler
  import opened TilerRuns

  // ---- buffers and blocks ----

  predicate Large(slots: seq<Slot>, size: nat) {
    forall i :: 0 <= i < |slots| ==> size <= slots[i].capacity
  }

  predicate AllLarge(s: OpState, size: nat) {
    && Large(s.free, size) && Large(s.registered, size) && Large(s.pending, size)
    && (s.current.Some? ==> size <= s.current.value.capacity)
  }

  /** Each of them but the last few has a block's worth of data. */
  predicate Blocks(slots: seq<Slot>, size: nat, few: nat) {
    forall i :: 0 <= i < |slots| - few ==> size <= |slots[i].data|
  }

  predicate BlocksWritten(writes: seq<Write>, size: nat, few: nat) {
    forall i :: 0 <= i < |writes| - few ==> size <= |writes[i].data|
  }

  /** The writes registered are the first of those pending. */
  lemma {:induction false} SendsFirst(s: OpState, replies: Replies)
    ensures var r := SendPending(s, replies); var n := |r.writes|;
      && n <= |s.pending| && r.op.pending == s.pending[n..]
      && (forall i :: 0 <= i < n ==> r.writes[i].data == s.pending[i].data)
    decreases |s.pending|
  {
    if s.pending != [] && replies.grant != 0 {
      var more := replies.(grant := replies.grant - 1);
      SendsFirst(SendOne(s), more);
      assert s.pending[1..][|SendPending(SendOne(s), more).writes|..]
          == s.pending[1 + |SendPending(SendOne(s), more).writes|..];
    }
  }

  lemma {:induction false} SendLarge(s: OpState, replies: Replies, size: nat)
    requires AllLarge(s, size)
    ensures var r := SendPending(s, replies).op; AllLarge(r, size) && r.current == s.current && r.free == s.free
    decreases |s.pending|
  {
    if s.pending != [] && replies.grant != 0 {
      SendLarge(SendOne(s), replies.(grant := replies.grant - 1), size);
    }
  }

  lemma AcceptBlocks(s: OpState, input: bytes, srv: Server)
    requires Sound(s) && AllLarge(s, srv.blockSize) && Blocks(s.pending, srv.blockSize, 0)
    ensures var (r, _) := Accept(s, input, srv);
      AllLarge(r, srv.blockSize) && Blocks(r.pending, srv.blockSize, 0)
  {
    var g := BufferGet(s, |input|, srv.blockSize);
    TakesLarge(s, |input|, srv.blockSize);
    var b := g.current.value;
    var n := Min(|input|, b.capacity - b.used);
    var full := b.(used := b.used + n, data := b.data + input[..n]);
    var t := g.(current := Some(full));
    assert |full.data| == full.used;
    if full.used == full.capacity {
      QueuesLarge(t, srv.blockSize);
    }
  }

  /** What is taken to be filled is large, and its count right. */
  lemma TakesLarge(s: OpState, n: nat, size: nat)
    requires Sound(s) && AllLarge(s, size)
    ensures var g := BufferGet(s, n, size); var b := g.current.value;
      AllLarge(g, size) && g.pending == s.pending && b.used == |b.data| <= b.capacity
  {
  }

  lemma QueuesLarge(t: OpState, size: nat)
    requires AllLarge(t, size) && Blocks(t.pending, size, 0)
    requires t.current.Some? && size <= |t.current.value.data|
    ensures AllLarge(Enqueue(t), size) && Blocks(Enqueue(t).pending, size, 0)
  {
  }

  lemma {:induction false} AdvanceBlocks(s: OpState, input: bytes, srv: Server, replies: Replies)
    requires Sound(s) && AllLarge(s, srv.blockSize) && Blocks(s.pending, srv.blockSize, 0)
    requires 0 < srv.blockSize && replies.fault.Failure?
    ensures var p := Advance(s, input, srv, replies);
      && AllLarge(p.op, srv.blockSize) && Blocks(p.op.pending, srv.blockSize, 0)
      && BlocksWritten(p.writes, srv.blockSize, 0)
    decreases |input|
  {
    if input != [] && s.count < srv.concurrency {
      var (s1, n) := Accept(s, input, srv);
      AcceptSound(s, input, srv);
      AcceptBlocks(s, input, srv);
      var sent := SendPending(s1, replies);
      SendsFirst(s1, replies);
      SendLarge(s1, replies, srv.blockSize);
      SendSound(s1, replies);
      if sent.outcome.Success? {
        AdvanceBlocks(sent.op, input[n..], srv, Spend(replies, |sent.writes|));
      }
    }
  }

  /** The last write may be short once the final call has been made. */
  function Few(w: World): nat {
    if w.phase.Closing? || w.phase.Closed? then 1 else 0
  }

  ghost predicate InBlocks(srv: Server, w: World) {
    && AllLarge(w.op, srv.blockSize)
    && (Few(w) == 0 ==> Blocks(w.op.pending, srv.blockSize, 0))
    && BlocksWritten(w.writes, srv.blockSize, Few(w))
  }

  lemma StepInBlocks(srv: Server, start: nat, w: World, e: Event)
    requires 0 < srv.blockSize && Inv(srv, start, w) && InBlocks(srv, w) && Allowed(w, e)
    ensures InBlocks(srv, Step(srv, w, e))
  {
    match e
    case Feed(chunk, replies) => ProgressInBlocks(srv, w.(offered := w.offered + chunk), chunk, replies);
    case Resume(replies) => ProgressInBlocks(srv, w, w.phase.rest, replies);
    case Close(replies) => CloseInBlocks(srv, start, w, replies);
    case Drain =>
    case Written(address) => WrittenInBlocks(srv, w, address);
  }

  lemma WrittenInBlocks(srv: Server, w: World, address: nat)
    requires InBlocks(srv, w) && Allowed(w, Written(address))
    ensures InBlocks(srv, Step(srv, w, Written(address)))
  {
  }

  lemma ProgressInBlocks(srv: Server, w: World, input: bytes, replies: Replies)
    requires 0 < srv.blockSize && Sound(w.op) && InBlocks(srv, w) && Few(w) == 0 && replies.fault.Failure?
    ensures |Advance(w.op, input, srv, replies).rest| <= |input|
    ensures InBlocks(srv, Progressed(w, input, Advance(w.op, input, srv, replies)))
  {
    AdvanceRest(w.op, input, srv, replies);
    AdvanceBlocks(w.op, input, srv, replies);
    assert BlocksWritten(w.writes + Advance(w.op, input, srv, replies).writes, srv.blockSize, 0);
  }

  lemma CloseInBlocks(srv: Server, start: nat, w: World, replies: Replies)
    requires Inv(srv, start, w) && InBlocks(srv, w) && Allowed(w, Close(replies))
    ensures InBlocks(srv, Step(srv, w, Close(replies)))
  {
    var s := if w.op.current.Some? then Enqueue(w.op) else w.op;
    assert AllLarge(s, srv.blockSize) && Blocks(s.pending, srv.blockSize, 1);
    SendsFirst(s, replies);
    SendLarge(s, replies, srv.blockSize);
  }

  lemma RunEnds(srv: Server, start: nat, events: seq<Event>)
    requires events != [] && Run(srv, start, events).Some?
    ensures var n := |events| - 1;
      && Run(srv, start, events[..n]).Some? && Allowed(Run(srv, start, events[..n]).value, events[n])
      && Run(srv, start, events).value == Step(srv, Run(srv, start, events[..n]).value, events[n])
  {
  }

  lemma {:induction false} RunInBlocks(srv: Server, start: nat, events: seq<Event>)
    requires 0 < srv.blockSize && Run(srv, start, events).Some?
    ensures InBlocks(srv, Run(srv, start, events).value)
  {
    if events != [] {
      var n := |events| - 1;
      RunEnds(srv, start, events);
      RunKeeps(srv, start, events[..n]);
      RunInBlocks(srv, start, events[..n]);
      StepInBlocks(srv, start, Run(srv, start, events[..n]).value, events[n]);
    }
  }

  /**
   * Small chunks are repacked: in every run each write has at least a block of data until the final
   * call is made, and after it each but the last.
   */
  lemma WritesAreBlocks(srv: Server, start: nat, events: seq<Event>, i: nat)
    requires 0 < srv.blockSize && Run(srv, start, events).Some?
    requires var w := Run(srv, start, events).value;
      i < |w.writes| && (w.phase.Idle? || w.phase.Feeding? || i + 1 < |w.writes|)
    ensures srv.blockSize <= |Run(srv, start, events).value.writes[i].data|
  {
    RunInBlocks(srv, start, events);
  }

  /** A new buffer takes a whole input. */
  lemma AcceptsAll(s: OpState, input: bytes, srv: Server)
    requires s.current.None? && s.free == [] && s.pending == [] && input != []
    ensures var (r, n) := Accept(s, input, srv);
      && n == |input|
      && if |input| < srv.blockSize then
           r.pending == [] && r.current.Some? && r.current.value.data == input
         else |r.pending| == 1 && r.pending[0].data == input && r.current.None?
  {
    assert input[..|input|] == input && [] + input == input;
  }

  /**
   * And large ones are not cut up: where there is no buffer to fill or to reuse, a chunk of less than a
   * block is taken in and kept, and one of a block or more becomes one write at once, unless refused.
   */
  lemma ChunkInOnePass(srv: Server, start: nat, events: seq<Event>, chunk: bytes, replies: Replies)
    requires 0 < srv.blockSize && Run(srv, start, events).Some?
    requires var w := Run(srv, start, events).value;
      && Allowed(w, Feed(chunk, replies)) && w.ok
      && w.op.current.None? && w.op.free == [] && w.op.count < srv.concurrency
    ensures var w := Run(srv, start, events).value; var w' := Step(srv, w, Feed(chunk, replies));
      && w'.phase.Idle? && w'.fed == w.fed + chunk
      && if |chunk| < srv.blockSize then
           w'.ok && w'.writes == w.writes && w'.op.current.Some? && w'.op.current.value.data == chunk
         else
           && w'.ok == (replies.grant != 0) && w'.op.current.None?
           && |w'.writes| == |w.writes| + (if w'.ok then 1 else 0) && w.writes <= w'.writes
           && (w'.ok ==> w'.writes[|w.writes|].data == chunk)
  {
    RunKeeps(srv, start, events);
    var w := Run(srv, start, events).value;
    OnePass(w.op, chunk, srv, replies);
    assert chunk[..|chunk|] == chunk && w.writes + [] == w.writes;
  }

  lemma OnePass(s: OpState, chunk: bytes, srv: Server, replies: Replies)
    requires s.current.None? && s.free == [] && s.pending == [] && chunk != [] && replies.fault.Failure?
    requires s.count < srv.concurrency
    ensures var p := Advance(s, chunk, srv, replies);
      && p.rest == [] && p.outcome.Some?
      && if |chunk| < srv.blockSize then
           p.outcome.value.Success? && p.writes == [] && p.op.current.Some? && p.op.current.value.data == chunk
         else
           && p.outcome.value.Success? == (replies.grant != 0) && p.op.current.None?
           && |p.writes| == (if p.outcome.value.Success? then 1 else 0)
           && (p.writes != [] ==> p.writes[0].data == chunk)
  {
    AcceptsAll(s, chunk, srv);
    var (s1, n) := Accept(s, chunk, srv);
    SendUpToOne(s1, replies);
    var sent := SendPending(s1, replies);
    assert chunk[n..] == [];
    assert Advance(sent.op, [], srv, Spend(replies, |sent.writes|)) == Progress(sent.op, [], [], Some(Success));
    assert sent.writes + [] == sent.writes;
  }

  lemma SendUpToOne(s: OpState, replies: Replies)
    requires |s.pending| <= 1 && replies.fault.Failure?
    ensures var r := SendPending(s, replies);
      && r.op.current == s.current && r.op.count <= s.count + 1
      && r.outcome.Success? == (s.pending == [] || replies.grant != 0)
      && |r.writes| == (if s.pending != [] && r.outcome.Success? then 1 else 0)
      && (r.writes != [] ==> r.writes[0].data == s.pending[0].data)
  {
    if s.pending != [] && replies.grant != 0 {
      assert SendOne(s).pending == [];
    }
  }

  // ---- refusals ----

  /** A refusal, its own error, and what is then left queued. */
  lemma {:induction false} SendAnswers(s: OpState, replies: Replies)
    requires replies.fault.Failure?
    ensures var r := SendPending(s, replies);
      && r.outcome == (if r.op.pending != [] then replies.fault else Success)
      && r.op.result == (if s.result.Failure? || r.op.pending == [] then s.result else replies.fault)
      && |r.writes| <= replies.grant && (r.op.pending != [] ==> |r.writes| == replies.grant)
    decreases |s.pending|
  {
    if s.pending != [] && replies.grant != 0 {
      SendAnswers(SendOne(s), replies.(grant := replies.grant - 1));
    }
  }

  /** A call that does not wait comes back with the refusal's error if a write is left queued, else with success. */
  lemma {:induction false} AdvanceAnswers(s: OpState, input: bytes, srv: Server, replies: Replies)
    requires Sound(s) && 0 < srv.blockSize && replies.fault.Failure? && input != []
    ensures var p := Advance(s, input, srv, replies); var refused := p.outcome.Some? && p.op.pending != [];
      && (p.outcome.Some? ==> p.outcome.value == if refused then replies.fault else Success)
      && p.op.result == (if s.result.Failure? || !refused then s.result else replies.fault)
      && |p.writes| <= replies.grant && (refused ==> |p.writes| == replies.grant)
    decreases |input|
  {
    if s.count < srv.concurrency {
      var (s1, n) := Accept(s, input, srv);
      AcceptSound(s, input, srv);
      var sent := SendPending(s1, replies);
      SendAnswers(s1, replies);
      SendSound(s1, replies);
      if sent.outcome.Success? && input[n..] != [] {
        AdvanceAnswers(sent.op, input[n..], srv, Spend(replies, |sent.writes|));
      }
    }
  }

  /** The server has refused a write in this step: the call does not wait, and a buffer is left queued. */
  predicate Refused(srv: Server, w: World, e: Event)
    requires Allowed(w, e)
  {
    (e.Feed? || e.Resume? || e.Close?) &&
    var w' := Step(srv, w, e);
    !w'.phase.Feeding? && w'.op.pending != []
  }

  /** The error that an event brings. */
  function Brought(srv: Server, w: World, e: Event): Outcome
    requires Allowed(w, e)
  {
    if Refused(srv, w, e) then e.replies.fault else Success
  }

  lemma StepAnswers(srv: Server, start: nat, w: World, e: Event)
    requires 0 < srv.blockSize && Inv(srv, start, w) && Allowed(w, e)
    ensures var w' := Step(srv, w, e);
      && w'.op.result == (if w.op.result.Failure? then w.op.result else Brought(srv, w, e))
      && w'.ok == (w.ok && Brought(srv, w, e).Success?)
      && (e.Close? ==> w'.phase == Closing(Brought(srv, w, e)))
      && (e.Drain? && w'.phase.Closed? ==> w'.phase.outcome == w.phase.outcome)
  {
    match e
    case Feed(chunk, replies) => AdvanceAnswers(w.op, chunk, srv, replies);
    case Resume(replies) => AdvanceAnswers(w.op, w.phase.rest, srv, replies);
    case Close(replies) =>
      SendAnswers(if w.op.current.Some? then Enqueue(w.op) else w.op, replies);
    case Drain =>
    case Written(address) =>
  }

  /** What each event of a run has brought, in order. */
  ghost function AllBrought(srv: Server, start: nat, events: seq<Event>): seq<Outcome>
    requires Run(srv, start, events).Some?
  {
    if events == [] then []
    else
      var n := |events| - 1;
      AllBrought(srv, start, events[..n]) + [Brought(srv, Run(srv, start, events[..n]).value, events[n])]
  }

  /** In every run the result is the error of the first refusal, and success if and only if there was none. */
  lemma {:induction false} ResultIsFirstRefusal(srv: Server, start: nat, events: seq<Event>)
    requires 0 < srv.blockSize && Run(srv, start, events).Some?
    ensures var w := Run(srv, start, events).value;
      w.op.result == FirstFailure(AllBrought(srv, start, events)) && w.ok == w.op.result.Success?
  {
    if events != [] {
      var n := |events| - 1;
      RunEnds(srv, start, events);
      ResultIsFirstRefusal(srv, start, events[..n]);
      RunKeeps(srv, start, events[..n]);
      var w := Run(srv, start, events[..n]).value;
      StepAnswers(srv, start, w, events[n]);
      OneMoreOutcome(AllBrought(srv, start, events[..n]), Brought(srv, w, events[n]));
    }
  }

  /** What a call comes back with; nothing while it waits. */
  function Answer(srv: Server, w: World, e: Event): Option<Outcome>
    requires Allowed(w, e)
  {
    match e
    case Feed(chunk, replies) => Advance(w.op, chunk, srv, replies).outcome
    case Resume(replies) => Advance(w.op, w.phase.rest, srv, replies).outcome
    case Close(replies) => None
    case Drain => if Step(srv, w, e).phase.Closed? then Some(Step(srv, w, e).phase.outcome) else None
    case Written(address) => None
  }

  /** A data call comes back with the error of a refusal in it, else with success; so does the final one. */
  lemma CallsAnswer(srv: Server, start: nat, events: seq<Event>, e: Event)
    requires 0 < srv.blockSize && Run(srv, start, events).Some? && Allowed(Run(srv, start, events).value, e)
    ensures var w := Run(srv, start, events).value; var answer := Answer(srv, w, e);
      && ((e.Feed? || e.Resume?) && answer.Some? ==> answer.value == Brought(srv, w, e))
      && (e.Close? ==> Step(srv, w, e).phase == Closing(Brought(srv, w, e)))
      && (e.Drain? && answer.Some? ==> w.phase == Closing(answer.value))
  {
    RunKeeps(srv, start, events);
    var w := Run(srv, start, events).value;
    StepAnswers(srv, start, w, e);
    match e
    case Feed(chunk, replies) => AdvanceAnswers(w.op, chunk, srv, replies);
    case Resume(replies) => AdvanceAnswers(w.op, w.phase.rest, srv, replies);
    case _ =>
  }
}
