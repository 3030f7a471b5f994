/** Repacking of REST response data into GridFTP writes, on values. */
module Tiler {
  import opened Bytes
  import opened OpStates
  import opened Reorder

  /** A registered write: the buffer, the file position and the bytes it holds. */
  datatype Write = Write(address: nat, at: nat, data: bytes)

  /** What one atomic step of a read call ends with; `rest` is the input not yet copied. */
  datatype Progress = Progress(op: OpState, rest: bytes, writes: seq<Write>, outcome: Option<Outcome>)

  datatype Sent = Sent(op: OpState, writes: seq<Write>, outcome: Outcome)

  /** Registers every pending buffer as a write, until the server refuses one. */
  function SendPending(s: OpState, replies: Replies): (r: Sent)
    decreases |s.pending|
  {
    if s.pending == [] then Sent(s, [], Success)
    else if replies.grant == 0 then
      Sent(s.(result := if s.result.Success? then replies.fault else s.result), [], replies.fault)
    else
      var b := s.pending[0];
      var more := SendPending(SendOne(s), replies.(grant := replies.grant - 1));
      more.(writes := [Write(b.address, s.offset, b.data)] + more.writes)
  }

  function Spend(replies: Replies, n: nat): Replies {
    replies.(grant := if n <= replies.grant then replies.grant - n else 0)
  }

  function SendOne(s: OpState): OpState
    requires s.pending != []
  {
    var b := s.pending[0];
    s.(count := s.count + 1, offset := s.offset + b.used, pending := s.pending[1..], registered := [b] + s.registered)
  }

  /** Moves the current buffer to the end of the pending list. */
  function Enqueue(s: OpState): OpState
    requires s.current.Some?
  {
    s.(pending := s.pending + [s.current.value], current := None)
  }

  /** Copies what fits of a non-empty input into the current buffer, and queues it when full. */
  function Accept(s: OpState, input: bytes, srv: Server): (r: (OpState, nat))
    ensures r.1 <= |input|
  {
    var g := BufferGet(s, |input|, srv.blockSize);
    var b := g.current.value;
    var n := if b.used <= b.capacity then Min(|input|, b.capacity - b.used) else 0;
    var full := b.(used := b.used + n, data := b.data + input[..n]);
    var t := g.(current := Some(full));
    (if full.used == full.capacity then Enqueue(t) else t, n)
  }

  /** Passes of the copying loop up to its wait, its failure or the end of the input. */
  function Advance(s: OpState, input: bytes, srv: Server, replies: Replies): Progress
    decreases |input|
  {
    if input == [] then Progress(s, [], [], Some(Success))
    else if s.count >= srv.concurrency then Progress(s, input, [], None)
    else
      var (s1, n) := Accept(s, input, srv);
      var sent := SendPending(s1, replies);
      if sent.outcome.Failure? || n == 0 then Progress(sent.op, input[n..], sent.writes, Some(sent.outcome))
      else
        var more := Advance(sent.op, input[n..], srv, Spend(replies, |sent.writes|));
        more.(writes := sent.writes + more.writes)
  }

  /** The pass of the final, empty call: queues what is left and sends it. */
  function Flush(s: OpState, replies: Replies): Sent {
    SendPending(if s.current.Some? && s.current.value.used > 0 then Enqueue(s) else s, replies)
  }

  /** The write callback: recycles the buffer. */
  function OnWritten(s: OpState, address: nat): OpState {
    var i := Find(s.registered, address);
    if i == |s.registered| then s.(count := s.count - 1)
    else
      s.(count := s.count - 1, registered := Without(s.registered, i),
         free := [s.registered[i].(used := 0, data := [])] + s.free)
  }

  /** What the source's assertion needs: wherever a buffer is taken from, it has room. */
  predicate Roomy(s: OpState) {
    && (s.current.Some? ==> HasRoom(s.current.value))
    && forall i :: 0 <= i < |s.free| ==> HasRoom(s.free[i])
  }

  predicate HasRoom(b: Slot) {
    b.used < b.capacity
  }
}

/** Every interleaving of read calls, wake-ups and write callbacks of the tiler. */
module TilerRuns {
  import opened Bytes
  import opened OpStates
  import opened Reorder
  import opened Tiler

  datatype Phase =
    | Idle
    | Feeding(rest: bytes)
    | Closing(outcome: Outcome)
    | Closed(outcome: Outcome)

  datatype Event =
    | Feed(chunk: bytes, replies: Replies)
    | Resume(replies: Replies)
    | Close(replies: Replies)
    | Drain
    | Written(address: nat)

  /**
   * `offered` is all input passed in, `fed` the part copied into buffers, `writes` what the server
   * was asked to write and `inFlight` the bytes it was given for each write not yet completed.
   * `ok` says that the server has refused no write, and `awake` that a waiting call has been signalled
   * or need not wait.
   */
  datatype World = World(op: OpState, phase: Phase, offered: bytes, fed: bytes, writes: seq<Write>,
                         inFlight: map<nat, bytes>, ok: bool, awake: bool)

  function Start(start: nat): World {
    World(OpState(Success, start, 0, false, false, [], None, [], 0, [], 0), Idle, [], [], [], map[], true, true)
  }

  predicate Allowed(w: World, e: Event) {
    match e
    case Feed(chunk, replies) => w.phase.Idle? && chunk != [] && replies.fault.Failure?
    case Resume(replies) => w.phase.Feeding? && replies.fault.Failure?
    case Close(replies) => w.phase.Idle? && replies.fault.Failure?
    case Drain => w.phase.Closing?
    case Written(address) => Named(w.op.registered, address)
  }

  function Launched(inFlight: map<nat, bytes>, writes: seq<Write>): map<nat, bytes>
    decreases |writes|
  {
    if writes == [] then inFlight
    else Launched(inFlight[writes[0].address := writes[0].data], writes[1..])
  }

  function Progressed(w: World, input: bytes, p: Progress): World
    requires |p.rest| <= |input|
  {
    w.(op := p.op, fed := w.fed + input[..|input| - |p.rest|], writes := w.writes + p.writes,
       inFlight := Launched(w.inFlight, p.writes),
       phase := if p.outcome.None? then Feeding(p.rest) else Idle,
       ok := w.ok && (p.outcome.None? || p.outcome.value.Success?), awake := p.outcome.Some?)
  }

  function Step(srv: Server, w: World, e: Event): World
    requires Allowed(w, e)
  {
    match e
    case Feed(chunk, replies) =>
      AdvanceRest(w.op, chunk, srv, replies);
      Progressed(w.(offered := w.offered + chunk), chunk, Advance(w.op, chunk, srv, replies))
    case Resume(replies) =>
      AdvanceRest(w.op, w.phase.rest, srv, replies);
      Progressed(w, w.phase.rest, Advance(w.op, w.phase.rest, srv, replies))
    case Close(replies) =>
      var sent := Flush(w.op, replies);
      w.(op := sent.op, writes := w.writes + sent.writes, inFlight := Launched(w.inFlight, sent.writes),
         phase := Closing(sent.outcome), ok := w.ok && sent.outcome.Success?, awake := sent.op.count == 0)
    case Drain =>
      if w.op.count == 0 then w.(phase := Closed(w.phase.outcome)) else w.(awake := false)
    case Written(address) =>
      w.(op := OnWritten(w.op, address), inFlight := w.inFlight - {address}, awake := true)
  }

  lemma {:induction false} AdvanceRest(s: OpState, input: bytes, srv: Server, replies: Replies)
    ensures var p := Advance(s, input, srv, replies);
      |p.rest| <= |input| && p.rest == input[|input| - |p.rest|..]
    decreases |input|
  {
    if input != [] && s.count < srv.concurrency {
      var (s1, n) := Accept(s, input, srv);
      var sent := SendPending(s1, replies);
      if sent.outcome.Success? && n != 0 {
        AdvanceRest(sent.op, input[n..], srv, Spend(replies, |sent.writes|));
      }
    }
  }

  // ---- what every step keeps ----

  predicate Filled(slots: seq<Slot>) {
    forall i :: 0 <= i < |slots| ==> 0 < slots[i].used == |slots[i].data| <= slots[i].capacity
  }

  predicate Reusable(slots: seq<Slot>) {
    forall i :: 0 <= i < |slots| ==> slots[i].used == 0 < slots[i].capacity && slots[i].data == []
  }

  ghost predicate Sound(s: OpState) {
    && Conserved(s) && s.count == |s.registered|
    && Reusable(s.free) && Filled(s.pending) && Filled(s.registered)
    && (s.current.Some? ==> var b := s.current.value; 0 < b.used == |b.data| < b.capacity)
  }

  function Payload(slots: seq<Slot>): bytes {
    if slots == [] then [] else slots[0].data + Payload(slots[1..])
  }

  function Carried(writes: seq<Write>): bytes {
    if writes == [] then [] else writes[0].data + Carried(writes[1..])
  }

  function Tail(s: OpState): bytes {
    if s.current.Some? then s.current.value.data else []
  }

  /** The writes are not empty and follow one another from `at` without gap or overlap. */
  predicate Tiled(at: nat, writes: seq<Write>)
    decreases |writes|
  {
    writes == [] || (writes[0].at == at && writes[0].data != [] && Tiled(at + |writes[0].data|, writes[1..]))
  }

  /** Bytes not yet registered as writes: the queue and then the current buffer. */
  function Unsent(s: OpState): bytes {
    Payload(s.pending) + Tail(s)
  }

  ghost predicate Streamed(s: OpState, start: nat, fed: bytes, writes: seq<Write>) {
    && Tiled(start, writes)
    && s.offset == start + |Carried(writes)|
    && Carried(writes) + Unsent(s) == fed
  }

  predicate Flying(s: OpState, inFlight: map<nat, bytes>) {
    forall i :: 0 <= i < |s.registered| ==>
      s.registered[i].address in inFlight && inFlight[s.registered[i].address] == s.registered[i].data
  }

  lemma {:induction false} PayloadAppend(xs: seq<Slot>, ys: seq<Slot>)
    ensures Payload(xs + ys) == Payload(xs) + Payload(ys)
  {
    if xs == [] {
      assert xs + ys == ys;
    } else {
      PayloadAppend(xs[1..], ys);
      Assoc(xs[0].data, Payload(xs[1..]), Payload(ys));
      assert (xs + ys)[1..] == xs[1..] + ys;
    }
  }

  lemma {:induction false} CarriedAppend(xs: seq<Write>, ys: seq<Write>)
    ensures Carried(xs + ys) == Carried(xs) + Carried(ys)
  {
    if xs == [] {
      assert xs + ys == ys;
    } else {
      CarriedAppend(xs[1..], ys);
      Assoc(xs[0].data, Carried(xs[1..]), Carried(ys));
      assert (xs + ys)[1..] == xs[1..] + ys;
    }
  }

  lemma {:induction false} TiledAppend(at: nat, xs: seq<Write>, ys: seq<Write>)
    requires Tiled(at, xs) && Tiled(at + |Carried(xs)|, ys)
    ensures Tiled(at, xs + ys)
    decreases |xs|
  {
    if xs == [] {
      assert xs + ys == ys;
    } else {
      TiledAppend(at + |xs[0].data|, xs[1..], ys);
      assert (xs + ys)[1..] == xs[1..] + ys;
    }
  }

  lemma {:induction false} LaunchedAppend(m: map<nat, bytes>, xs: seq<Write>, ys: seq<Write>)
    ensures Launched(m, xs + ys) == Launched(Launched(m, xs), ys)
    decreases |xs|
  {
    if xs == [] {
      assert xs + ys == ys;
    } else {
      LaunchedAppend(m[xs[0].address := xs[0].data], xs[1..], ys);
      assert (xs + ys)[1..] == xs[1..] + ys;
    }
  }

  // ---- sending ----

  lemma SendOneSound(s: OpState)
    requires Sound(s) && s.pending != []
    ensures Sound(SendOne(s))
  {
    var r := SendOne(s);
    forall a: nat
      ensures Held(r, a) == if a < r.issued then 1 else 0
    {
      assert Held(s, a) == if a < s.issued then 1 else 0;
    }
  }

  lemma {:induction false} TimesPositive(slots: seq<Slot>, i: nat)
    requires i < |slots|
    ensures Times(slots, slots[i].address) > 0
  {
    if i > 0 {
      TimesPositive(slots[1..], i - 1);
    }
  }

  lemma SendOneFlying(s: OpState, inFlight: map<nat, bytes>)
    requires Sound(s) && s.pending != [] && Flying(s, inFlight)
    ensures Flying(SendOne(s), inFlight[s.pending[0].address := s.pending[0].data])
  {
    var b := s.pending[0];
    forall i | 0 <= i < |s.registered|
      ensures s.registered[i].address != b.address
    {
      TimesPositive(s.registered, i);
      assert Held(s, b.address) <= 1;
    }
  }

  lemma {:induction false} SendSound(s: OpState, replies: Replies)
    requires Sound(s) && replies.fault.Failure?
    ensures var r := SendPending(s, replies);
      && Sound(r.op) && r.op.current == s.current
      && |r.writes| <= |s.pending| && |r.writes| <= replies.grant
      && (r.outcome.Success? ==> r.op.pending == [] && r.op.result == s.result && r.op.count == s.count + |s.pending|)
    decreases |s.pending|
  {
    if s.pending != [] {
      if replies.grant == 0 {
        ConservedSameLists(s, s.(result := if s.result.Success? then replies.fault else s.result));
      } else {
        SendOneSound(s);
        SendSound(SendOne(s), replies.(grant := replies.grant - 1));
      }
    }
  }

  lemma {:induction false} SendFlying(s: OpState, replies: Replies, inFlight: map<nat, bytes>)
    requires Sound(s) && Flying(s, inFlight)
    ensures Flying(SendPending(s, replies).op, Launched(inFlight, SendPending(s, replies).writes))
    decreases |s.pending|
  {
    if s.pending != [] && replies.grant != 0 {
      SendOneSound(s);
      SendOneFlying(s, inFlight);
      SendFlying(SendOne(s), replies.(grant := replies.grant - 1), inFlight[s.pending[0].address := s.pending[0].data]);
      var r := SendPending(s, replies);
      var b := s.pending[0];
      assert r.writes[1..] == SendPending(SendOne(s), replies.(grant := replies.grant - 1)).writes;
    }
  }

  lemma UnsentOne(s: OpState, carried: bytes)
    requires s.pending != []
    ensures carried + Unsent(s) == carried + s.pending[0].data + Unsent(SendOne(s))
  {
    var data := s.pending[0].data;
    assert SendOne(s).pending == s.pending[1..];
    Assoc(data, Payload(s.pending[1..]), Tail(s));
    Assoc(carried, data, Unsent(SendOne(s)));
  }

  lemma CarriedOne(w: Write)
    ensures Carried([w]) == w.data
  {
    assert Carried([w]) == w.data + Carried([]);
  }

  lemma SendOneStreamed(s: OpState, start: nat, fed: bytes, writes: seq<Write>)
    requires Streamed(s, start, fed, writes) && s.pending != [] && |s.pending[0].data| == s.pending[0].used > 0
    ensures Streamed(SendOne(s), start, fed, writes + [Write(s.pending[0].address, s.offset, s.pending[0].data)])
  {
    var w := Write(s.pending[0].address, s.offset, s.pending[0].data);
    CarriedAppend(writes, [w]);
    CarriedOne(w);
    TiledAppend(start, writes, [w]);
    UnsentOne(s, Carried(writes));
  }

  lemma {:induction false} SendStreamed(s: OpState, replies: Replies, start: nat, fed: bytes, writes: seq<Write>)
    requires Sound(s) && Streamed(s, start, fed, writes)
    ensures var r := SendPending(s, replies); Streamed(r.op, start, fed, writes + r.writes)
    decreases |s.pending|
  {
    if s.pending != [] && replies.grant != 0 {
      var w := Write(s.pending[0].address, s.offset, s.pending[0].data);
      SendOneSound(s);
      SendOneStreamed(s, start, fed, writes);
      SendStreamed(SendOne(s), replies.(grant := replies.grant - 1), start, fed, writes + [w]);
      var more := SendPending(SendOne(s), replies.(grant := replies.grant - 1)).writes;
      assert writes + [w] + more == writes + ([w] + more);
    } else {
      assert writes + [] == writes;
    }
  }

  // ---- accepting input ----

  lemma AcceptConserves(s: OpState, input: bytes, srv: Server)
    requires Conserved(s)
    ensures Conserved(Accept(s, input, srv).0)
  {
    var (r, n) := Accept(s, input, srv);
    var g := BufferGet(s, |input|, srv.blockSize);
    BufferGetConserves(s, |input|, srv.blockSize);
    forall a: nat
      ensures Held(r, a) == if a < r.issued then 1 else 0
    {
      assert Held(g, a) == if a < g.issued then 1 else 0;
      if r.current.None? {
        TimesAppend(s.pending, [r.pending[|s.pending|]], a);
      }
    }
  }

  lemma AcceptSound(s: OpState, input: bytes, srv: Server)
    requires Sound(s) && input != [] && 0 < srv.blockSize
    ensures var (r, n) := Accept(s, input, srv);
      && 0 < n && Sound(r) && |r.pending| <= |s.pending| + 1
      && r == s.(pending := r.pending, current := r.current, free := r.free, issued := r.issued)
  {
    AcceptConserves(s, input, srv);
  }

  lemma AcceptUnsent(s: OpState, input: bytes, srv: Server)
    requires Sound(s)
    ensures var (r, n) := Accept(s, input, srv);
      Unsent(r) == Unsent(s) + input[..n] && r.offset == s.offset
  {
    var (r, n) := Accept(s, input, srv);
    var b := Tail(s) + input[..n];
    Assoc(Payload(s.pending), Tail(s), input[..n]);
    if r.current.None? {
      var last := r.pending[|s.pending|];
      assert last.data == b;
      PayloadAppend(s.pending, [last]);
      assert Payload([last]) == last.data + Payload([]) == b;
    }
  }

  lemma AcceptStreamed(s: OpState, input: bytes, srv: Server, start: nat, fed: bytes, writes: seq<Write>)
    requires Sound(s) && Streamed(s, start, fed, writes)
    ensures var (r, n) := Accept(s, input, srv); Streamed(r, start, fed + input[..n], writes)
  {
    AcceptUnsent(s, input, srv);
    Assoc(Carried(writes), Unsent(s), input[..Accept(s, input, srv).1]);
  }

  /** The bytes of an input that a step has copied, given what it left. */
  function Taken(input: bytes, rest: bytes): bytes
    requires |rest| <= |input|
  {
    input[..|input| - |rest|]
  }

  lemma TakenSplit(input: bytes, n: nat, rest: bytes)
    requires n + |rest| <= |input|
    ensures input[..n] + Taken(input[n..], rest) == Taken(input, rest)
  {
  }

  lemma {:induction false} AdvanceStreamed(s: OpState, input: bytes, srv: Server, replies: Replies,
                                          start: nat, fed: bytes, writes: seq<Write>)
    requires Sound(s) && Streamed(s, start, fed, writes) && 0 < srv.blockSize && replies.fault.Failure?
    ensures var p := Advance(s, input, srv, replies);
      |p.rest| <= |input| && Streamed(p.op, start, fed + Taken(input, p.rest), writes + p.writes)
    decreases |input|
  {
    AdvanceRest(s, input, srv, replies);
    assert writes + [] == writes && fed + [] == fed;
    if input != [] && s.count < srv.concurrency {
      var (s1, n) := Accept(s, input, srv);
      AcceptSound(s, input, srv);
      AcceptStreamed(s, input, srv, start, fed, writes);
      var sent := SendPending(s1, replies);
      SendSound(s1, replies);
      SendStreamed(s1, replies, start, fed + input[..n], writes);
      if sent.outcome.Success? {
        AdvanceStreamed(sent.op, input[n..], srv, Spend(replies, |sent.writes|), start, fed + input[..n],
                        writes + sent.writes);
        var p := Advance(s, input, srv, replies);
        var more := Advance(sent.op, input[n..], srv, Spend(replies, |sent.writes|));
        Assoc(writes, sent.writes, more.writes);
        AdvanceRest(sent.op, input[n..], srv, Spend(replies, |sent.writes|));
        TakenSplit(input, n, more.rest);
        Assoc(fed, input[..n], Taken(input[n..], more.rest));
      }
    }
  }

  lemma {:induction false} AdvanceSound(s: OpState, input: bytes, srv: Server, replies: Replies,
                                        inFlight: map<nat, bytes>)
    requires Sound(s) && Flying(s, inFlight) && 0 < srv.blockSize && replies.fault.Failure?
    ensures var p := Advance(s, input, srv, replies);
      && Sound(p.op) && Flying(p.op, Launched(inFlight, p.writes))
      && (p.outcome.None? ==> p.rest != [] && p.op.count >= srv.concurrency)
      && (s.pending == [] && (p.outcome.None? || p.outcome.value.Success?) ==>
            p.op.pending == [] && p.op.result == s.result && p.op.count <= Max(srv.concurrency, |s.registered|))
      && (p.outcome == Some(Success) ==> p.rest == [])
    decreases |input|
  {
    if input != [] && s.count < srv.concurrency {
      var (s1, n) := Accept(s, input, srv);
      AcceptSound(s, input, srv);
      var sent := SendPending(s1, replies);
      SendSound(s1, replies);
      SendFlying(s1, replies, inFlight);
      if sent.outcome.Success? {
        AdvanceSound(sent.op, input[n..], srv, Spend(replies, |sent.writes|), Launched(inFlight, sent.writes));
        LaunchedAppend(inFlight, sent.writes, Advance(sent.op, input[n..], srv, Spend(replies, |sent.writes|)).writes);
      }
    }
  }

  // ---- completions ----

  lemma WrittenSound(s: OpState, address: nat)
    requires Sound(s) && Named(s.registered, address)
    ensures Sound(OnWritten(s, address))
  {
    var r := OnWritten(s, address);
    var i := Find(s.registered, address);
    forall a: nat
      ensures Held(r, a) == if a < r.issued then 1 else 0
    {
      assert Held(s, a) == if a < s.issued then 1 else 0;
      TimesWithout(s.registered, i, a);
    }
  }

  lemma WrittenFlying(s: OpState, address: nat, inFlight: map<nat, bytes>)
    requires Sound(s) && Named(s.registered, address) && Flying(s, inFlight)
    ensures Flying(OnWritten(s, address), inFlight - {address})
  {
    var r := OnWritten(s, address);
    var i := Find(s.registered, address);
    TimesWithout(s.registered, i, address);
    assert Held(s, address) <= 1;
    forall j | 0 <= j < |r.registered|
      ensures r.registered[j].address != address
    {
      TimesPositive(r.registered, j);
    }
  }

  // ---- whole runs ----

  ghost predicate Inv(srv: Server, start: nat, w: World) {
    && Sound(w.op) && Flying(w.op, w.inFlight) && Streamed(w.op, start, w.fed, w.writes)
    && (w.phase.Feeding? ==> w.phase.rest != [])
    && (w.phase.Closing? || w.phase.Closed? ==> w.op.current.None?)
    && (w.phase.Closed? ==> w.op.count == 0)
    && (w.phase.Feeding? ==> w.awake || srv.concurrency <= w.op.count)
    && (w.phase.Closing? ==> w.awake || 0 < w.op.count)
    && (w.ok ==>
          && w.op.pending == [] && w.op.result.Success?
          && w.offered == w.fed + (if w.phase.Feeding? then w.phase.rest else [])
          && w.op.count <= srv.concurrency + (if w.phase.Closing? then 1 else 0))
  }

  ghost function Run(srv: Server, start: nat, events: seq<Event>): Option<World> {
    if events == [] then Some(Start(start))
    else
      var last := |events| - 1;
      match Run(srv, start, events[..last])
      case None => None
      case Some(w) => if Allowed(w, events[last]) then Some(Step(srv, w, events[last])) else None
  }

  /** What a call's progress must be like for the invariant to hold after it. */
  ghost predicate GoodProgress(srv: Server, start: nat, w: World, input: bytes, p: Progress) {
    && |p.rest| <= |input| && p.rest == input[|input| - |p.rest|..]
    && Sound(p.op) && Flying(p.op, Launched(w.inFlight, p.writes))
    && Streamed(p.op, start, w.fed + Taken(input, p.rest), w.writes + p.writes)
    && (p.outcome.None? ==> p.rest != [] && srv.concurrency <= p.op.count)
    && (p.outcome == Some(Success) ==> p.rest == [])
    && (w.ok && (p.outcome.None? || p.outcome.value.Success?) ==>
          p.op.pending == [] && p.op.result.Success? && p.op.count <= srv.concurrency)
  }

  lemma ProgressedKeeps(srv: Server, start: nat, w: World, input: bytes, p: Progress)
    requires GoodProgress(srv, start, w, input, p) && (w.ok ==> w.offered == w.fed + input)
    ensures Inv(srv, start, Progressed(w, input, p))
  {
    assert Taken(input, p.rest) + p.rest == input;
    Assoc(w.fed, Taken(input, p.rest), p.rest);
  }

  lemma ProgressKeeps(srv: Server, start: nat, w: World, input: bytes, replies: Replies)
    requires 0 < srv.blockSize && replies.fault.Failure?
    requires Sound(w.op) && Flying(w.op, w.inFlight) && Streamed(w.op, start, w.fed, w.writes)
    requires w.ok ==>
      w.op.pending == [] && w.op.result.Success? && w.offered == w.fed + input && w.op.count <= srv.concurrency
    ensures |Advance(w.op, input, srv, replies).rest| <= |input|
    ensures Inv(srv, start, Progressed(w, input, Advance(w.op, input, srv, replies)))
  {
    AdvanceRest(w.op, input, srv, replies);
    AdvanceSound(w.op, input, srv, replies, w.inFlight);
    AdvanceStreamed(w.op, input, srv, replies, start, w.fed, w.writes);
    ProgressedKeeps(srv, start, w, input, Advance(w.op, input, srv, replies));
  }

  lemma CloseKeeps(srv: Server, start: nat, w: World, replies: Replies)
    requires Inv(srv, start, w) && Allowed(w, Close(replies))
    ensures Inv(srv, start, Step(srv, w, Close(replies)))
  {
    var s := if w.op.current.Some? then Enqueue(w.op) else w.op;
    if w.op.current.Some? {
      var b := w.op.current.value;
      forall a: nat
        ensures Held(s, a) == if a < s.issued then 1 else 0
      {
        assert Held(w.op, a) == if a < w.op.issued then 1 else 0;
        TimesAppend(w.op.pending, [b], a);
      }
      PayloadAppend(w.op.pending, [b]);
      assert Payload([b]) == b.data + Payload([]) == b.data;
      assert Unsent(s) == Unsent(w.op);
    }
    SendSound(s, replies);
    SendFlying(s, replies, w.inFlight);
    SendStreamed(s, replies, start, w.fed, w.writes);
  }

  lemma StepKeeps(srv: Server, start: nat, w: World, e: Event)
    requires 0 < srv.blockSize && Inv(srv, start, w) && Allowed(w, e)
    ensures Inv(srv, start, Step(srv, w, e))
  {
    match e
    case Feed(chunk, replies) => ProgressKeeps(srv, start, w.(offered := w.offered + chunk), chunk, replies);
    case Resume(replies) => ProgressKeeps(srv, start, w, w.phase.rest, replies);
    case Close(replies) => CloseKeeps(srv, start, w, replies);
    case Drain =>
    case Written(address) =>
      WrittenSound(w.op, address);
      WrittenFlying(w.op, address, w.inFlight);
  }

  lemma {:induction false} RunKeeps(srv: Server, start: nat, events: seq<Event>)
    requires 0 < srv.blockSize && Run(srv, start, events).Some?
    ensures Inv(srv, start, Run(srv, start, events).value)
  {
    if events == [] {
      var w := Start(start);
      assert forall a: nat :: Held(w.op, a) == 0;
    } else {
      var last := |events| - 1;
      RunKeeps(srv, start, events[..last]);
      StepKeeps(srv, start, Run(srv, start, events[..last]).value, events[last]);
    }
  }

  /**
   * However the input is cut up and the completions fall, the registered writes tile the file from
   * `start` and carry exactly the bytes copied in, less the tail still queued or being filled.
   */
  lemma WritesTile(srv: Server, start: nat, events: seq<Event>)
    requires 0 < srv.blockSize && Run(srv, start, events).Some?
    ensures var w := Run(srv, start, events).value;
      && Tiled(start, w.writes) && Carried(w.writes) + Unsent(w.op) == w.fed
      && (w.ok ==> w.op.pending == [] && w.fed + (if w.phase.Feeding? then w.phase.rest else []) == w.offered)
  {
    RunKeeps(srv, start, events);
  }

  /** No run reaches a state in which the assertion of the copying loop fails. */
  lemma AssertionHolds(srv: Server, start: nat, events: seq<Event>)
    requires 0 < srv.blockSize && Run(srv, start, events).Some?
    ensures Roomy(Run(srv, start, events).value.op)
  {
    RunKeeps(srv, start, events);
  }

  /** After the final call everything offered has been written, and nothing is outstanding. */
  lemma ClosedMeansWritten(srv: Server, start: nat, events: seq<Event>)
    requires 0 < srv.blockSize && Run(srv, start, events).Some?
    requires Run(srv, start, events).value.phase.Closed?
    ensures var w := Run(srv, start, events).value;
      && w.op.count == 0 && w.op.registered == []
      && (w.ok ==> Carried(w.writes) == w.offered && Unsent(w.op) == [])
  {
    RunKeeps(srv, start, events);
    var w := Run(srv, start, events).value;
    assert Carried(w.writes) + [] == Carried(w.writes);
  }

  /** The count of outstanding writes is right, and within the concurrency but for the final call. */
  lemma WritesBounded(srv: Server, start: nat, events: seq<Event>)
    requires 0 < srv.blockSize && Run(srv, start, events).Some?
    ensures var w := Run(srv, start, events).value;
      && Conserved(w.op) && w.op.count == |w.op.registered|
      && (w.ok ==> w.op.count <= srv.concurrency + if w.phase.Closing? then 1 else 0)
  {
    RunKeeps(srv, start, events);
  }

  /**
   * A call of the tiler that waits is never stuck: it has been signalled or need not wait, or a write
   * is outstanding, and whichever write completes next signals it.
   */
  lemma WaitsEnd(srv: Server, start: nat, events: seq<Event>, address: nat)
    requires 0 < srv.blockSize && 0 < srv.concurrency && Run(srv, start, events).Some?
    requires Run(srv, start, events).value.phase.Feeding? || Run(srv, start, events).value.phase.Closing?
    ensures var w := Run(srv, start, events).value;
      && (w.awake || w.op.registered != [])
      && (Named(w.op.registered, address) ==> Step(srv, w, Written(address)).awake)
  {
    RunKeeps(srv, start, events);
  }

  // ---- the server's bytes stay put ----

  lemma {:induction false} SendLeaves(s: OpState, replies: Replies, b: Slot)
    requires b in s.registered
    ensures b in SendPending(s, replies).op.registered
    decreases |s.pending|
  {
    if s.pending != [] && replies.grant != 0 {
      SendLeaves(SendOne(s), replies.(grant := replies.grant - 1), b);
    }
  }

  lemma {:induction false} AdvanceLeaves(s: OpState, input: bytes, srv: Server, replies: Replies, b: Slot)
    requires b in s.registered
    ensures b in Advance(s, input, srv, replies).op.registered
    decreases |input|
  {
    if input != [] && s.count < srv.concurrency {
      var (s1, n) := Accept(s, input, srv);
      var sent := SendPending(s1, replies);
      assert s1.registered == s.registered;
      SendLeaves(s1, replies, b);
      if sent.outcome.Success? && n != 0 {
        AdvanceLeaves(sent.op, input[n..], srv, Spend(replies, |sent.writes|), b);
      }
    }
  }

  /**
   * From its registration to its completion a write's buffer stays with the server, unchanged, and
   * holds the bytes it was registered with.
   */
  lemma InFlightUntouched(srv: Server, start: nat, events: seq<Event>, e: Event, b: Slot)
    requires 0 < srv.blockSize && Run(srv, start, events).Some? && Allowed(Run(srv, start, events).value, e)
    requires b in Run(srv, start, events).value.op.registered && e != Written(b.address)
    ensures var w := Run(srv, start, events).value; var w' := Step(srv, w, e);
      && b in w'.op.registered
      && b.address in w.inFlight && w.inFlight[b.address] == b.data
      && b.address in w'.inFlight && w'.inFlight[b.address] == b.data
  {
    var w := Run(srv, start, events).value;
    RunKeeps(srv, start, events);
    StepKeeps(srv, start, w, e);
    match e
    case Feed(chunk, replies) => AdvanceLeaves(w.op, chunk, srv, replies, b);
    case Resume(replies) => AdvanceLeaves(w.op, w.phase.rest, srv, replies, b);
    case Close(replies) => SendLeaves(if w.op.current.Some? then Enqueue(w.op) else w.op, replies, b);
    case Drain =>
    case Written(address) => WithoutLeaves(w.op.registered, Find(w.op.registered, address), b);
  }

  lemma WithoutLeaves(slots: seq<Slot>, i: nat, b: Slot)
    requires i < |slots| && b in slots && b != slots[i]
    ensures b in Without(slots, i)
  {
    var j :| 0 <= j < |slots| && slots[j] == b;
    assert Without(slots, i)[if j < i then j else j - 1] == b;
  }
}
