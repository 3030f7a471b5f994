/** A stream of one block through an unbounded upload that reads two blocks at a time. */
module EndToEndExample {
  import opened Bytes
  import opened OpStates
  import opened Reorder
  import opened ReorderRuns
  import opened EndToEnd
  import T = Tiler
  import R = TilerRuns

  const STREAM: bytes := [7]
  const TILER := Server(1, 1)
  const NO := Replies(0, Failure(0))

  function Block(used: nat, at: nat, data: bytes, address: nat): Slot {
    Slot(address, 1, used, at, data)
  }

  // ---- the download ----

  function Fed(): R.World {
    var w := R.Start(0);
    w.(op := w.op.(offset := 1, registered := [Block(1, UINT64_MAX, STREAM, 0)], count := 1, issued := 1),
       offered := STREAM, fed := STREAM, writes := [T.Write(0, 0, STREAM)], inFlight := map[0 := STREAM])
  }

  const FEED := R.Feed(STREAM, Replies(1, Failure(0)))

  lemma Feeds()
    ensures R.Allowed(R.Start(0), FEED) && R.Step(TILER, R.Start(0), FEED) == Fed()
  {
    var s := R.Start(0).op;
    var full := Block(1, UINT64_MAX, STREAM, 0);
    var queued := s.(issued := 1, pending := [full]);
    assert [] + STREAM == STREAM && STREAM[..1] == STREAM && STREAM[1..] == [] && [] + [full] == [full];
    assert T.Accept(s, STREAM, TILER) == (queued, 1);
    assert T.SendOne(queued) == Fed().op;
    assert T.SendPending(Fed().op, NO) == T.Sent(Fed().op, [], Success);
    assert T.SendPending(queued, FEED.replies) == T.Sent(Fed().op, [T.Write(0, 0, STREAM)] + [], Success);
    assert T.Advance(Fed().op, [], TILER, NO) == T.Progress(Fed().op, [], [], Some(Success));
    var p := T.Advance(s, STREAM, TILER, FEED.replies);
    assert p == T.Progress(Fed().op, [], [T.Write(0, 0, STREAM)] + [] + [], Some(Success));
    assert STREAM[..|STREAM| - |p.rest|] == STREAM;
  }

  function Closing(): R.World {
    Fed().(phase := R.Closing(Success), awake := false)
  }

  function Landed(): R.World {
    var w := Closing();
    w.(op := w.op.(registered := [], free := [Block(0, UINT64_MAX, [], 0)], count := 0), inFlight := map[],
       awake := true)
  }

  lemma ClosesAndLands()
    ensures R.Allowed(Fed(), R.Close(NO)) && R.Step(TILER, Fed(), R.Close(NO)) == Closing()
    ensures R.Allowed(Closing(), R.Written(0)) && R.Step(TILER, Closing(), R.Written(0)) == Landed()
  {
    var s := Fed().op;
    assert T.SendPending(s, NO) == T.Sent(s, [], Success);
    assert Fed().writes + [] == Fed().writes;
    assert s.registered[0].address == 0 && Find(s.registered, 0) == 0;
    assert Without(s.registered, 0) == [];
    assert Closing().inFlight - {0} == map[];
  }

  const INWARD: seq<R.Event> := [FEED] + [R.Close(NO)] + [R.Written(0)] + [R.Drain]

  lemma RunNext(events: seq<R.Event>, e: R.Event, w: R.World)
    requires R.Run(TILER, 0, events) == Some(w) && R.Allowed(w, e)
    ensures R.Run(TILER, 0, events + [e]) == Some(R.Step(TILER, w, e))
  {
    assert (events + [e])[..|events|] == events;
  }

  lemma StreamIsTiled()
    ensures R.Run(TILER, 0, INWARD) == Some(Landed().(phase := R.Closed(Success)))
  {
    Feeds();
    ClosesAndLands();
    assert [] + [FEED] == [FEED];
    RunNext([], FEED, R.Start(0));
    RunNext([FEED], R.Close(NO), Fed());
    RunNext([FEED] + [R.Close(NO)], R.Written(0), Closing());
    RunNext([FEED] + [R.Close(NO)] + [R.Written(0)], R.Drain, Landed());
  }

  // ---- the upload ----

  function Whole(): Config {
    Config(STREAM, 0, UINT64_MAX, Server(1, 2))
  }

  const CALL := Call(1, Replies(2, Failure(0)))
  const BLOCK := Read(Completion(0, Success, 0, STREAM, false))
  const NOTHING := Read(Completion(1, Success, 1, [], true))
  const LAST := Call(1, NO)

  /** Two reads are outstanding, of which the second has nothing to bring. */
  function Asked(): World {
    var w := Start(Whole());
    var two := [Block(0, UINT64_MAX, [], 1), Block(0, UINT64_MAX, [], 0)];
    w.(op := w.op.(registered := two, issued := 2), waiting := Some(1), last := Blocked)
  }

  lemma CallAsks()
    ensures Possible(Start(Whole()), CALL) && Step(Whole(), Start(Whole()), CALL) == Asked()
  {
    var s, srv := Start(Whole()).op, Whole().srv;
    var one := Block(0, UINT64_MAX, [], 0);
    var p := Pass(s.(registered := [one], issued := 1), 1, 1, Replies(1, Failure(0)), [Request(0, 1)]);
    var q := Pass(Asked().op, 2, 2, NO, [Request(0, 1), Request(1, 1)]);
    assert Granted(Begin(s, CALL.replies), srv) == p && Granted(p, srv) == q;
    assert RegisterFrom(q, srv) == (q, Success);
    assert RegisterFrom(p, srv) == (q, Success);
    assert RegisterReads(s, srv, CALL.replies) == (Asked().op, Success);
  }

  function Brought(): World {
    var w := Asked();
    w.(op := w.op.(registered := [Block(0, UINT64_MAX, [], 1)], pending := [Block(1, 0, STREAM, 0)]),
       signalled := true, received := Span(0, 1))
  }

  function Ended(): World {
    var w := Brought();
    w.(op := w.op.(registered := [], free := [Block(UINT64_MAX, UINT64_MAX, [], 1)], eof := true, serverEof := true),
       received := Span(0, 1))
  }

  lemma ReadsComplete()
    ensures Possible(Asked(), BLOCK) && Step(Whole(), Asked(), BLOCK) == Brought()
    ensures Possible(Brought(), NOTHING) && Step(Whole(), Brought(), NOTHING) == Ended()
  {
    var s, t := Asked().op, Brought().op;
    assert s.registered[1].address == 0 && Find(s.registered, 0) == 1;
    assert Without(s.registered, 1) == t.registered && {} + Span(0, 1) == Span(0, 1);
    assert t.registered[0].address == 1 && Find(t.registered, 1) == 0 && Without(t.registered, 0) == [];
    assert Span(1, 0) == {} && Span(0, 1) + {} == Span(0, 1);
  }

  function Sent(): World {
    var w := Ended();
    w.(op := w.op.(offset := 1, pending := [], free := [Block(0, UINT64_MAX, [], 0)] + w.op.free), waiting := None,
       signalled := false, sent := STREAM, last := Returned(Success, STREAM))
  }

  lemma WakeSends()
    ensures Possible(Ended(), Wake(NO)) && Step(Whole(), Ended(), Wake(NO)) == Sent()
    ensures Possible(Sent(), LAST) && Step(Whole(), Sent(), LAST).last == Returned(Success, [])
  {
    var s := Ended().op;
    assert s.pending[0].data[..1] == STREAM && s.pending[1..] == [];
    assert CopyOne(s, 1) == (Sent().op, STREAM);
    assert CopyOut(s, 1) == (Sent().op, STREAM + []);
    assert [] + STREAM == STREAM;
  }

  const OUTWARD: seq<Event> := [CALL] + [BLOCK] + [NOTHING] + [Wake(NO)]

  lemma PlayNext(events: seq<Event>, e: Event, w: World)
    requires Play(Whole(), events) == Some(w) && Possible(w, e)
    ensures Play(Whole(), events + [e]) == Some(Step(Whole(), w, e))
    ensures Reads(events + [e]) == Reads(events) + if Brings(e) then [e.c] else []
  {
    assert (events + [e])[..|events|] == events;
  }

  lemma BlockIsRead()
    ensures Play(Whole(), [CALL] + [BLOCK]) == Some(Brought()) && Reads([CALL] + [BLOCK]) == [BLOCK.c]
  {
    CallAsks();
    ReadsComplete();
    assert [] + [CALL] == [CALL];
    PlayNext([], CALL, Start(Whole()));
    PlayNext([CALL], BLOCK, Asked());
  }

  lemma StreamIsUploaded()
    ensures Play(Whole(), OUTWARD) == Some(Sent()) && Reads(OUTWARD) == [BLOCK.c]
  {
    BlockIsRead();
    ReadsComplete();
    WakeSends();
    PlayNext([CALL] + [BLOCK], NOTHING, Brought());
    PlayNext([CALL] + [BLOCK] + [NOTHING], Wake(NO), Ended());
  }

  lemma OrderKept()
    ensures Marked(OUTWARD) && Shuffled([T.Write(0, 0, STREAM)], [BLOCK.c], [0])
  {
    assert 0 in [0];
  }

  /** The stream comes back, though one of the reads asked for it brings nothing. */
  lemma OneBlockComesBack()
    ensures R.Run(TILER, 0, INWARD).Some? && Play(Whole(), OUTWARD) == Some(Sent()) && Possible(Sent(), LAST)
    ensures Step(Whole(), Sent(), LAST).sent == R.Run(TILER, 0, INWARD).value.offered
  {
    StreamIsTiled();
    StreamIsUploaded();
    OrderKept();
    WakeSends();
    assert STREAM[0..] == STREAM;
    StreamComesBack(TILER, INWARD, Whole(), OUTWARD, [0], LAST);
  }
}
