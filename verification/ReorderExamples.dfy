/** Runs of the reorder buffer in which a partial transfer asks for too much, and a failure goes unreported. */
module ReorderExamples {
  import opened Bytes
  import opened OpStates
  import opened Reorder
  import opened ReorderRuns
  import opened ReorderRange

  /** Three bytes are wanted, with two reads of two bytes at a time. */
  function ThreeBytes(): Config {
    Config([0, 0, 0], 0, 3, Server(2, 2))
  }

  function Empty(address: nat): Slot {
    Slot(address, 2, 0, UINT64_MAX, [])
  }

  const CALL := Call(2, Replies(2, Failure(0)))
  const READ := Read(Completion(0, Success, 0, [0, 0], false))
  const WAKE := Wake(Replies(0, Failure(0)))

  /** Two reads have been registered, for two bytes and for one. */
  function Registered(): World {
    var s := Start(ThreeBytes()).op;
    Start(ThreeBytes()).(op := s.(registered := [Empty(1), Empty(0)], issued := 2), waiting := Some(2), last := Blocked)
  }

  /** The first of them has brought its two bytes. */
  function Arrived(): World {
    var w := Registered();
    w.(op := w.op.(registered := [Empty(1)], pending := [Empty(0).(used := 2, at := 0, data := [0, 0])]),
       signalled := true, received := Span(0, 2))
  }

  lemma CallRegistersTwo()
    ensures Step(ThreeBytes(), Start(ThreeBytes()), CALL) == Registered()
    ensures Requests(Start(ThreeBytes()).op, ThreeBytes().srv, CALL.replies) == [Request(0, 2), Request(1, 1)]
  {
    var cfg := ThreeBytes();
    var s := Start(cfg).op;
    var t := Registered().op;
    var p := Pass(s.(registered := [Empty(0)], issued := 1), 2, 1, Replies(1, Failure(0)), [Request(0, 2)]);
    var q := Pass(t, 3, 2, Replies(0, Failure(0)), [Request(0, 2), Request(1, 1)]);
    assert Granted(Begin(s, CALL.replies), cfg.srv) == p && Granted(p, cfg.srv) == q;
    assert RegisterFrom(q, cfg.srv) == (q, Success);
    assert RegisterFrom(p, cfg.srv) == (q, Success);
    assert RegisterReads(s, cfg.srv, CALL.replies) == (t, Success);
  }

  lemma ReadArrives()
    ensures Allowed(ThreeBytes(), Registered(), READ)
    ensures Step(ThreeBytes(), Registered(), READ) == Arrived()
  {
    var s := Registered().op;
    assert s.registered[1].address == READ.c.address;
    assert Find(s.registered, 0) == 1;
    assert ThreeBytes().file[0..2] == [0, 0];
    assert Without(s.registered, 1) == [Empty(1)];
    assert {} + Span(0, 2) == Span(0, 2);
  }

  /** And they have been uploaded. */
  function Uploaded(): World {
    var w := Arrived();
    w.(op := w.op.(offset := 2, pending := [], free := [Empty(0)]), waiting := None, signalled := false,
       sent := [0, 0], last := Returned(Success, [0, 0]))
  }

  lemma WakeUploads()
    ensures Step(ThreeBytes(), Arrived(), WAKE) == Uploaded()
  {
    var s := Arrived().op;
    assert s.pending[0].data[..2] == [0, 0] && s.pending[1..] == [] && [Empty(0)] + s.free == [Empty(0)];
    assert CopyOne(s, 2) == (s.(offset := 2, pending := [], free := [Empty(0)]), [0, 0]);
    assert CopyOut(s, 2) == (CopyOne(s, 2).0, [0, 0] + []);
  }

  /** A run goes on by an event. */
  lemma OneMore(cfg: Config, events: seq<Event>, e: Event, w: World, asked: map<nat, nat>, more: seq<Request>)
    requires Run(cfg, events) == Some(w) && AskedFor(cfg, events) == asked && AllBrief(cfg, events)
    requires Allowed(cfg, w, e) && Brief(asked, e) && Asking(cfg, w, e) == more
    ensures Run(cfg, events + [e]) == Some(Step(cfg, w, e))
    ensures AskedFor(cfg, events + [e]) == Noted(asked, more) && AllBrief(cfg, events + [e])
  {
    Next(cfg, events, e);
    assert (events + [e])[..|events|] == events;
  }

  lemma NotedTwo()
    ensures Noted(map[], [Request(0, 2), Request(1, 1)]) == map[0 := 2, 1 := 1]
  {
    var both := [Request(0, 2), Request(1, 1)];
    assert both[..1] == [Request(0, 2)] && both[..1][..0] == [];
    assert Noted(map[], []) == map[];
    assert Noted(map[], [Request(0, 2)]) == map[0 := 2];
  }

  const ASKED: map<nat, nat> := map[0 := 2, 1 := 1]
  const TWO: seq<Event> := [CALL] + [READ]
  const THREE: seq<Event> := TWO + [WAKE]

  lemma FirstEvent(cfg: Config, e: Event, more: seq<Request>)
    requires Allowed(cfg, Start(cfg), e) && !e.Read? && Asking(cfg, Start(cfg), e) == more
    ensures Run(cfg, [e]) == Some(Step(cfg, Start(cfg), e))
    ensures AskedFor(cfg, [e]) == Noted(map[], more) && AllBrief(cfg, [e])
  {
    assert [] + [e] == [e];
    OneMore(cfg, [], e, Start(cfg), map[], more);
  }

  lemma TwoEvents()
    ensures Run(ThreeBytes(), TWO) == Some(Arrived())
    ensures AskedFor(ThreeBytes(), TWO) == ASKED && AllBrief(ThreeBytes(), TWO)
  {
    CallRegistersTwo();
    ReadArrives();
    NotedTwo();
    FirstEvent(ThreeBytes(), CALL, [Request(0, 2), Request(1, 1)]);
    OneMore(ThreeBytes(), [CALL], READ, Registered(), ASKED, []);
  }

  lemma ThreeEvents()
    ensures Run(ThreeBytes(), THREE) == Some(Uploaded())
    ensures AskedFor(ThreeBytes(), THREE) == ASKED && AllBrief(ThreeBytes(), THREE)
  {
    TwoEvents();
    WakeUploads();
    OneMore(ThreeBytes(), TWO, WAKE, Arrived(), ASKED, []);
  }

  const MORE := Call(1, Replies(1, Failure(0)))

  /** The call after that registers two bytes, of which there are none left to ask for. */
  lemma CallAsksMore()
    ensures Requests(Uploaded().op, ThreeBytes().srv, MORE.replies) == [Request(0, 2)]
    ensures WillAsk(ThreeBytes(), Uploaded(), MORE) == 2
  {
    var s, srv := Uploaded().op, ThreeBytes().srv;
    var p := Begin(s, MORE.replies);
    assert Room(s.registered) == 2 && Left(s, 2, srv) == UINT64_MAX;
    var q := Pass(s.(registered := [Empty(0), Empty(1)], free := []), 4, 2, Replies(0, Failure(0)), [Request(0, 2)]);
    assert Granted(p, srv) == q;
    assert RegisterFrom(q, srv) == (q, Success);
  }

  /**
   * With the reads coming back in order and in full, what one of them was asked for is less than it has
   * room for, and the next pass asks for bytes beyond the range.
   */
  lemma AsksBeyondInOrder()
    ensures ThreeBytes().Valid() && Run(ThreeBytes(), THREE).Some? && AllBrief(ThreeBytes(), THREE)
    ensures var w := Run(ThreeBytes(), THREE).value;
      && Allowed(ThreeBytes(), w, MORE) && Asking(ThreeBytes(), w, MORE) == [Request(0, 2)]
      && InRange(ThreeBytes(), THREE) && !Stays(ThreeBytes(), THREE, MORE)
  {
    ThreeEvents();
    CallAsksMore();
    assert Due([Empty(1)], ASKED) == 1;
  }

  // ---- a failure that is not reported ----

  /** The read beyond the range is outstanding. */
  function AskedMore(): World {
    var w := Uploaded();
    w.(op := w.op.(registered := [Empty(0), Empty(1)], free := []), waiting := Some(1), last := Blocked)
  }

  lemma CallWaits()
    ensures Step(ThreeBytes(), Uploaded(), MORE) == AskedMore()
  {
    CallAsksMore();
    var s, srv := Uploaded().op, ThreeBytes().srv;
    assert [Empty(0)] + s.registered == [Empty(0), Empty(1)];
    var q := Pass(AskedMore().op, 4, 2, Replies(0, Failure(0)), [Request(0, 2)]);
    assert Granted(Begin(s, MORE.replies), srv) == q;
    assert RegisterFrom(q, srv) == (q, Success);
  }

  const LAST := Read(Completion(1, Success, 2, [0], false))

  /** The last byte wanted has arrived. */
  function LastArrived(): World {
    var w := AskedMore();
    w.(op := w.op.(registered := [Empty(0)], pending := [Empty(1).(used := 1, at := 2, data := [0])], eof := true),
       signalled := true, received := w.received + Span(2, 1))
  }

  lemma LastArrives()
    ensures Allowed(ThreeBytes(), AskedMore(), LAST) && Step(ThreeBytes(), AskedMore(), LAST) == LastArrived()
  {
    var s := AskedMore().op;
    assert s.registered[1].address == LAST.c.address;
    assert Find(s.registered, 1) == 1;
    assert ThreeBytes().file[2..3] == [0];
    assert Without(s.registered, 1) == [Empty(0)];
  }

  /** And has been uploaded. */
  function AllUploaded(): World {
    var w := LastArrived();
    w.(op := w.op.(offset := 3, pending := [], free := [Empty(1)]), waiting := None, signalled := false,
       sent := [0, 0, 0], last := Returned(Success, [0]))
  }

  lemma LastUploads()
    ensures Step(ThreeBytes(), LastArrived(), WAKE) == AllUploaded()
  {
    var s := LastArrived().op;
    assert s.pending[0].data[..1] == [0] && s.pending[1..] == [] && [Empty(1)] + s.free == [Empty(1)];
    assert CopyOne(s, 1) == (s.(offset := 3, pending := [], free := [Empty(1)]), [0]);
    assert CopyOut(s, 1) == (CopyOne(s, 1).0, [0] + []);
    assert [0, 0] + [0] == [0, 0, 0];
  }

  const FAILS := Read(Completion(0, Failure(1), 3, [], false))

  lemma MoreFails()
    ensures Allowed(ThreeBytes(), AllUploaded(), FAILS)
    ensures var w := Step(ThreeBytes(), AllUploaded(), FAILS);
      w.op.result == Failure(1) && w.op.offset == w.op.end && w.waiting.None?
  {
    assert AllUploaded().op.registered[0].address == FAILS.c.address;
  }

  const FIVE: seq<Event> := THREE + [MORE] + [LAST]
  const SEVEN: seq<Event> := FIVE + [WAKE] + [FAILS]

  lemma FiveEvents()
    ensures Run(ThreeBytes(), FIVE) == Some(LastArrived())
  {
    ThreeEvents();
    CallWaits();
    LastArrives();
    Next(ThreeBytes(), THREE, MORE);
    Next(ThreeBytes(), THREE + [MORE], LAST);
  }

  /** The read that should not have been asked for fails, and the next call reports success. */
  lemma FailureIsHidden()
    ensures ThreeBytes().Valid() && Run(ThreeBytes(), SEVEN).Some?
    ensures var w := Run(ThreeBytes(), SEVEN).value;
      && w.op.result == Failure(1) && Possible(w, MORE) && Step(ThreeBytes(), w, MORE).last == Returned(Success, [])
  {
    FiveEvents();
    LastUploads();
    MoreFails();
    Next(ThreeBytes(), FIVE, WAKE);
    Next(ThreeBytes(), FIVE + [WAKE], FAILS);
  }

  // ---- reads that come back out of order ----

  /** Six of eight bytes are wanted, with three reads of two bytes at a time. */
  function SixBytes(): Config {
    Config([0, 0, 0, 0, 0, 0, 0, 0], 0, 6, Server(2, 3))
  }

  const CALL3 := Call(2, Replies(3, Failure(0)))
  const MIDDLE := Read(Completion(1, Success, 2, [0, 0], false))
  const AGAIN := Wake(Replies(1, Failure(0)))

  /** All six have been asked for. */
  function Asked3(): World {
    var s := Start(SixBytes()).op;
    Start(SixBytes()).(op := s.(registered := [Empty(2), Empty(1), Empty(0)], issued := 3), waiting := Some(2),
                       last := Blocked)
  }

  /** The two in the middle have come back. */
  function MiddleArrived(): World {
    var w := Asked3();
    w.(op := w.op.(registered := [Empty(2), Empty(0)], pending := [Empty(1).(used := 2, at := 2, data := [0, 0])]),
       signalled := true, received := Span(2, 2))
  }

  const REQUESTS3: seq<Request> := [Request(0, 2), Request(1, 2), Request(2, 2)]

  lemma ThreeGranted()
    ensures RegisterFrom(Begin(Start(SixBytes()).op, CALL3.replies), SixBytes().srv)
      == (Pass(Asked3().op, 6, 3, Replies(0, Failure(0)), REQUESTS3), Success)
  {
    var cfg := SixBytes();
    var s := Start(cfg).op;
    var p := Pass(s.(registered := [Empty(0)], issued := 1), 2, 1, Replies(2, Failure(0)), [Request(0, 2)]);
    var q := Pass(s.(registered := [Empty(1), Empty(0)], issued := 2), 4, 2, Replies(1, Failure(0)),
                  [Request(0, 2), Request(1, 2)]);
    var r := Pass(Asked3().op, 6, 3, Replies(0, Failure(0)), REQUESTS3);
    assert Granted(Begin(s, CALL3.replies), cfg.srv) == p && Granted(p, cfg.srv) == q && Granted(q, cfg.srv) == r;
    assert RegisterFrom(r, cfg.srv) == (r, Success);
    assert RegisterFrom(q, cfg.srv) == (r, Success);
    assert RegisterFrom(p, cfg.srv) == (r, Success);
  }

  lemma CallRegistersThree()
    ensures Step(SixBytes(), Start(SixBytes()), CALL3) == Asked3()
    ensures Requests(Start(SixBytes()).op, SixBytes().srv, CALL3.replies) == REQUESTS3
  {
    ThreeGranted();
    assert RegisterReads(Start(SixBytes()).op, SixBytes().srv, CALL3.replies) == (Asked3().op, Success);
  }

  lemma MiddleArrives()
    ensures Allowed(SixBytes(), Asked3(), MIDDLE)
    ensures Step(SixBytes(), Asked3(), MIDDLE) == MiddleArrived()
  {
    var s := Asked3().op;
    assert s.registered[1].address == MIDDLE.c.address;
    assert Find(s.registered, 1) == 1;
    assert SixBytes().file[2..4] == [0, 0];
    assert Without(s.registered, 1) == [Empty(2), Empty(0)];
    assert {} + Span(2, 2) == Span(2, 2);
  }

  lemma NotedThree()
    ensures Noted(map[], [Request(0, 2), Request(1, 2), Request(2, 2)]) == map[0 := 2, 1 := 2, 2 := 2]
  {
    var all := [Request(0, 2), Request(1, 2), Request(2, 2)];
    assert all[..2] == [Request(0, 2), Request(1, 2)] && all[..2][..1] == [Request(0, 2)] && all[..2][..1][..0] == [];
    assert Noted(map[], []) == map[];
    assert Noted(map[], [Request(0, 2)]) == map[0 := 2];
    assert Noted(map[], [Request(0, 2), Request(1, 2)]) == map[0 := 2, 1 := 2];
  }

  const ASKED3: map<nat, nat> := map[0 := 2, 1 := 2, 2 := 2]
  const FROM_MIDDLE: seq<Event> := [CALL3] + [MIDDLE]

  lemma MiddleEvents()
    ensures Run(SixBytes(), FROM_MIDDLE) == Some(MiddleArrived())
    ensures AskedFor(SixBytes(), FROM_MIDDLE) == ASKED3 && AllBrief(SixBytes(), FROM_MIDDLE)
  {
    CallRegistersThree();
    MiddleArrives();
    NotedThree();
    FirstEvent(SixBytes(), CALL3, REQUESTS3);
    OneMore(SixBytes(), [CALL3], MIDDLE, Asked3(), ASKED3, []);
  }

  lemma WakeAsksMore()
    ensures Requests(MiddleArrived().op, SixBytes().srv, AGAIN.replies) == [Request(3, 2)]
    ensures WillAsk(SixBytes(), MiddleArrived(), AGAIN) == 2
  {
    var s, srv := MiddleArrived().op, SixBytes().srv;
    var p := Begin(s, AGAIN.replies);
    assert Room(s.registered) == 4 && Left(s, 4, srv) == 2;
    var q := Pass(s.(registered := [Empty(3), Empty(2), Empty(0)], issued := 4), 6, 3, Replies(0, Failure(0)),
                  [Request(3, 2)]);
    assert Granted(p, srv) == q;
    assert RegisterFrom(q, srv) == (q, Success);
  }

  lemma DueTwo()
    ensures Due([Empty(2), Empty(0)], ASKED3) == 4
  {
    assert [Empty(2), Empty(0)][1..] == [Empty(0)] && [Empty(0)][1..] == [];
    assert Due([Empty(0)], ASKED3) == 2;
  }

  /**
   * When they come back out of order, what is pending is forgotten: there is room left in the range for
   * all that is outstanding, and the next pass asks for as much as is pending once more.
   */
  lemma AsksBeyondOutOfOrder()
    ensures SixBytes().Valid() && Run(SixBytes(), FROM_MIDDLE).Some? && AllBrief(SixBytes(), FROM_MIDDLE)
    ensures var w := Run(SixBytes(), FROM_MIDDLE).value;
      && w.op.offset + Room(w.op.registered) <= w.op.end
      && Allowed(SixBytes(), w, AGAIN) && Asking(SixBytes(), w, AGAIN) == [Request(3, 2)]
      && InRange(SixBytes(), FROM_MIDDLE) && !Stays(SixBytes(), FROM_MIDDLE, AGAIN)
  {
    MiddleEvents();
    WakeAsksMore();
    DueTwo();
  }
}
