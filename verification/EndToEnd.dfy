/** The tiler's writes, handed to the reorder buffer in any order, give the stream back. */
module EndToEnd {
  import opened Bytes
  import opened OpStates
  import opened Reorder
  import opened ReorderRuns
  import T = Tiler
  import R = TilerRuns

  /** The upload side with no promise about what its reads bring. */
  function Play(cfg: Config, events: seq<Event>): Option<World> {
    if events == [] then Some(Start(cfg))
    else
      var last := |events| - 1;
      match Play(cfg, events[..last])
      case None => None
      case Some(w) => if Possible(w, events[last]) then Some(Step(cfg, w, events[last])) else None
  }

  /** Reads that fail or bring nothing bring no write. */
  predicate Brings(e: Event) {
    e.Read? && e.c.outcome.Success? && e.c.data != []
  }

  function Reads(events: seq<Event>): seq<Completion> {
    if events == [] then []
    else
      var last := |events| - 1;
      Reads(events[..last]) + if Brings(events[last]) then [events[last].c] else []
  }

  /** A good read that brings nothing marks the end. */
  predicate Marked(events: seq<Event>) {
    forall k :: 0 <= k < |events| ==>
      (events[k].Read? && events[k].c.data == [] && events[k].c.outcome.Success? ==> events[k].c.eof)
  }

  /** The k-th read brings the p[k]-th write, and no write twice. */
  predicate Drawn(writes: seq<T.Write>, arrived: seq<Completion>, p: seq<nat>) {
    && |arrived| <= |p|
    && (forall k :: 0 <= k < |p| ==> p[k] < |writes|)
    && (forall j, k :: 0 <= j < k < |p| ==> p[j] != p[k])
    && forall k :: 0 <= k < |arrived| ==>
      arrived[k].at == writes[p[k]].at && arrived[k].data == writes[p[k]].data
  }

  /** All writes, in the order p. */
  predicate Shuffled(writes: seq<T.Write>, arrived: seq<Completion>, p: seq<nat>) {
    Drawn(writes, arrived, p) && |arrived| == |p| && forall i :: 0 <= i < |writes| ==> i in p
  }

  lemma {:induction false} TileAt(start: nat, writes: seq<T.Write>, i: nat)
    requires R.Tiled(start, writes) && i < |writes|
    ensures start <= writes[i].at && writes[i].data != []
    ensures writes[i].at + |writes[i].data| <= start + |R.Carried(writes)|
    ensures writes[i].data == R.Carried(writes)[writes[i].at - start..writes[i].at - start + |writes[i].data|]
    decreases i
  {
    if i > 0 {
      var first, rest, at := writes[0].data, R.Carried(writes[1..]), writes[i].at - start;
      TileAt(start + |first|, writes[1..], i - 1);
      Behind(first, rest, at, |writes[i].data|);
    }
  }

  /** A slice behind the first part is one of the rest. */
  lemma Behind(first: bytes, rest: bytes, at: nat, n: nat)
    requires |first| <= at && at + n <= |first| + |rest|
    ensures (first + rest)[at..at + n] == rest[at - |first|..at - |first| + n]
  {
  }

  lemma {:induction false} TilesApart(start: nat, writes: seq<T.Write>, i: nat, j: nat)
    requires R.Tiled(start, writes) && i < j < |writes|
    ensures writes[i].at + |writes[i].data| <= writes[j].at
    decreases i
  {
    if i == 0 {
      TileAt(start + |writes[0].data|, writes[1..], j - 1);
    } else {
      TilesApart(start + |writes[0].data|, writes[1..], i - 1, j - 1);
    }
  }

  lemma {:induction false} TilesCover(start: nat, writes: seq<T.Write>, k: nat) returns (i: nat)
    requires R.Tiled(start, writes) && start <= k < start + |R.Carried(writes)|
    ensures i < |writes| && Within(k, writes[i].at, |writes[i].data|)
    decreases |writes|
  {
    if k < start + |writes[0].data| {
      i := 0;
    } else {
      i := TilesCover(start + |writes[0].data|, writes[1..], k);
      i := i + 1;
    }
  }

  ghost predicate Collected(arrived: seq<Completion>, received: set<nat>) {
    forall k: nat :: k in received <==> exists j :: 0 <= j < |arrived| && Within(k, arrived[j].at, |arrived[j].data|)
  }

  /** Two different tiles share no position, so each read of the draw brings fresh bytes. */
  lemma DrawIsHonest(cfg: Config, w: World, writes: seq<T.Write>, arrived: seq<Completion>, c: Completion, p: seq<nat>)
    requires R.Tiled(cfg.start, writes) && cfg.start <= |cfg.file| && R.Carried(writes) == cfg.file[cfg.start..]
    requires Drawn(writes, arrived + [c], p) && (w.op.result.Success? ==> Collected(arrived, w.received))
    ensures Honest(cfg, w, c)
  {
    var all := arrived + [c];
    assert all[|arrived|] == c;
    var i := p[|arrived|];
    TileAt(cfg.start, writes, i);
    forall k: nat, j: nat | j < |arrived| && Within(k, arrived[j].at, |arrived[j].data|)
      ensures !Within(k, c.at, |c.data|)
    {
      assert all[j] == arrived[j];
      if p[j] < i {
        TilesApart(cfg.start, writes, p[j], i);
      } else {
        TilesApart(cfg.start, writes, i, p[j]);
      }
    }
  }

  lemma CollectedMore(arrived: seq<Completion>, c: Completion, received: set<nat>)
    requires Collected(arrived, received)
    ensures Collected(arrived + [c], received + Span(c.at, |c.data|))
  {
    var all := arrived + [c];
    forall k: nat
      ensures k in received + Span(c.at, |c.data|)
        <==> exists j :: 0 <= j < |all| && Within(k, all[j].at, |all[j].data|)
    {
      if k in received {
        var j :| 0 <= j < |arrived| && Within(k, arrived[j].at, |arrived[j].data|);
        assert all[j] == arrived[j];
      }
      assert all[|arrived|] == c;
    }
  }

  lemma {:induction false} PlayIsHonest(cfg: Config, writes: seq<T.Write>, events: seq<Event>, p: seq<nat>)
    requires R.Tiled(cfg.start, writes) && cfg.start <= |cfg.file| && R.Carried(writes) == cfg.file[cfg.start..]
    requires Play(cfg, events).Some? && Marked(events) && Drawn(writes, Reads(events), p)
    ensures Run(cfg, events) == Play(cfg, events)
    ensures var w := Play(cfg, events).value; w.op.result.Success? ==> Collected(Reads(events), w.received)
  {
    if events != [] {
      var last := |events| - 1;
      var before := Reads(events[..last]);
      assert forall k :: 0 <= k < |before| ==> Reads(events)[k] == before[k];
      PlayIsHonest(cfg, writes, events[..last], p);
      var w := Play(cfg, events[..last]).value;
      match events[last]
      case Read(c) =>
        if !Brings(events[last]) {
          assert before + [] == before;
          NothingComes(cfg, w, c);
        } else {
          DrawIsHonest(cfg, w, writes, before, c, p);
          if w.op.result.Success? {
            CollectedMore(before, c, w.received);
          }
        }
      case _ =>
        assert before + [] == before;
        ErrorsStay(cfg, w, events[last]);
    }
  }

  /** A read that brings no write adds no position. */
  lemma NothingComes(cfg: Config, w: World, c: Completion)
    requires Possible(w, Read(c)) && !Brings(Read(c))
    ensures Step(cfg, w, Read(c)).received == w.received
  {
    assert Span(c.at, 0) == {};
  }

  /** An upload step never clears an error. */
  lemma ErrorsStay(cfg: Config, w: World, e: Event)
    requires Possible(w, e) && !e.Read?
    ensures Step(cfg, w, e).received == w.received
    ensures Step(cfg, w, e).op.result.Success? ==> w.op.result.Success?
  {
    var room := RoomOf(w, e).value;
    var (s1, _) := Turn(w.op, cfg.srv, e.replies);
    CopyKeepsResult(s1, room);
  }

  lemma {:induction false} CopyKeepsResult(s: OpState, room: nat)
    ensures CopyOut(s, room).0.result == s.result
    decreases room
  {
    if room != 0 && Ready(s) && s.pending[0].used != 0 {
      CopyKeepsResult(CopyOne(s, room).0, room - Min(room, s.pending[0].used));
    }
  }

  lemma ShuffleIsGapless(cfg: Config, writes: seq<T.Write>, arrived: seq<Completion>, p: seq<nat>, received: set<nat>)
    requires R.Tiled(cfg.start, writes) && cfg.start <= |cfg.file| && R.Carried(writes) == cfg.file[cfg.start..]
    requires Shuffled(writes, arrived, p) && Collected(arrived, received)
    ensures Gapless(cfg, received, |cfg.file|)
  {
    forall k: nat
      ensures k in received <==> cfg.start <= k < |cfg.file|
    {
      if cfg.start <= k < |cfg.file| {
        var i := TilesCover(cfg.start, writes, k);
        assert i in p;
        var j :| 0 <= j < |p| && p[j] == i;
        assert Within(k, arrived[j].at, |arrived[j].data|);
      }
      if k in received {
        var j :| 0 <= j < |arrived| && Within(k, arrived[j].at, |arrived[j].data|);
        TileAt(cfg.start, writes, p[j]);
      }
    }
  }

  /**
   * A stream goes through the tiler in any chunks; its writes come back through the reorder buffer
   * in any order `p`, into upload buffers of any sizes, with any number of other reads that fail or
   * bring nothing but the end. When an upload call then succeeds without data, the bytes uploaded are the
   * stream.
   */
  lemma {:induction false} StreamComesBack(tiler: Server, inward: seq<R.Event>, cfg: Config, outward: seq<Event>,
                                           p: seq<nat>, e: Event)
    requires 0 < tiler.blockSize && R.Run(tiler, cfg.start, inward).Some? && cfg.Valid()
    requires var t := R.Run(tiler, cfg.start, inward).value;
      && t.phase.Closed? && t.ok
      && cfg.file[cfg.start..] == t.offered && |cfg.file| <= cfg.end
      && Play(cfg, outward).Some? && Marked(outward) && Shuffled(t.writes, Reads(outward), p)
    requires var w := Play(cfg, outward).value;
      && Possible(w, e) && RoomOf(w, e).Some? && 0 < RoomOf(w, e).value
      && Step(cfg, w, e).last == Returned(Success, [])
    ensures Step(cfg, Play(cfg, outward).value, e).sent == R.Run(tiler, cfg.start, inward).value.offered
  {
    var t := R.Run(tiler, cfg.start, inward).value;
    R.WritesTile(tiler, cfg.start, inward);
    R.ClosedMeansWritten(tiler, cfg.start, inward);
    var arrived := Reads(outward);
    PlayIsHonest(cfg, t.writes, outward, p);
    var w := Play(cfg, outward).value;
    EmptyReturn(cfg, outward, e);
    UploadedInOrder(cfg, outward);
    if w.op.offset != w.op.end {
      ErrorsStay(cfg, w, e);
      ShuffleIsGapless(cfg, t.writes, arrived, p, w.received);
      EndIsTruthful(cfg, outward, e, |cfg.file|);
    } else {
      RunKeeps(cfg, outward);
      assert w.op.offset == |cfg.file|;
    }
    assert cfg.file[cfg.start..|cfg.file|] == cfg.file[cfg.start..];
  }

  lemma {:induction false} ReadsOfCalls(events: seq<Event>, calls: seq<Event>)
    requires Roomy(calls)
    ensures Reads(events + calls) == Reads(events)
    decreases |calls|
  {
    if calls == [] {
      assert events + calls == events;
    } else {
      var n := |calls| - 1;
      assert (events + calls)[..|events| + n] == events + calls[..n];
      ReadsOfCalls(events, calls[..n]);
      assert Reads(events) + [] == Reads(events);
    }
  }

  /**
   * And that call is reached: once all the writes are back and all reads are over without an error,
   * more calls with room than the stream has bytes end the upload, with the stream uploaded.
   */
  lemma {:induction false} StreamIsDelivered(tiler: Server, inward: seq<R.Event>, cfg: Config, outward: seq<Event>,
                                             p: seq<nat>, calls: seq<Event>)
    requires 0 < tiler.blockSize && R.Run(tiler, cfg.start, inward).Some? && cfg.Valid()
    requires var t := R.Run(tiler, cfg.start, inward).value;
      && t.phase.Closed? && t.ok
      && cfg.file[cfg.start..] == t.offered && |cfg.file| <= cfg.end
      && Play(cfg, outward).Some? && Marked(outward) && Shuffled(t.writes, Reads(outward), p)
      && |t.offered| < |calls|
    requires var w := Play(cfg, outward).value;
      && w.op.result.Success? && w.op.eof && w.op.registered == []
      && (w.waiting.Some? ==> 0 < w.waiting.value)
    requires Roomy(calls) && Play(cfg, outward + calls).Some?
    ensures var w := Play(cfg, outward + calls).value;
      w.last == Returned(Success, []) && w.sent == R.Run(tiler, cfg.start, inward).value.offered
  {
    var t := R.Run(tiler, cfg.start, inward).value;
    R.WritesTile(tiler, cfg.start, inward);
    R.ClosedMeansWritten(tiler, cfg.start, inward);
    PlayIsHonest(cfg, t.writes, outward, p);
    ReadsOfCalls(outward, calls);
    PlayIsHonest(cfg, t.writes, outward + calls, p);
    ShuffleIsGapless(cfg, t.writes, Reads(outward), p, Play(cfg, outward).value.received);
    UploadedInOrder(cfg, outward);
    CallsReachTheEnd(cfg, outward, calls, |cfg.file|);
    assert cfg.file[cfg.start..|cfg.file|] == cfg.file[cfg.start..];
  }
}
