/** The state shared by the two GridFTP monitors, on values. */
module OpStates {
  import opened Bytes

  datatype Outcome = Success | Failure(code: nat)

  /** One transfer buffer: `address` is the pointer handed to the GridFTP server. */
  datatype Slot = Slot(address: nat, capacity: nat, used: nat, at: nat, data: bytes)

  datatype OpState = OpState(
    result: Outcome, offset: nat, end: nat, eof: bool, serverEof: bool,
    pending: seq<Slot>, current: Option<Slot>,
    registered: seq<Slot>, count: int, free: seq<Slot>, issued: nat)

  /** Takes the current buffer, else the first free one, else a new one. */
  function BufferGet(s: OpState, size: nat, blockSize: nat): (r: OpState)
    ensures r.current.Some?
  {
    if s.current.Some? then s
    else if s.free == [] then
      s.(current := Some(Slot(s.issued, Max(size, blockSize), 0, UINT64_MAX, [])),
         issued := s.issued + 1)
    else s.(current := Some(s.free[0]), free := s.free[1..])
  }

  predicate Named(slots: seq<Slot>, address: nat) {
    exists i :: 0 <= i < |slots| && slots[i].address == address
  }

  /** Position of the buffer with this address; the list's length when there is none. */
  function Find(slots: seq<Slot>, address: nat): (i: nat)
    ensures i <= |slots|
    ensures i < |slots| ==> slots[i].address == address
    ensures forall j :: 0 <= j < i ==> slots[j].address != address
  {
    if slots == [] || slots[0].address == address then 0 else 1 + Find(slots[1..], address)
  }

  function Without(slots: seq<Slot>, i: nat): seq<Slot>
    requires i < |slots|
  {
    slots[..i] + slots[i + 1..]
  }

  /** Puts a block after every pending block that ends at or before it. */
  function Insert(slots: seq<Slot>, b: Slot): seq<Slot> {
    if slots != [] && slots[0].at + slots[0].used <= b.at then [slots[0]] + Insert(slots[1..], b)
    else [b] + slots
  }

  lemma {:induction false} FindIs(slots: seq<Slot>, address: nat, i: nat)
    requires i <= |slots| && forall j :: 0 <= j < i ==> slots[j].address != address
    requires i < |slots| ==> slots[i].address == address
    ensures Find(slots, address) == i
  {
    if i > 0 {
      FindIs(slots[1..], address, i - 1);
    }
  }

  lemma {:induction false} InsertIs(slots: seq<Slot>, b: Slot, i: nat)
    requires i <= |slots| && forall j :: 0 <= j < i ==> slots[j].at + slots[j].used <= b.at
    requires i < |slots| ==> b.at < slots[i].at + slots[i].used
    ensures Insert(slots, b) == slots[..i] + [b] + slots[i..]
  {
    if i > 0 {
      InsertIs(slots[1..], b, i - 1);
    }
  }

  /** The first failure among outcomes in the order in which they came; success if there is none. */
  function FirstFailure(outcomes: seq<Outcome>): Outcome {
    if outcomes == [] then Success
    else if outcomes[0].Failure? then outcomes[0]
    else FirstFailure(outcomes[1..])
  }

  lemma {:induction false} OneMoreOutcome(outcomes: seq<Outcome>, o: Outcome)
    ensures FirstFailure(outcomes + [o])
      == if FirstFailure(outcomes).Failure? then FirstFailure(outcomes) else o
  {
    if outcomes == [] {
      assert [] + [o] == [o] && [o][1..] == [];
    } else {
      OneMoreOutcome(outcomes[1..], o);
      assert (outcomes + [o])[1..] == outcomes[1..] + [o];
    }
  }

  // ---- ownership: every allocated address is held by exactly one place ----

  function Times(slots: seq<Slot>, address: nat): nat {
    if slots == [] then 0
    else (if slots[0].address == address then 1 else 0) + Times(slots[1..], address)
  }

  /** How many places hold the buffer with this address. */
  function Held(s: OpState, address: nat): nat {
    Times(s.registered, address) + Times(s.pending, address) + Times(s.free, address)
    + (if s.current.Some? && s.current.value.address == address then 1 else 0)
  }

  /** Each buffer ever allocated is in exactly one of the lists or is the current buffer. */
  ghost predicate Conserved(s: OpState) {
    forall a: nat :: Held(s, a) == if a < s.issued then 1 else 0
  }

  lemma {:induction false} TimesAppend(xs: seq<Slot>, ys: seq<Slot>, a: nat)
    ensures Times(xs + ys, a) == Times(xs, a) + Times(ys, a)
  {
    if xs == [] {
      assert xs + ys == ys;
    } else {
      TimesAppend(xs[1..], ys, a);
      assert (xs + ys)[1..] == xs[1..] + ys;
    }
  }

  lemma {:induction false} TimesNone(slots: seq<Slot>, a: nat)
    requires forall i :: 0 <= i < |slots| ==> slots[i].address != a
    ensures Times(slots, a) == 0
  {
    if slots != [] {
      TimesNone(slots[1..], a);
    }
  }

  lemma TimesSplice(xs: seq<Slot>, x: Slot, ys: seq<Slot>, a: nat)
    ensures Times(xs + [x] + ys, a) == Times(xs + ys, a) + Times([x], a)
  {
    TimesAppend(xs + [x], ys, a);
    TimesAppend(xs, [x], a);
    TimesAppend(xs, ys, a);
  }

  lemma TimesWithout(slots: seq<Slot>, i: nat, a: nat)
    requires i < |slots|
    ensures Times(slots, a) == Times(Without(slots, i), a) + (if slots[i].address == a then 1 else 0)
  {
    assert slots == slots[..i] + [slots[i]] + slots[i + 1..];
    TimesSplice(slots[..i], slots[i], slots[i + 1..], a);
  }

  lemma ConservedSameLists(s: OpState, r: OpState)
    requires Conserved(s)
    requires r == s.(result := r.result, offset := r.offset, eof := r.eof, serverEof := r.serverEof, count := r.count)
    ensures Conserved(r)
  {
    forall a: nat
      ensures Held(r, a) == if a < r.issued then 1 else 0
    {
      assert Held(r, a) == Held(s, a);
    }
  }

  lemma BufferGetHolds(s: OpState, size: nat, blockSize: nat, a: nat)
    ensures var g := BufferGet(s, size, blockSize);
      Held(g, a) == Held(s, a) + if a == s.issued < g.issued then 1 else 0
  {
  }

  lemma BufferGetConserves(s: OpState, size: nat, blockSize: nat)
    requires Conserved(s)
    ensures Conserved(BufferGet(s, size, blockSize))
  {
    forall a: nat {
      BufferGetHolds(s, size, blockSize, a);
    }
  }
}
