/**
 * The read-write lock of a curl share, with the write holder recorded beside it. Each of the four
 * resources has a lock and an owner of its own; this is any one of them.
 */
module ShareLock {

  datatype Access = Shared | Single

  /** The lock and the owner beside it; 0 is no thread. */
  datatype Guard = Guard(owner: nat, readers: nat, writing: bool)

  /** Where a thread is between the separate actions of the lock and the unlock callback. */
  datatype Phase =
    | Idle
    | Acquired           // has the write lock, has yet to record itself
    | Held               // the lock callback has returned
    | IsOwner            // the unlock callback found itself recorded
    | NotOwner           // the unlock callback found another thread, or none
    | Unrecorded         // has cleared the record, has yet to release

  /** `access` is what the thread last asked for. */
  datatype Thread = Thread(phase: Phase, access: Access)

  datatype World = World(guard: Guard, threads: map<nat, Thread>)

  datatype Action = ReadLock | WriteLock | Record | Compare | Clear | WriteUnlock | ReadUnlock

  /**
   * When a thread can take an action: the lock lets it in, and otherwise its program is there. A
   * thread locks when it holds nothing, and unlocks what it holds.
   */
  predicate Enabled(w: World, t: nat, a: Action) {
    t in w.threads &&
    match a
    case ReadLock => w.threads[t].phase == Idle && !w.guard.writing
    case WriteLock => w.threads[t].phase == Idle && !w.guard.writing && w.guard.readers == 0
    case Record => w.threads[t].phase == Acquired
    case Compare => w.threads[t].phase == Held
    case Clear => w.threads[t].phase == IsOwner
    case WriteUnlock => w.threads[t].phase == Unrecorded
    case ReadUnlock => w.threads[t].phase == NotOwner
  }

  /** What the action does to the lock and the owner. Unlocking does what it does, held or not. */
  function Effect(g: Guard, t: nat, a: Action): Guard {
    match a
    case ReadLock => g.(readers := g.readers + 1)
    case WriteLock => g.(writing := true)
    case Record => g.(owner := t)
    case Compare => g
    case Clear => g.(owner := 0)
    case WriteUnlock => g.(writing := false)
    case ReadUnlock => if g.readers > 0 then g.(readers := g.readers - 1) else g
  }

  /** Where the thread then is; which way it unlocks is decided by the owner alone. */
  function Moved(g: Guard, t: nat, a: Action, s: Thread): Thread {
    match a
    case ReadLock => Thread(Held, Shared)
    case WriteLock => Thread(Acquired, Single)
    case Record => s.(phase := Held)
    case Compare => s.(phase := if g.owner == t then IsOwner else NotOwner)
    case Clear => s.(phase := Unrecorded)
    case WriteUnlock => s.(phase := Idle)
    case ReadUnlock => s.(phase := Idle)
  }

  function Step(w: World, t: nat, a: Action): World
    requires Enabled(w, t, a)
  {
    World(Effect(w.guard, t, a), w.threads[t := Moved(w.guard, t, a, w.threads[t])])
  }

  datatype Move = Move(thread: nat, action: Action)

  /** Every interleaving: each move is one the thread can make then. */
  predicate Possible(w: World, moves: seq<Move>)
    decreases |moves|, 0
  {
    moves == [] || (
      && Possible(w, moves[..|moves| - 1])
      && Enabled(Run(w, moves[..|moves| - 1]), moves[|moves| - 1].thread, moves[|moves| - 1].action))
  }

  function Run(w: World, moves: seq<Move>): World
    requires Possible(w, moves)
    decreases |moves|, 1
  {
    if moves == [] then w
    else Step(Run(w, moves[..|moves| - 1]), moves[|moves| - 1].thread, moves[|moves| - 1].action)
  }

  predicate Initial(w: World) {
    w.guard == Guard(0, 0, false) && 0 !in w.threads && forall t :: t in w.threads ==> w.threads[t].phase == Idle
  }

  // ---- what every interleaving keeps ----

  predicate Reads(s: Thread) { s.phase != Idle && s.access == Shared }

  predicate Writes(s: Thread) { s.phase != Idle && s.access == Single }

  function Readers(w: World): set<nat> {
    set t | t in w.threads && Reads(w.threads[t])
  }

  /** The phases of unlocking go with what was locked. */
  predicate InMode(s: Thread) {
    && (s.phase == NotOwner ==> s.access == Shared)
    && (s.phase == Acquired || s.phase == IsOwner || s.phase == Unrecorded ==> s.access == Single)
  }

  /** The thread has recorded itself and not cleared the record. */
  predicate Recorded(s: Thread) { Writes(s) && (s.phase == Held || s.phase == IsOwner) }

  /** One writer at most, and the lock knows of it. */
  predicate OneWriter(w: World) {
    && (w.guard.writing <==> exists t :: t in w.threads && Writes(w.threads[t]))
    && forall t, u :: t in w.threads && u in w.threads && Writes(w.threads[t]) && Writes(w.threads[u]) ==> t == u
  }

  /** The lock counts the readers, and there are none beside a writer. */
  predicate CountsReaders(w: World) {
    w.guard.readers == |Readers(w)| && (w.guard.writing ==> Readers(w) == {})
  }

  predicate OwnerIsWriter(w: World) {
    && (w.guard.owner != 0 ==> w.guard.owner in w.threads && Recorded(w.threads[w.guard.owner]))
    && forall t :: t in w.threads && Recorded(w.threads[t]) ==> w.guard.owner == t
  }

  predicate Inv(w: World) {
    && 0 !in w.threads && OneWriter(w) && CountsReaders(w) && OwnerIsWriter(w)
    && forall t :: t in w.threads ==> InMode(w.threads[t])
  }

  lemma ReadersAfter(w: World, t: nat, a: Action)
    requires Enabled(w, t, a)
    ensures var s := Moved(w.guard, t, a, w.threads[t]);
      Readers(Step(w, t, a)) == if Reads(s) then Readers(w) + {t} else Readers(w) - {t}
  {
  }

  lemma StepCountsReaders(w: World, t: nat, a: Action)
    requires Inv(w) && Enabled(w, t, a)
    ensures CountsReaders(Step(w, t, a))
  {
    ReadersAfter(w, t, a);
    assert InMode(w.threads[t]);
    assert t in Readers(w) <==> Reads(w.threads[t]);
  }

  lemma StepKeepsOneWriter(w: World, t: nat, a: Action)
    requires Inv(w) && Enabled(w, t, a)
    ensures OneWriter(Step(w, t, a))
  {
    var v := Step(w, t, a);
    assert InMode(w.threads[t]);
    if Writes(v.threads[t]) {
      assert t in v.threads;
    } else if !Writes(w.threads[t]) {
      assert forall u :: u in w.threads ==> (Writes(v.threads[u]) <==> Writes(w.threads[u]));
    }
  }

  lemma StepKeeps(w: World, t: nat, a: Action)
    requires Inv(w) && Enabled(w, t, a)
    ensures Inv(Step(w, t, a))
  {
    StepCountsReaders(w, t, a);
    StepKeepsOneWriter(w, t, a);
    assert InMode(w.threads[t]);
  }

  lemma {:induction false} RunKeeps(w: World, moves: seq<Move>)
    requires Initial(w) && Possible(w, moves)
    ensures Inv(Run(w, moves))
    decreases |moves|
  {
    if moves == [] {
      assert Readers(w) == {};
    } else {
      RunKeeps(w, moves[..|moves| - 1]);
      StepKeeps(Run(w, moves[..|moves| - 1]), moves[|moves| - 1].thread, moves[|moves| - 1].action);
    }
  }

  /** In every interleaving a release is of the mode the thread asked for and has. */
  lemma ReleasesWhatItHas(w: World, moves: seq<Move>, t: nat, a: Action)
    requires Initial(w) && Possible(w, moves) && Enabled(Run(w, moves), t, a)
    ensures var v := Run(w, moves);
      && (a == ReadUnlock ==> v.threads[t].access == Shared && v.guard.readers > 0 && !v.guard.writing)
      && (a == WriteUnlock ==> v.threads[t].access == Single && v.guard.writing && v.guard.readers == 0)
  {
    var v := Run(w, moves);
    RunKeeps(w, moves);
    assert InMode(v.threads[t]);
    if a == ReadUnlock {
      assert t in Readers(v);
    }
  }

  /** A recorded owner is the one write holder, and a reader that compares finds no owner at all. */
  lemma OwnerHoldsTheLock(w: World, moves: seq<Move>)
    requires Initial(w) && Possible(w, moves)
    ensures var v := Run(w, moves);
      && (v.guard.owner != 0 ==>
        && v.guard.writing && v.guard.owner in v.threads && Writes(v.threads[v.guard.owner])
        && forall t :: t in v.threads && t != v.guard.owner ==> v.threads[t].phase == Idle)
      && (v.guard.readers > 0 ==> v.guard.owner == 0)
  {
    var v := Run(w, moves);
    RunKeeps(w, moves);
    assert forall t :: t in v.threads && Reads(v.threads[t]) ==> t in Readers(v);
  }

  /** Nobody writes while another thread reads or writes. */
  lemma MutualExclusion(w: World, moves: seq<Move>, t: nat, u: nat)
    requires Initial(w) && Possible(w, moves)
    requires t in Run(w, moves).threads && u in Run(w, moves).threads && t != u
    ensures Writes(Run(w, moves).threads[t]) ==> Run(w, moves).threads[u].phase == Idle
  {
    var v := Run(w, moves);
    RunKeeps(w, moves);
    assert Reads(v.threads[u]) ==> u in Readers(v);
  }

  // ---- the callbacks as the source writes them ----

  class ShareGuard {
    var owner: nat
    var readers: nat
    var writing: bool

    function State(): Guard
      reads this
    {
      Guard(owner, readers, writing)
    }

    constructor ()
      ensures State() == Guard(0, 0, false)
    {
      owner, readers, writing := 0, 0, false;
    }

    /** The lock callback once the lock lets the thread in: two actions for writing, one for reading. */
    method Lock(access: Access, self: nat)
      requires !writing && (access == Single ==> readers == 0)
      modifies this
      ensures access == Shared ==> State() == Effect(old(State()), self, ReadLock)
      ensures access == Single ==> State() == Effect(Effect(old(State()), self, WriteLock), self, Record)
    {
      if access == Shared {
        readers := readers + 1;
      } else {
        writing := true;
        owner := self;
      }
    }

    /** The unlock callback: the owner decides, and is cleared before the lock is released. */
    method Unlock(self: nat)
      requires if owner == self then writing else 0 < readers
      modifies this
      ensures old(owner) == self ==> State() == Effect(Effect(old(State()), self, Clear), self, WriteUnlock)
      ensures old(owner) != self ==> State() == Effect(old(State()), self, ReadUnlock)
    {
      if owner == self {
        owner := 0;
        writing := false;
      } else {
        readers := readers - 1;
      }
    }
  }

  datatype Data = ShareData | CookieData | DnsData | SslData

  class CurlShare {
    const share: ShareGuard
    const cookie: ShareGuard
    const dns: ShareGuard
    const ssl: ShareGuard

    predicate Valid() {
      share !in {cookie, dns, ssl} && cookie !in {dns, ssl} && dns != ssl
    }

    constructor ()
      ensures Valid() && forall d :: fresh(Of(d)) && Of(d).State() == Guard(0, 0, false)
    {
      share := new ShareGuard();
      cookie := new ShareGuard();
      dns := new ShareGuard();
      ssl := new ShareGuard();
    }

    function Of(data: Data): ShareGuard {
      match data
      case ShareData => share
      case CookieData => cookie
      case DnsData => dns
      case SslData => ssl
    }

    method ShareLock(data: Data, access: Access, self: nat)
      requires Valid() && !Of(data).writing && (access == Single ==> Of(data).readers == 0)
      modifies Of(data)
      ensures forall d :: d != data ==> Of(d).State() == old(Of(d).State())
      ensures access == Shared ==> Of(data).State() == Effect(old(Of(data).State()), self, ReadLock)
      ensures access == Single ==>
        Of(data).State() == Effect(Effect(old(Of(data).State()), self, WriteLock), self, Record)
    {
      var guard := Of(data);
      guard.Lock(access, self);
    }

    method ShareUnlock(data: Data, self: nat)
      requires Valid() && if Of(data).owner == self then Of(data).writing else 0 < Of(data).readers
      modifies Of(data)
      ensures forall d :: d != data ==> Of(d).State() == old(Of(d).State())
      ensures old(Of(data).owner) == self ==>
                Of(data).State() == Effect(Effect(old(Of(data).State()), self, Clear), self, WriteUnlock)
      ensures old(Of(data).owner) != self ==> Of(data).State() == Effect(old(Of(data).State()), self, ReadUnlock)
    {
      var guard := Of(data);
      guard.Unlock(self);
    }
  }
}
