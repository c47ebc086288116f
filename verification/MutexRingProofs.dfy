/** Mutual exclusion, order, progress and termination of the hand-over-hand mutex ring. */
module MutexRingProofs {
  import opened Arithmetic
  import opened MutexRing

  // ---------------------------------------------------------------- the invariant

  ghost predicate ThreadOk(s: State, t: nat)
    requires Shaped(s) && t < |s.pcs|
  {
    var pc := s.pcs[t];
    && (pc.NotCreated? <==> s.main.Creating? && s.main.k <= t)
    && (pc.HasStart? || pc.Looping? || pc.Both? || pc.Done? ==> Released(s.main, t))
    && (s.main.Joining? && t < s.main.k ==> pc.Done?)
    && (s.main.Finished? ==> pc.Done?)
    && s.start[t] == (if pc.HasStart? then t else if pc.NotCreated? || Released(s.main, t) then FREE else |s.pcs|)
    && (pc.Looping? ==> pc.j <= s.rounds && pc.i == (t + pc.j) % |s.ring|)
    && (pc.Both? ==> pc.j < s.rounds && pc.i == (t + pc.j) % |s.ring|)
  }

  ghost predicate ThreadsOk(s: State)
    requires Shaped(s)
  {
    forall t: nat | t < |s.pcs| :: ThreadOk(s, t)
  }

  /** Threads keep their order round the ring, and what they hold does not overlap. */
  ghost predicate Ordered(s: State) {
    forall t: nat, u: nat | t < u < |s.pcs| ::
      Pos(s, t) + Width(s, t) <= Pos(s, u) && Pos(s, u) + Width(s, u) <= Pos(s, t) + |s.ring|
  }

  /** Mutex m is the one thread t stands on, or the one it has just taken. */
  ghost predicate Holds(s: State, t: nat, m: int)
    requires Shaped(s) && t < |s.pcs|
  {
    || (Width(s, t) >= 1 && m == Pos(s, t) % |s.ring|)
    || (Width(s, t) == 2 && m == (Pos(s, t) + 1) % |s.ring|)
  }

  /** A mutex is owned by the thread that holds it, and is free if none does. */
  ghost predicate RingOk(s: State)
    requires Shaped(s)
  {
    && (forall t: nat, m: nat | t < |s.pcs| && m < |s.ring| :: Holds(s, t, m) ==> s.ring[m] == t)
    && (forall m: nat | m < |s.ring| :: s.ring[m] == FREE || (0 <= s.ring[m] < |s.pcs| && Holds(s, s.ring[m], m)))
  }

  ghost predicate ReadyOk(s: State) {
    && (s.ready == FREE || 0 <= s.ready <= |s.pcs|)
    && (forall t: nat | t < |s.pcs| :: s.ready == t <==> s.pcs[t].InReady? || s.pcs[t].LeaveReady?)
    && (s.ready == |s.pcs| <==> s.main.CheckCount?)
    && s.count == CountOf(s.pcs)
    && (s.main.Waiting? ==> s.count < |s.pcs|)
    && (AllCounted(s.main) ==> s.count == |s.pcs|)
  }

  ghost predicate Inv(s: State) {
    Shaped(s) && ThreadsOk(s) && Ordered(s) && RingOk(s) && ReadyOk(s)
  }

  // ---------------------------------------------------------------- counting and remainders

  lemma {:induction false} CountUpdate(pcs: seq<ThreadPc>, t: nat, pc: ThreadPc)
    requires t < |pcs|
    ensures CountOf(pcs[t := pc]) ==
            CountOf(pcs) + (if Counted(pc) then 1 else 0) - (if Counted(pcs[t]) then 1 else 0)
  {
    if t == 0 {
      assert pcs[t := pc][1..] == pcs[1..];
    } else {
      assert pcs[t := pc][1..] == pcs[1..][t - 1 := pc];
      CountUpdate(pcs[1..], t - 1, pc);
    }
  }

  lemma {:induction false} CountBound(pcs: seq<ThreadPc>)
    ensures CountOf(pcs) <= |pcs|
    ensures CountOf(pcs) == |pcs| ==> forall t | 0 <= t < |pcs| :: Counted(pcs[t])
  {
    if pcs != [] {
      CountBound(pcs[1..]);
      if CountOf(pcs) == |pcs| {
        forall t | 0 <= t < |pcs| ensures Counted(pcs[t]) {
          if t > 0 { assert pcs[t] == pcs[1..][t - 1]; }
        }
      }
    }
  }

  lemma ModLap(a: nat, m: nat)
    requires m > 0
    ensures (a + m) % m == a % m
  {
    var q, r := (a + m) / m, (a + m) % m;
    var q', r' := a / m, a % m;
    assert m * (q - q' - 1) == m * q - m * q' - m;
    assert r' - r == m * (q - q' - 1);
    SmallMultiple(m, q - q' - 1);
  }

  lemma ModStep(a: nat, m: nat)
    requires m > 1
    ensures (a % m + 1) % m == (a + 1) % m && (a + 1) % m != a % m
  {
    var r, r1 := a % m, (a + 1) % m;
    var k := (a + 1) / m - a / m;
    assert m * k == m * ((a + 1) / m) - m * (a / m);
    assert r + 1 == r1 + m * k;
    if r + 1 < m {
      SmallMultiple(m, k);
    } else {
      ModSelf(m);
      assert m * (k - 1) == m * k - m;
      SmallMultiple(m, k - 1);
    }
  }

  lemma ModSelf(m: nat)
    requires m > 0
    ensures m % m == 0
  {
    ModLap(0, m);
  }

  // ---------------------------------------------------------------- frames

  /** s2 differs from s, as far as the ring is concerned, only in the program counter of thread t. */
  ghost predicate OnlyThread(s: State, s2: State, t: nat) {
    && Shaped(s) && Shaped(s2) && t < |s.pcs| == |s2.pcs| && s2.rounds == s.rounds
    && forall u: nat | u < |s.pcs| && u != t :: s2.pcs[u] == s.pcs[u]
  }

  lemma OrderFrame(s: State, s2: State, t: nat)
    requires OnlyThread(s, s2, t) && Ordered(s) && Pos(s, t) <= Pos(s2, t)
    requires Pos(s2, t) + Width(s2, t) <= Pos(s, t) + Width(s, t) || RoomAhead(s, t, Pos(s2, t) + Width(s2, t))
    ensures Ordered(s2)
  {
    forall a: nat, b: nat | a < b < |s.pcs|
      ensures Pos(s2, a) + Width(s2, a) <= Pos(s2, b) && Pos(s2, b) + Width(s2, b) <= Pos(s2, a) + |s2.ring|
    {
      assert Pos(s, a) + Width(s, a) <= Pos(s, b) && Pos(s, b) + Width(s, b) <= Pos(s, a) + |s.ring|;
      assert a != t ==> Pos(s2, a) == Pos(s, a) && Width(s2, a) == Width(s, a);
      assert b != t ==> Pos(s2, b) == Pos(s, b) && Width(s2, b) == Width(s, b);
    }
  }

  /** No other thread is in the way of thread t extending up to position p. */
  ghost predicate RoomAhead(s: State, t: nat, p: nat)
    requires t < |s.pcs|
  {
    && (forall u: nat | t < u < |s.pcs| :: p <= Pos(s, u))
    && (forall u: nat | u < t :: p <= Pos(s, u) + |s.ring|)
  }

  lemma HoldsFrame(s: State, s2: State, t: nat, u: nat, m: int)
    requires OnlyThread(s, s2, t) && u < |s.pcs| && u != t
    ensures Holds(s2, u, m) <==> Holds(s, u, m)
  {
  }

  lemma RingSame(s: State, s2: State, t: nat)
    requires OnlyThread(s, s2, t) && RingOk(s) && s2.ring == s.ring
    requires forall m: nat | m < |s.ring| :: Holds(s2, t, m) <==> Holds(s, t, m)
    ensures RingOk(s2)
  {
    hide Holds;
    forall u: nat, m: nat | u < |s.pcs| && m < |s.ring| ensures Holds(s2, u, m) <==> Holds(s, u, m) {
      if u != t { HoldsFrame(s, s2, t, u, m); }
    }
  }

  lemma RingLock(s: State, s2: State, t: nat, x: nat)
    requires OnlyThread(s, s2, t) && RingOk(s) && x < |s.ring| && s.ring[x] == FREE && s2.ring == s.ring[x := t]
    requires forall m: nat | m < |s.ring| :: Holds(s2, t, m) <==> Holds(s, t, m) || m == x
    ensures RingOk(s2)
  {
    hide Holds;
    forall u: nat, m: nat | u < |s.pcs| && m < |s.ring| && u != t ensures Holds(s2, u, m) <==> Holds(s, u, m) {
      HoldsFrame(s, s2, t, u, m);
    }
  }

  lemma RingUnlock(s: State, s2: State, t: nat, x: nat)
    requires OnlyThread(s, s2, t) && RingOk(s) && x < |s.ring| && Holds(s, t, x) && s2.ring == s.ring[x := FREE]
    requires forall m: nat | m < |s.ring| :: Holds(s2, t, m) <==> Holds(s, t, m) && m != x
    ensures RingOk(s2)
  {
    hide Holds;
    forall u: nat, m: nat | u < |s.pcs| && m < |s.ring| && u != t ensures Holds(s2, u, m) <==> Holds(s, u, m) {
      HoldsFrame(s, s2, t, u, m);
    }
  }

  /** Once a thread is past its start mutex, every thread holds or has given up its place in the ring. */
  lemma StartedMeansAll(s: State, t: nat)
    requires Inv(s) && t < |s.pcs| && Released(s.main, t)
    ensures s.count == |s.pcs| && forall u: nat | u < |s.pcs| :: Counted(s.pcs[u])
  {
    hide Ordered, RingOk;
    CountBound(s.pcs);
  }

  /** While some thread is not counted, no thread has left its place. */
  lemma NobodyMoved(s: State, t: nat)
    requires Inv(s) && t < |s.pcs| && !Counted(s.pcs[t])
    ensures forall u: nat | u < |s.pcs| :: Pos(s, u) == u && !Released(s.main, u) && Width(s, u) <= 1
  {
    hide Ordered, RingOk;
    forall u: nat | u < |s.pcs| ensures !Released(s.main, u) {
      if Released(s.main, u) { StartedMeansAll(s, u); }
    }
    forall u: nat | u < |s.pcs| ensures Pos(s, u) == u && Width(s, u) <= 1 {
      assert ThreadOk(s, u);
    }
  }

  lemma ThreadsFrame(s: State, s2: State, t: nat)
    requires OnlyThread(s, s2, t) && ThreadsOk(s) && ThreadOk(s2, t)
    requires s2.main == s.main || (s.main.Waiting? && s2.main.Woken?)
    requires forall u: nat | u < |s.pcs| && u != t :: s2.start[u] == s.start[u]
    ensures ThreadsOk(s2)
  {
    forall u: nat | u < |s2.pcs| ensures ThreadOk(s2, u) {
      if u != t { assert ThreadOk(s, u); }
    }
  }

  // ---------------------------------------------------------------- thread steps

  lemma ModSmall(a: nat, m: nat)
    requires a < m
    ensures a % m == a
  {
  }

  lemma FirstLockKeeps(s: State, t: nat)
    requires Inv(s) && t < |s.pcs| && s.pcs[t].WantFirst? && ThreadEnabled(s, t)
    ensures Inv(ThreadStep(s, t))
  {
    hide Ordered, RingOk;
    var s2 := ThreadStep(s, t);
    NobodyMoved(s, t);
    ModSmall(t, |s.ring|);
    OrderFrame(s, s2, t);
    RingLock(s, s2, t, t);
    CountUpdate(s.pcs, t, WantReady);
    assert ThreadOk(s, t);
    ThreadsFrame(s, s2, t);
  }

  /** The steps of the handshake: nothing changes in the ring. */
  lemma HandshakeKeeps(s: State, t: nat)
    requires Inv(s) && t < |s.pcs| && ThreadEnabled(s, t)
    requires s.pcs[t].WantReady? || s.pcs[t].InReady? || s.pcs[t].LeaveReady? || s.pcs[t].WantStart?
      || s.pcs[t].HasStart?
    ensures Inv(ThreadStep(s, t))
  {
    hide Ordered, RingOk, CountOf;
    var s2 := ThreadStep(s, t);
    ModSmall(t, |s.ring|);
    assert ThreadOk(s, t);
    OrderFrame(s, s2, t);
    RingSame(s, s2, t);
    CountUpdate(s.pcs, t, s2.pcs[t]);
    CountBound(s2.pcs);
    ThreadsFrame(s, s2, t);
  }

  /** Taking the next mutex: whoever could be in the way holds it, so it would not be free. */
  lemma LockNextRoom(s: State, t: nat)
    requires Inv(s) && t < |s.pcs| && s.pcs[t].Looping? && s.pcs[t].j < s.rounds
    requires s.ring[(Pos(s, t) + 1) % |s.ring|] == FREE
    ensures RoomAhead(s, t, Pos(s, t) + 2)
  {
    hide RingOk;
    assert ThreadOk(s, t);
    StartedMeansAll(s, t);
    var p := Pos(s, t) + 1;
    forall u: nat | u < |s.pcs| && u != t ensures if t < u then p < Pos(s, u) else p < Pos(s, u) + |s.ring| {
      assert Counted(s.pcs[u]);
      ModLap(Pos(s, u), |s.ring|);
      LockNextFree(s, t, u);
    }
  }

  lemma LockNextFree(s: State, t: nat, u: nat)
    requires Inv(s) && t < |s.pcs| && u < |s.pcs| && u != t && s.pcs[t].Looping? && s.pcs[t].j < s.rounds
    requires s.ring[(Pos(s, t) + 1) % |s.ring|] == FREE && Counted(s.pcs[u])
    ensures t < u ==> Pos(s, u) != Pos(s, t) + 1
    ensures u < t ==> Pos(s, u) + |s.ring| != Pos(s, t) + 1
  {
    hide ThreadsOk, Ordered, ReadyOk;
    ModLap(Pos(s, u), |s.ring|);
    assert Width(s, u) >= 1 ==> Holds(s, u, Pos(s, u) % |s.ring|);
  }

  lemma LockNextKeeps(s: State, t: nat)
    requires Inv(s) && t < |s.pcs| && s.pcs[t].Looping? && s.pcs[t].j < s.rounds && ThreadEnabled(s, t)
    ensures Inv(ThreadStep(s, t))
  {
    hide Ordered, RingOk, CountOf;
    var s2 := ThreadStep(s, t);
    assert ThreadOk(s, t);
    ModStep(Pos(s, t), |s.ring|);
    LockNextRoom(s, t);
    OrderFrame(s, s2, t);
    RingLock(s, s2, t, NextMutex(s, s.pcs[t].i));
    CountUpdate(s.pcs, t, s2.pcs[t]);
    ThreadsFrame(s, s2, t);
  }

  lemma UnlockKeeps(s: State, t: nat)
    requires Inv(s) && t < |s.pcs| && (s.pcs[t].Both? || (s.pcs[t].Looping? && s.pcs[t].j >= s.rounds))
    ensures Inv(ThreadStep(s, t)) && s.ring[s.pcs[t].i] == t
  {
    hide Ordered, RingOk, CountOf;
    var s2 := ThreadStep(s, t);
    assert ThreadOk(s, t);
    ModStep(Pos(s, t), |s.ring|);
    OrderFrame(s, s2, t);
    OwnerOf(s, t);
    RingUnlock(s, s2, t, s.pcs[t].i);
    CountUpdate(s.pcs, t, s2.pcs[t]);
    ThreadsFrame(s, s2, t);
  }

  lemma OwnerOf(s: State, t: nat)
    requires Shaped(s) && RingOk(s) && t < |s.pcs| && Width(s, t) >= 1
    ensures Holds(s, t, Pos(s, t) % |s.ring|) && s.ring[Pos(s, t) % |s.ring|] == t
  {
    var m: nat := Pos(s, t) % |s.ring|;
    assert Holds(s, t, m);
  }

  lemma ThreadStepKeeps(s: State, t: nat)
    requires Inv(s) && t < |s.pcs| && ThreadEnabled(s, t)
    ensures Inv(ThreadStep(s, t))
  {
    hide ThreadsOk, Ordered, RingOk, ReadyOk;
    match s.pcs[t]
    case WantFirst => FirstLockKeeps(s, t);
    case Looping(j, i) => if j < s.rounds { LockNextKeeps(s, t); } else { UnlockKeeps(s, t); }
    case Both(j, i) => UnlockKeeps(s, t);
    case _ => HandshakeKeeps(s, t);
  }

  // ---------------------------------------------------------------- steps of the main thread

  /** Positions and holdings depend on the threads' program counters only. */
  lemma MainFrame(s: State, s2: State)
    requires Shaped(s) && Shaped(s2) && Ordered(s) && RingOk(s) && s2.ring == s.ring && s2.rounds == s.rounds
    requires |s2.pcs| == |s.pcs|
    requires forall t: nat | t < |s.pcs| :: s2.pcs[t] == s.pcs[t] || (s.pcs[t].NotCreated? && s2.pcs[t].WantFirst?)
    ensures Ordered(s2) && RingOk(s2)
  {
    forall t: nat | t < |s.pcs| ensures Pos(s2, t) == Pos(s, t) && Width(s2, t) == Width(s, t) {}
    forall t: nat, m: int | t < |s.pcs| ensures Holds(s2, t, m) <==> Holds(s, t, m) {}
    hide Pos, Width, Holds;
  }

  lemma CreateKeeps(s: State)
    requires Inv(s) && s.main.Creating? && s.main.k < |s.pcs| && MainEnabled(s)
    ensures Inv(MainStep(s))
  {
    hide Ordered, RingOk, CountOf;
    var s2, k := MainStep(s), s.main.k;
    assert ThreadOk(s, k);
    MainFrame(s, s2);
    CountUpdate(s.pcs, k, WantFirst);
    forall t: nat | t < |s.pcs| ensures ThreadOk(s2, t) { assert ThreadOk(s, t); }
  }

  lemma MainStepKeeps(s: State)
    requires Inv(s) && MainEnabled(s)
    ensures Inv(MainStep(s))
  {
    hide Ordered, RingOk, CountOf;
    if s.main.Creating? && s.main.k < |s.pcs| {
      CreateKeeps(s);
    } else {
      var s2 := MainStep(s);
      MainFrame(s, s2);
      CountBound(s.pcs);
      forall t: nat | t < |s.pcs| ensures ThreadOk(s2, t) { assert ThreadOk(s, t); }
    }
  }

  lemma InitialInv(n: nat, reps: int)
    requires n > 0
    ensures Inv(Initial(n, reps))
  {
    var s := Initial(n, reps);
    CountNone(s.pcs);
  }

  lemma {:induction false} CountNone(pcs: seq<ThreadPc>)
    requires forall t | 0 <= t < |pcs| :: !Counted(pcs[t])
    ensures CountOf(pcs) == 0
  {
    if pcs != [] { CountNone(pcs[1..]); }
  }

  // ---------------------------------------------------------------- progress

  /** A looping thread with hops to go is blocked only by the next thread, standing right in front of it. */
  lemma BlockedBy(s: State, t: nat)
    requires Inv(s) && t < |s.pcs| && s.pcs[t].Looping? && s.pcs[t].j < s.rounds && !ThreadEnabled(s, t)
    requires forall u: nat | u < |s.pcs| :: s.pcs[u].Looping? || s.pcs[u].Done?
    ensures t + 1 < |s.pcs| ==> s.pcs[t + 1].Looping? && s.pcs[t + 1].j == s.pcs[t].j
    ensures t + 1 == |s.pcs| ==> s.pcs[0].Looping? && s.pcs[0].j + 1 == s.pcs[t].j
  {
    hide ReadyOk;
    var m, p := |s.ring|, Pos(s, t) + 1;
    assert ThreadOk(s, t);
    ModStep(Pos(s, t), m);
    var x := p % m;
    assert s.ring[x] != FREE;
    var u: nat := s.ring[x];
    assert Holds(s, u, x);
    assert s.pcs[u].Looping? && Pos(s, u) % m == p % m;
    BlockerPlace(s, t, u);
  }

  lemma BlockerPlace(s: State, t: nat, u: nat)
    requires Inv(s) && t < |s.pcs| && u < |s.pcs| && s.pcs[t].Looping? && s.pcs[u].Looping?
    requires forall v: nat | v < |s.pcs| :: s.pcs[v].Looping? || s.pcs[v].Done?
    requires s.pcs[t].j < s.rounds && Pos(s, u) % |s.ring| == (Pos(s, t) + 1) % |s.ring|
    ensures t + 1 < |s.pcs| ==> s.pcs[t + 1].Looping? && s.pcs[t + 1].j == s.pcs[t].j
    ensures t + 1 == |s.pcs| ==> s.pcs[0].Looping? && s.pcs[0].j + 1 == s.pcs[t].j
  {
    hide ReadyOk, RingOk, ThreadsOk;
    var m, p, n := |s.ring|, Pos(s, t) + 1, |s.pcs|;
    if u == t {
      ModStep(Pos(s, t), m);
    } else if t < u {
      // within one lap ahead of t: u stands exactly at p, so it is the next thread
      assert p <= Pos(s, u) < p + m;
      ModUnique(p, Pos(s, u), m);
      NextPlace(s, t, u);
    } else {
      ModLap(Pos(s, u), m);
      assert p <= Pos(s, u) + m;
      assert Pos(s, u) + m < p + m;
      ModUnique(p, Pos(s, u) + m, m);
      WrapPlace(s, t, u);
    }
  }

  /** Only the next thread can stand right in front of thread t. */
  lemma NextPlace(s: State, t: nat, u: nat)
    requires Inv(s) && t < u < |s.pcs| && s.pcs[t].Looping? && s.pcs[u].Looping?
    requires forall v: nat | v < |s.pcs| :: s.pcs[v].Looping? || s.pcs[v].Done?
    requires s.pcs[t].j < s.rounds && Pos(s, u) == Pos(s, t) + 1
    ensures u == t + 1 && s.pcs[u].j == s.pcs[t].j
  {
    hide ReadyOk, RingOk;
    assert ThreadOk(s, t) && ThreadOk(s, u) && ThreadOk(s, t + 1);
    assert Pos(s, t) + Width(s, t) <= Pos(s, t + 1);
  }

  /** Only the last thread can stand right behind thread 0. */
  lemma WrapPlace(s: State, t: nat, u: nat)
    requires Inv(s) && u < t < |s.pcs| && s.pcs[t].Looping? && s.pcs[u].Looping? && s.pcs[t].j < s.rounds
    requires forall v: nat | v < |s.pcs| :: s.pcs[v].Looping? || s.pcs[v].Done?
    requires Pos(s, u) + |s.ring| == Pos(s, t) + 1
    ensures t + 1 == |s.pcs| && u == 0 && s.pcs[0].j + 1 == s.pcs[t].j
  {
    hide ReadyOk, RingOk;
    var last := |s.pcs| - 1;
    assert ThreadOk(s, u) && ThreadOk(s, t) && ThreadOk(s, 0) && ThreadOk(s, last);
    assert Pos(s, last) + Width(s, last) <= Pos(s, u) + |s.ring| && Pos(s, t) + Width(s, t) <= Pos(s, 0) + |s.ring|;
  }

  /** Among looping threads, one that is not finished can always take its next step. */
  lemma {:induction false} SomeLooperMoves(s: State, t: nat) returns (who: nat)
    requires Inv(s) && t < |s.pcs|
    requires forall u: nat | u < |s.pcs| :: s.pcs[u].Looping? || s.pcs[u].Done?
    requires s.pcs[t].Looping?
    requires forall u: nat | u < t :: s.pcs[u].Done? || (s.pcs[u].Looping? && s.pcs[u].j == s.pcs[t].j)
    ensures who < |s.pcs| && ThreadEnabled(s, who)
    decreases |s.pcs| - t
  {
    hide ThreadsOk, Ordered, RingOk, ReadyOk;
    if ThreadEnabled(s, t) {
      who := t;
    } else {
      BlockedBy(s, t);
      who := SomeLooperMoves(s, t + 1);
    }
  }

  /** After the handshake some thread can move until all are done. */
  lemma SomeThreadMoves(s: State) returns (who: nat)
    requires Inv(s) && (s.main.Joining? || s.main.Finished?) && exists t: nat | t < |s.pcs| :: !s.pcs[t].Done?
    ensures who < |s.pcs| && ThreadEnabled(s, who)
  {
    hide Ordered, RingOk;
    StartedMeansAll(s, 0);
    if u: nat :| u < |s.pcs| && !s.pcs[u].Looping? && !s.pcs[u].Done? {
      assert ThreadOk(s, u);
      who := u;
    } else {
      var t: nat :| t < |s.pcs| && !s.pcs[t].Done?;
      var first := FirstLooper(s.pcs, t);
      who := SomeLooperMoves(s, first);
    }
  }

  lemma {:induction false} FirstLooper(pcs: seq<ThreadPc>, t: nat) returns (first: nat)
    requires t < |pcs| && !pcs[t].Done?
    ensures first < |pcs| && !pcs[first].Done? && forall u: nat | u < first :: pcs[u].Done?
  {
    first := 0;
    while pcs[first].Done?
      invariant first <= t && forall u: nat | u < first :: pcs[u].Done?
      decreases t - first
    {
      first := first + 1;
    }
  }

  /** Before the handshake is complete, a thread that is not counted can move, or the one in its way can. */
  lemma SomeStarterMoves(s: State, t: nat) returns (who: nat)
    requires Inv(s) && t < |s.pcs| && !Counted(s.pcs[t]) && !s.pcs[t].NotCreated? && !s.main.CheckCount?
    ensures who < |s.pcs| && ThreadEnabled(s, who)
  {
    hide Ordered;
    if s.ready != FREE {
      who := s.ready;
    } else if s.pcs[t].WantFirst? {
      who := t;
      NobodyMoved(s, t);
      FirstFree(s, t);
    } else {
      who := t;
    }
  }

  lemma FirstFree(s: State, t: nat)
    requires Inv(s) && t < |s.pcs| && s.pcs[t].WantFirst?
    requires forall u: nat | u < |s.pcs| :: Pos(s, u) == u && Width(s, u) <= 1
    ensures s.ring[t] == FREE
  {
    hide Ordered, ReadyOk, ThreadsOk;
    if s.ring[t] != FREE {
      var u: nat := s.ring[t];
      assert Holds(s, u, t);
      ModSmall(u, |s.ring|);
    }
  }

  lemma {:induction false} UncountedThread(pcs: seq<ThreadPc>) returns (t: nat)
    requires CountOf(pcs) < |pcs|
    ensures t < |pcs| && !Counted(pcs[t])
  {
    if !Counted(pcs[0]) {
      t := 0;
    } else {
      var k := UncountedThread(pcs[1..]);
      t := k + 1;
    }
  }

  /** No reachable state is deadlocked: until everything is finished, somebody can take a step. */
  lemma Progress(s: State) returns (who: nat)
    requires Inv(s) && !s.main.Finished?
    ensures Enabled(s, who)
  {
    hide Ordered, RingOk;
    who := |s.pcs|;
    match s.main {
      case Creating(k) =>
        if k < |s.pcs| {
          assert ThreadOk(s, k);
        } else if s.ready != FREE {
          who := s.ready;
        }
      case CheckCount =>
      case Waiting =>
        var t := UncountedThread(s.pcs);
        assert ThreadOk(s, t);
        who := SomeStarterMoves(s, t);
      case Woken =>
        if s.ready != FREE { who := s.ready; }
      case Releasing(k) =>
      case Joining(k) =>
        if !s.pcs[k].Done? { who := SomeThreadMoves(s); }
    }
  }

  lemma ReadyOwner(s: State)
    requires Inv(s)
    ensures s.ready == FREE || s.main.CheckCount?
         || (0 <= s.ready < |s.pcs| && (s.pcs[s.ready].InReady? || s.pcs[s.ready].LeaveReady?))
  {
    hide ThreadsOk, Ordered, RingOk, CountOf;
  }

  /** When everything is finished, every thread is done and every mutex is free. */
  lemma FinishedFree(s: State)
    requires Inv(s) && s.main.Finished?
    ensures forall t: nat | t < |s.pcs| :: s.pcs[t].Done? && s.start[t] == FREE
    ensures s.ready == FREE && forall m: nat | m < |s.ring| :: s.ring[m] == FREE
  {
    hide Ordered;
    forall t: nat | t < |s.pcs| ensures s.pcs[t].Done? && s.start[t] == FREE { assert ThreadOk(s, t); }
    ReadyOwner(s);
  }

  /** Two threads never hold the same mutex of the ring. */
  lemma MutualExclusion(s: State, t: nat, u: nat, m: nat)
    requires Inv(s) && t < |s.pcs| && u < |s.pcs| && m < |s.ring| && Holds(s, t, m) && Holds(s, u, m)
    ensures t == u
  {
  }

  // ---------------------------------------------------------------- termination

  ghost function Rank(rounds: nat, pc: ThreadPc): nat {
    match pc
    case NotCreated => 2 * rounds + 8
    case WantFirst => 2 * rounds + 7
    case WantReady => 2 * rounds + 6
    case InReady => 2 * rounds + 5
    case LeaveReady => 2 * rounds + 4
    case WantStart => 2 * rounds + 3
    case HasStart => 2 * rounds + 2
    case Looping(j, i) => if j <= rounds then 2 * (rounds - j) + 1 else 1
    case Both(j, i) => if j <= rounds then 2 * (rounds - j) else 0
    case Done => 0
  }

  ghost function Ranks(rounds: nat, pcs: seq<ThreadPc>): nat {
    if pcs == [] then 0 else Rank(rounds, pcs[0]) + Ranks(rounds, pcs[1..])
  }

  ghost function MainRank(s: State): int {
    var n := |s.pcs|;
    match s.main
    case Creating(k) => 3 * n - k + 6
    case CheckCount => if s.count < n then 2 * n + 5 else 2 * n + 2
    case Waiting => 2 * n + 4
    case Woken => 2 * n + 3
    case Releasing(k) => 2 * n + 1 - k
    case Joining(k) => n - k
    case Finished => 0
  }

  /** The work left; it bounds the number of steps of any run. */
  ghost function Work(s: State): int {
    Ranks(s.rounds, s.pcs) + MainRank(s)
  }

  lemma {:induction false} RanksUpdate(rounds: nat, pcs: seq<ThreadPc>, t: nat, pc: ThreadPc)
    requires t < |pcs|
    ensures Ranks(rounds, pcs[t := pc]) == Ranks(rounds, pcs) + Rank(rounds, pc) - Rank(rounds, pcs[t])
  {
    if t == 0 {
      assert pcs[t := pc][1..] == pcs[1..];
    } else {
      assert pcs[t := pc][1..] == pcs[1..][t - 1 := pc];
      RanksUpdate(rounds, pcs[1..], t - 1, pc);
    }
  }

  lemma WorkNonNegative(s: State)
    requires Inv(s)
    ensures 0 <= Work(s)
  {
    hide ThreadsOk, Ordered, RingOk, ReadyOk, Ranks;
  }

  lemma ThreadWork(s: State, t: nat)
    requires Inv(s) && t < |s.pcs| && ThreadEnabled(s, t)
    ensures Work(ThreadStep(s, t)) < Work(s)
  {
    hide Ordered, RingOk, CountOf, Ranks;
    assert ThreadOk(s, t);
    RanksUpdate(s.rounds, s.pcs, t, ThreadStep(s, t).pcs[t]);
  }

  lemma MainWork(s: State)
    requires Inv(s) && MainEnabled(s)
    ensures Work(MainStep(s)) < Work(s)
  {
    hide Ordered, RingOk, CountOf, Ranks;
    if s.main.Creating? && s.main.k < |s.pcs| {
      assert ThreadOk(s, s.main.k);
      RanksUpdate(s.rounds, s.pcs, s.main.k, WantFirst);
    }
  }

  lemma StepDecreases(s: State, who: nat)
    requires Inv(s) && Enabled(s, who)
    ensures Work(Apply(s, who)) < Work(s) && 0 <= Work(s)
  {
    hide ThreadsOk, Ordered, RingOk, ReadyOk, Work, ThreadStep, MainStep;
    WorkNonNegative(s);
    if who < |s.pcs| { ThreadWork(s, who); } else { MainWork(s); }
  }

  // ---------------------------------------------------------------- runs

  ghost function Next(s: State, who: nat): (t: State)
    requires Inv(s) && Enabled(s, who)
    ensures Inv(t)
  {
    StepKeeps(s, who);
    Apply(s, who)
  }

  lemma StepKeeps(s: State, who: nat)
    requires Inv(s) && Enabled(s, who)
    ensures Inv(Apply(s, who))
  {
    hide ThreadsOk, Ordered, RingOk, ReadyOk, ThreadStep, MainStep;
    if who < |s.pcs| { ThreadStepKeeps(s, who); } else { MainStepKeeps(s); }
  }

  ghost predicate Schedule(s: State, whos: seq<nat>)
    requires Inv(s)
    decreases |whos|
  {
    whos == [] || (Enabled(s, whos[0]) && Schedule(Next(s, whos[0]), whos[1..]))
  }

  ghost function Run(s: State, whos: seq<nat>): (t: State)
    requires Inv(s) && Schedule(s, whos)
    ensures Inv(t)
    decreases |whos|
  {
    if whos == [] then s else Run(Next(s, whos[0]), whos[1..])
  }

  /** Every schedule is finite: it is no longer than the work at its start. */
  lemma {:induction false} RunsAreFinite(s: State, whos: seq<nat>)
    requires Inv(s) && Schedule(s, whos)
    ensures |whos| <= Work(s) - Work(Run(s, whos))
    decreases |whos|
  {
    hide Inv, Work, Apply;
    if whos != [] {
      StepDecreases(s, whos[0]);
      RunsAreFinite(Next(s, whos[0]), whos[1..]);
    }
  }

  ghost function Start(n: nat, reps: int): (s: State)
    requires n > 0
    ensures Inv(s)
  {
    InitialInv(n, reps);
    Initial(n, reps)
  }

  /** A run that cannot be continued has finished, with every mutex free. */
  lemma MaximalRunsFinish(n: nat, reps: int, whos: seq<nat>)
    requires n > 0 && Schedule(Start(n, reps), whos)
    requires forall who: nat :: !Enabled(Run(Start(n, reps), whos), who)
    ensures var t := Run(Start(n, reps), whos);
            && t.main.Finished? && (forall u: nat | u < |t.pcs| :: t.pcs[u].Done?)
            && t.ready == FREE && (forall m: nat | m < |t.ring| :: t.ring[m] == FREE)
  {
    var t := Run(Start(n, reps), whos);
    if !t.main.Finished? { var who := Progress(t); }
    FinishedFree(t);
  }

  /** No thread ever overtakes another: each stays between its neighbours, at most a lap apart. */
  lemma NoOvertaking(n: nat, reps: int, whos: seq<nat>, t: nat, u: nat)
    requires n > 0 && Schedule(Start(n, reps), whos) && t < u < |Run(Start(n, reps), whos).pcs|
    ensures var s := Run(Start(n, reps), whos);
            Pos(s, t) + Width(s, t) <= Pos(s, u) && Pos(s, u) + Width(s, u) <= Pos(s, t) + |s.ring|
  {
    assert Ordered(Run(Start(n, reps), whos));
  }

  // ---------------------------------------------------------------- what the threads do

  /** How often thread t is scheduled. */
  function Turns(whos: seq<nat>, t: nat): nat {
    if whos == [] then 0 else (if whos[0] == t then 1 else 0) + Turns(whos[1..], t)
  }

  /** How many statements a thread has behind it. */
  function Taken(pc: ThreadPc, rounds: nat): nat {
    match pc
    case NotCreated => 0
    case WantFirst => 0
    case WantReady => 1
    case InReady => 2
    case LeaveReady => 3
    case WantStart => 4
    case HasStart => 5
    case Looping(j, _) => 6 + 2 * j
    case Both(j, _) => 7 + 2 * j
    case Done => 7 + 2 * rounds
  }

  lemma TakenStep(s: State, who: nat, t: nat)
    requires Inv(s) && Enabled(s, who) && t < |s.pcs|
    ensures var u := Apply(s, who);
      && |u.pcs| == |s.pcs| && u.rounds == s.rounds
      && Taken(u.pcs[t], s.rounds) == Taken(s.pcs[t], s.rounds) + if who == t then 1 else 0
  {
    hide Ordered, RingOk, ReadyOk;
    assert ThreadOk(s, t);
  }

  lemma {:induction false} TurnsTaken(s: State, whos: seq<nat>, t: nat)
    requires Inv(s) && Schedule(s, whos) && t < |s.pcs|
    ensures |Run(s, whos).pcs| == |s.pcs| && Run(s, whos).rounds == s.rounds
    ensures Taken(Run(s, whos).pcs[t], s.rounds) == Taken(s.pcs[t], s.rounds) + Turns(whos, t)
    decreases |whos|
  {
    hide Inv, Apply, Taken;
    if whos == [] {
      assert Run(s, whos) == s;
    } else {
      TakenStep(s, whos[0], t);
      TurnsTaken(Next(s, whos[0]), whos[1..], t);
    }
  }

  /** In a maximal run every thread makes reps - 1 hops of two statements each, and seven more statements. */
  lemma TurnsOfThread(n: nat, reps: int, whos: seq<nat>, t: nat)
    requires n > 0 && Schedule(Start(n, reps), whos) && t < n
    requires forall who: nat :: !Enabled(Run(Start(n, reps), whos), who)
    ensures Turns(whos, t) == 7 + 2 * (if reps > 1 then reps - 1 else 0)
  {
    hide Inv, Run;
    MaximalRunsFinish(n, reps, whos);
    TurnsTaken(Start(n, reps), whos, t);
  }

  /** The last mutex a thread unlocks lies reps - 1 places behind the one it locked first. */
  lemma LastUnlock(n: nat, reps: int, whos: seq<nat>, t: nat)
    requires n > 0 && Schedule(Start(n, reps), whos) && t < n && t < |Run(Start(n, reps), whos).pcs|
    requires Enabled(Run(Start(n, reps), whos), t)
    requires t < |Next(Run(Start(n, reps), whos), t).pcs| && Next(Run(Start(n, reps), whos), t).pcs[t].Done?
    ensures var s, m := Run(Start(n, reps), whos), (t + (if reps > 1 then reps - 1 else 0)) % (n + 1);
      && |s.ring| == n + 1 && s.ring[m] == t
      && Next(s, t).ring == s.ring[m := FREE]
  {
    var s := Run(Start(n, reps), whos);
    TurnsTaken(Start(n, reps), whos, t);
    assert ThreadOk(s, t);
    UnlockKeeps(s, t);
  }

  /** No thread passes its start mutex before every thread has locked its first mutex and reported so. */
  lemma StartTogether(s: State, t: nat, u: nat)
    requires Inv(s) && t < |s.pcs| && u < |s.pcs|
    requires s.pcs[t].HasStart? || s.pcs[t].Looping? || s.pcs[t].Both? || s.pcs[t].Done?
    ensures s.count == |s.pcs| && Taken(s.pcs[u], s.rounds) >= 3
  {
    hide Ordered, RingOk;
    assert ThreadOk(s, t);
    StartedMeansAll(s, t);
    assert Counted(s.pcs[u]);
  }
}
