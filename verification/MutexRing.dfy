/**
 * The hand-over-hand mutex benchmark: N threads walk round N + 1 mutexes, each taking the
 * next one before releasing the one it holds, after a start handshake with the main thread.
 */
module MutexRing {

  const FREE := -1

  /** Where a thread is in contention_thread; j counts hops, i is the mutex it stands on. */
  datatype ThreadPc =
    | NotCreated
    | WantFirst
    | WantReady
    | InReady
    | LeaveReady
    | WantStart
    | HasStart
    | Looping(j: nat, i: nat)
    | Both(j: nat, i: nat)
    | Done

  /** Where the main thread is in contention. */
  datatype MainPc =
    | Creating(k: nat)
    | CheckCount
    | Waiting
    | Woken
    | Releasing(k: nat)
    | Joining(k: nat)
    | Finished

  /**
   * rounds is the number of hops each thread makes, max(0, reps - 1). A mutex is FREE or
   * holds the index of its owner, |pcs| standing for the main thread.
   */
  datatype State = State(
    rounds: nat, pcs: seq<ThreadPc>, main: MainPc,
    ring: seq<int>, ready: int, start: seq<int>, count: nat)

  function Initial(n: nat, reps: int): State {
    State(if reps > 1 then reps - 1 else 0,
          seq(n, t => NotCreated), Creating(0),
          seq(n + 1, m => FREE), FREE, seq(n, t => FREE), 0)
  }

  ghost predicate Shaped(s: State) {
    && |s.pcs| > 0 && |s.ring| == |s.pcs| + 1 && |s.start| == |s.pcs|
    && (s.main.Creating? ==> s.main.k <= |s.pcs|)
    && (s.main.Releasing? || s.main.Joining? ==> s.main.k < |s.pcs|)
    && forall t | 0 <= t < |s.pcs| :: (s.pcs[t].Looping? || s.pcs[t].Both? ==> s.pcs[t].i < |s.ring|)
  }

  // ---------------------------------------------------------------- steps

  function NextMutex(s: State, i: nat): nat
    requires |s.ring| > 0
  {
    (i + 1) % |s.ring|
  }

  /** Whether thread t's next statement can be executed: only locking can block. */
  ghost predicate ThreadEnabled(s: State, t: nat)
    requires Shaped(s) && t < |s.pcs|
  {
    match s.pcs[t]
    case NotCreated => false
    case WantFirst => s.ring[t] == FREE
    case WantReady => s.ready == FREE
    case WantStart => s.start[t] == FREE
    case Looping(j, i) => j < s.rounds ==> s.ring[NextMutex(s, i)] == FREE
    case Done => false
    case _ => true
  }

  ghost function ThreadStep(s: State, t: nat): State
    requires Shaped(s) && t < |s.pcs| && ThreadEnabled(s, t)
  {
    match s.pcs[t]
    case NotCreated => s
    case WantFirst => s.(pcs := s.pcs[t := WantReady], ring := s.ring[t := t])
    case WantReady => s.(pcs := s.pcs[t := InReady], ready := t)
    case InReady =>
      s.(pcs := s.pcs[t := LeaveReady], count := s.count + 1,
         main := if s.count + 1 == |s.pcs| && s.main.Waiting? then Woken else s.main)
    case LeaveReady => s.(pcs := s.pcs[t := WantStart], ready := FREE)
    case WantStart => s.(pcs := s.pcs[t := HasStart], start := s.start[t := t])
    case HasStart => s.(pcs := s.pcs[t := Looping(0, t)], start := s.start[t := FREE])
    case Looping(j, i) =>
      if j < s.rounds then s.(pcs := s.pcs[t := Both(j, i)], ring := s.ring[NextMutex(s, i) := t])
      else s.(pcs := s.pcs[t := Done], ring := s.ring[i := FREE])
    case Both(j, i) =>
      s.(pcs := s.pcs[t := Looping(j + 1, NextMutex(s, i))], ring := s.ring[i := FREE])
    case Done => s
  }

  ghost predicate MainEnabled(s: State)
    requires Shaped(s)
  {
    match s.main
    case Creating(k) => if k < |s.pcs| then s.start[k] == FREE else s.ready == FREE
    case Waiting => false
    case Woken => s.ready == FREE
    case Joining(k) => s.pcs[k].Done?
    case Finished => false
    case _ => true
  }

  ghost function MainStep(s: State): State
    requires Shaped(s) && MainEnabled(s)
  {
    var n := |s.pcs|;
    match s.main
    case Creating(k) =>
      if k < n then s.(main := Creating(k + 1), start := s.start[k := n], pcs := s.pcs[k := WantFirst])
      else s.(main := CheckCount, ready := n)
    case CheckCount => s.(main := if s.count < n then Waiting else Releasing(0), ready := FREE)
    case Waiting => s
    case Woken => s.(main := CheckCount, ready := n)
    case Releasing(k) => s.(main := if k + 1 < n then Releasing(k + 1) else Joining(0), start := s.start[k := FREE])
    case Joining(k) => s.(main := if k + 1 < n then Joining(k + 1) else Finished)
    case Finished => s
  }

  /** The scheduler picks thread who, or the main thread when who is the number of threads. */
  ghost predicate Enabled(s: State, who: nat)
    requires Shaped(s)
  {
    if who < |s.pcs| then ThreadEnabled(s, who) else who == |s.pcs| && MainEnabled(s)
  }

  ghost function Apply(s: State, who: nat): State
    requires Shaped(s) && Enabled(s, who)
  {
    if who < |s.pcs| then ThreadStep(s, who) else MainStep(s)
  }

  // ---------------------------------------------------------------- what a thread holds

  /** How far thread t has walked, not reduced modulo the number of mutexes. */
  ghost function Pos(s: State, t: nat): nat
    requires t < |s.pcs|
  {
    match s.pcs[t]
    case Looping(j, i) => t + j
    case Both(j, i) => t + j
    case Done => t + s.rounds
    case _ => t
  }

  /** How many mutexes of the ring thread t holds. */
  ghost function Width(s: State, t: nat): nat
    requires t < |s.pcs|
  {
    match s.pcs[t]
    case NotCreated => 0
    case WantFirst => 0
    case Both(j, i) => 2
    case Done => 0
    case _ => 1
  }

  predicate Counted(pc: ThreadPc) {
    pc.LeaveReady? || pc.WantStart? || pc.HasStart? || pc.Looping? || pc.Both? || pc.Done?
  }

  function CountOf(pcs: seq<ThreadPc>): nat {
    if pcs == [] then 0 else (if Counted(pcs[0]) then 1 else 0) + CountOf(pcs[1..])
  }

  /** The main thread has let thread t pass its start mutex. */
  predicate Released(main: MainPc, t: nat) {
    main.Joining? || main.Finished? || (main.Releasing? && t < main.k)
  }

  predicate AllCounted(main: MainPc) {
    main.Woken? || main.Releasing? || main.Joining? || main.Finished?
  }
}
