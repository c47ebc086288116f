/**
 * The round-robin scheduler of user-level tasks: a run ring that starts at the main task, a list of
 * tasks to reap, and a global preemption counter. schedule() runs with signals blocked, so it is one
 * step, up to the point where the task it switched to runs its own code again.
 */
module Scheduler {
  import opened IntrusiveList

  const MAIN: Node := Task(0)

  /**
   * resumable: the tasks whose context was saved inside schedule(); any other task starts in the
   * trampoline. own: how often each task has disabled preemption more than enabled it.
   */
  datatype State = State(
    ring: seq<Node>, current: Node, reap: seq<Node>, freed: set<Node>,
    resumable: set<Node>, reapSelf: set<Node>, preempt: int, own: map<Node, int>)

  datatype Action = Add(task: Node) | Disable | Enable | Return | Yield | Tick

  function Initial(): State {
    State([MAIN], MAIN, [], {}, {}, {}, 0, map[])
  }

  function Own(s: State, t: Node): int {
    if t in s.own then s.own[t] else 0
  }

  function Index(ring: seq<Node>, x: Node): (i: nat)
    requires x in ring
    ensures i < |ring| && ring[i] == x
  {
    if ring[0] == x then 0 else 1 + Index(ring[1..], x)
  }

  function Members(q: seq<Node>): set<Node> {
    set x | x in q
  }

  /** The task after the current one. */
  function NextTask(s: State): Node
    requires s.current in s.ring
  {
    Succ(s.ring, Index(s.ring, s.current))
  }

  /** The lists after the current task has left, if it asked to be reaped. */
  function Unlinked(s: State): State
    requires s.current in s.ring
  {
    if s.current in s.reapSelf
    then s.(ring := Removed(s.ring, Index(s.ring, s.current)), reap := [s.current] + s.reap)
    else s
  }

  function Switched(s: State): State
    requires s.current in s.ring
  {
    Unlinked(s).(current := NextTask(s), resumable := s.resumable + {s.current})
  }

  /** The clean-up loop behind the switch, reached only by tasks that were switched out before. */
  function Cleaned(s: State): State {
    if s.current in s.resumable then s.(reap := [], freed := s.freed + Members(s.reap)) else s
  }

  function Schedule(s: State): State
    requires s.current in s.ring
  {
    Cleaned(Switched(s))
  }

  predicate Enabled(s: State, a: Action) {
    match a
    case Add(t) => t.Task? && s.current !in s.reapSelf && t !in s.ring && t !in s.reap && t !in s.freed
      && t !in s.reapSelf && Own(s, t) == 0
    case Disable => s.current !in s.reapSelf
    case Enable => s.current !in s.reapSelf
    case Return => s.current != MAIN && s.current !in s.reapSelf
    case Yield => s.current in s.reapSelf
    case Tick => true
  }

  /** A callback that returns has enabled preemption as often as it disabled it. */
  predicate Balanced(s: State, a: Action) {
    a.Return? ==> Own(s, s.current) == 0
  }

  predicate IsSwitch(s: State, a: Action) {
    a.Yield? || (a.Tick? && s.preempt == 0)
  }

  function Step(s: State, a: Action): State
    requires s.current in s.ring && Enabled(s, a)
  {
    match a
    case Add(t) => s.(ring := s.ring + [t])
    case Disable => s.(preempt := s.preempt + 1, own := s.own[s.current := Own(s, s.current) + 1])
    case Enable => s.(preempt := s.preempt - 1, own := s.own[s.current := Own(s, s.current) - 1])
    case Return => s.(reapSelf := s.reapSelf + {s.current})
    case Yield => Schedule(s)
    case Tick => if s.preempt != 0 then s else Schedule(s)
  }

  // ---------------------------------------------------------------- the invariant

  ghost predicate Inv(s: State) {
    && s.ring != [] && s.ring[0] == MAIN && s.current in s.ring
    && Distinct(s.ring) && Distinct(s.reap) && Disjoint(s.ring, s.reap)
    && (forall x | x in s.freed :: x !in s.ring && x !in s.reap)
    && (forall x | x in s.ring && x in s.reapSelf :: x == s.current)
    && MAIN !in s.reapSelf && Reap !in s.ring && Reap !in s.reap
    && (s.current == MAIN ==> s.reap == [])
    && (s.current == MAIN || MAIN in s.resumable)
  }

  lemma RemovedMembers(ring: seq<Node>, k: nat)
    requires Distinct(ring) && k < |ring|
    ensures Distinct(Removed(ring, k))
    ensures forall x :: x in Removed(ring, k) <==> x in ring && x != ring[k]
  {
    var r := Removed(ring, k);
    assert forall i | 0 <= i < |r| :: r[i] == ring[if i < k then i else i + 1];
    forall x | x in ring && x != ring[k] ensures x in r {
      var i := Index(ring, x);
      assert r[if i < k then i else i - 1] == x;
    }
  }

  /** What the lists are after the switch; the next task is another one if the current leaves. */
  lemma UnlinkedKeeps(s: State)
    requires Inv(s)
    ensures var u := Unlinked(s);
      && u.ring != [] && u.ring[0] == MAIN && Distinct(u.ring) && Distinct(u.reap) && Disjoint(u.ring, u.reap)
      && NextTask(s) in u.ring && Reap !in u.ring && Reap !in u.reap
      && u.freed == s.freed && u.reapSelf == s.reapSelf && u.preempt == s.preempt && u.own == s.own
      && (forall x | x in s.freed :: x !in u.ring && x !in u.reap)
      && (forall x | x in u.ring :: x !in s.reapSelf)
      && (forall x :: x in u.ring || x in u.reap <==> x in s.ring || x in s.reap)
  {
    if s.current in s.reapSelf {
      var c := Index(s.ring, s.current);
      RemovedMembers(s.ring, c);
      assert forall x :: x in [s.current] + s.reap <==> x == s.current || x in s.reap;
      assert NextTask(s) != s.current;
    }
  }

  lemma ScheduleKeeps(s: State)
    requires Inv(s)
    ensures Inv(Schedule(s))
  {
    hide Unlinked;
    UnlinkedKeeps(s);
  }

  lemma StepKeeps(s: State, a: Action)
    requires Inv(s) && Enabled(s, a)
    ensures Inv(Step(s, a))
  {
    hide Schedule;
    match a
    case Yield => ScheduleKeeps(s);
    case Tick => ScheduleKeeps(s);
    case Add(t) => AddedMembers(s.ring, t);
    case _ =>
  }

  lemma AddedMembers(ring: seq<Node>, t: Node)
    requires ring != [] && t !in ring && Distinct(ring)
    ensures Distinct(ring + [t]) && (ring + [t])[0] == ring[0]
    ensures forall x :: x in ring + [t] <==> x in ring || x == t
  {
  }

  // ---------------------------------------------------------------- what schedule never does

  /** A switch goes to a task of the run ring, which is neither waiting to be reaped nor freed. */
  lemma SwitchIsSafe(s: State)
    requires Inv(s)
    ensures var t := Schedule(s);
      && t.current in t.ring && t.current !in t.reap && t.current !in t.freed && t.current !in t.reapSelf
      && (forall x | x in t.freed && x !in s.freed :: x in s.reapSelf || x in s.reap)
  {
    ScheduleKeeps(s);
    UnlinkedKeeps(s);
  }

  /** All tasks there have been. */
  function Tasks(s: State): set<Node> {
    Members(s.ring) + Members(s.reap) + s.freed
  }

  /** Where a task is: in one place at a time. */
  lemma OnePlace(s: State, x: Node)
    requires Inv(s) && x in Tasks(s)
    ensures (x in s.ring && x !in s.reap && x !in s.freed)
         || (x !in s.ring && x in s.reap && x !in s.freed)
         || (x !in s.ring && x !in s.reap && x in s.freed)
  {
  }

  /** No step loses a task or makes one up. */
  lemma TasksConserved(s: State, a: Action)
    requires Inv(s) && Enabled(s, a)
    ensures Tasks(Step(s, a)) == Tasks(s) + if a.Add? then {a.task} else {}
  {
    hide Unlinked, NextTask;
    UnlinkedKeeps(s);
    match a
    case Add(t) => AddedMembers(s.ring, t);
    case _ =>
  }

  // ---------------------------------------------------------------- preemption

  /** The counter is the current task's own; every task that is not running stands at zero. */
  ghost predicate Quiet(s: State) {
    && s.preempt == Own(s, s.current)
    && (forall x | x != s.current :: Own(s, x) == 0)
    && (s.current in s.reapSelf ==> s.preempt == 0)
  }

  lemma QuietKeeps(s: State, a: Action)
    requires Inv(s) && Quiet(s) && Enabled(s, a) && Balanced(s, a)
    ensures Quiet(Step(s, a))
    ensures IsSwitch(s, a) ==> s.preempt == 0 && Step(s, a).preempt == 0
  {
    hide Unlinked, NextTask;
    if IsSwitch(s, a) {
      UnlinkedKeeps(s);
      forall x ensures Own(Schedule(s), x) == Own(s, x) == 0 {}
    } else {
      forall x | x != s.current ensures Own(Step(s, a), x) == Own(s, x) {}
    }
  }

  // ---------------------------------------------------------------- whole runs

  ghost predicate Run(s: State, acts: seq<Action>, t: State)
    decreases |acts|
  {
    if acts == [] then t == s
    else s.current in s.ring && Enabled(s, acts[0]) && Run(Step(s, acts[0]), acts[1..], t)
  }

  lemma {:induction false} RunKeeps(s: State, acts: seq<Action>, t: State)
    requires Inv(s) && Run(s, acts, t)
    ensures Inv(t)
    decreases |acts|
  {
    hide Inv, Step;
    if acts != [] {
      StepKeeps(s, acts[0]);
      RunKeeps(Step(s, acts[0]), acts[1..], t);
    }
  }

  /** When the main loop finds its ring empty there is nothing left to reap: every task is freed. */
  lemma MainLoopEnds(acts: seq<Action>, t: State)
    requires Run(Initial(), acts, t) && t.current == MAIN
    ensures t.reap == []
    ensures t.ring == [MAIN] <==> forall x | x in Tasks(t) && x != MAIN :: x in t.freed
  {
    InitialInv();
    RunKeeps(Initial(), acts, t);
    if t.ring != [MAIN] {
      var x := t.ring[1];
      assert x in t.ring && x in Tasks(t) && x != MAIN && x !in t.freed;
    }
  }

  /** A run in which every returning callback is balanced, and what the counter is at each switch. */
  ghost predicate BalancedRun(s: State, acts: seq<Action>)
    decreases |acts|
  {
    acts == [] || (
      && s.current in s.ring && Enabled(s, acts[0]) && Balanced(s, acts[0])
      && BalancedRun(Step(s, acts[0]), acts[1..]))
  }

  ghost predicate SwitchesAtZero(s: State, acts: seq<Action>)
    decreases |acts|
  {
    acts == [] || (
      && s.current in s.ring && Enabled(s, acts[0])
      && (IsSwitch(s, acts[0]) ==> s.preempt == 0 && Step(s, acts[0]).preempt == 0)
      && SwitchesAtZero(Step(s, acts[0]), acts[1..]))
  }

  lemma {:induction false} PreemptZeroAtSwitches(s: State, acts: seq<Action>)
    requires Inv(s) && Quiet(s) && BalancedRun(s, acts)
    ensures SwitchesAtZero(s, acts)
    decreases |acts|
  {
    hide Inv, Step, Quiet;
    if acts != [] {
      QuietKeeps(s, acts[0]);
      StepKeeps(s, acts[0]);
      PreemptZeroAtSwitches(Step(s, acts[0]), acts[1..]);
    }
  }

  // ---------------------------------------------------------------- critical sections

  /** How many more Disables than Enables there are. */
  function Depth(acts: seq<Action>): int {
    if acts == [] then 0
    else (if acts[0].Disable? then 1 else if acts[0].Enable? then -1 else 0) + Depth(acts[1..])
  }

  /** What a task does between two calls of schedule(): additions, Disables, Enables, and ticks that reach it. */
  predicate Local(acts: seq<Action>) {
    forall k | 0 <= k < |acts| :: acts[k].Disable? || acts[k].Enable? || acts[k].Add? || acts[k].Tick?
  }

  /** From depth d on, the sequence stays inside the critical section. */
  predicate Inside(d: int, acts: seq<Action>) {
    forall k | 0 < k <= |acts| :: d + Depth(acts[..k]) > 0
  }

  lemma InsideTail(d: int, acts: seq<Action>)
    requires acts != [] && Inside(d, acts)
    ensures d + Depth([acts[0]]) > 0 && Inside(d + Depth([acts[0]]), acts[1..])
  {
    assert acts[..1] == [acts[0]];
    forall k | 0 < k <= |acts[1..]| ensures d + Depth([acts[0]]) + Depth(acts[1..][..k]) > 0 {
      assert acts[..k + 1][1..] == acts[1..][..k];
      assert Depth([acts[0]]) == Depth([acts[0]]) + Depth([acts[0]][1..]);
      assert d + Depth(acts[..k + 1]) > 0;
    }
  }

  /** The counter counts: inside a section no tick has an effect, and the counter is its depth. */
  lemma {:induction false} SectionCounts(s: State, acts: seq<Action>, t: State)
    requires Run(s, acts, t) && Local(acts) && Inside(s.preempt, acts)
    ensures t.current == s.current && t.preempt == s.preempt + Depth(acts)
    decreases |acts|
  {
    if acts == [] {
      assert Depth(acts) == 0;
    } else {
      InsideTail(s.preempt, acts);
      assert [acts[0]][1..] == [];
      SectionCounts(Step(s, acts[0]), acts[1..], t);
    }
  }

  /**
   * From a state with the counter at rest: while there have been more Disables than Enables, no tick
   * takes the processor away.
   */
  lemma SectionUndisturbed(s: State, acts: seq<Action>, t: State)
    requires Inv(s) && Quiet(s) && s.preempt == 0 && Run(s, acts, t) && Local(acts) && Inside(0, acts)
    ensures t.current == s.current
  {
    SectionCounts(s, acts, t);
  }

  /** As soon as the two counts are equal again, the next tick switches to the next task of the ring. */
  lemma SectionEnds(s: State, acts: seq<Action>, last: Action, t: State, u: State)
    requires Inv(s) && Quiet(s) && s.preempt == 0 && Run(s, acts, t) && Local(acts) && Inside(0, acts)
    requires acts != [] && Local([last]) && Depth(acts + [last]) == 0
    requires t.current in t.ring && Enabled(t, last) && u == Step(t, last)
    ensures u.current == s.current && u.current in u.ring
    ensures Enabled(u, Tick) && Step(u, Tick).current == NextTask(u)
  {
    hide Inv, Run, Schedule;
    SectionCounts(s, acts, t);
    LastEnable(acts, last);
    RunKeeps(s, acts, t);
    StepKeeps(t, last);
    RingCurrent(u);
    TickSwitches(u);
  }

  /** Only an Enable can bring the depth back to zero. */
  lemma LastEnable(acts: seq<Action>, last: Action)
    requires acts != [] && Inside(0, acts) && Local([last]) && Depth(acts + [last]) == 0
    ensures last.Enable? && Depth(acts) == 1
  {
    DepthAppend(acts, last);
    assert acts[..|acts|] == acts;
    assert [last][1..] == [];
    assert [last][0] == last;
  }

  lemma TickSwitches(s: State)
    requires s.current in s.ring && s.preempt == 0
    ensures Step(s, Tick).current == NextTask(s)
  {
  }

  lemma {:induction false} DepthAppend(acts: seq<Action>, last: Action)
    ensures Depth(acts + [last]) == Depth(acts) + Depth([last])
  {
    if acts == [] {
      assert acts + [last] == [last];
    } else {
      DepthAppend(acts[1..], last);
      assert (acts + [last])[1..] == acts[1..] + [last];
    }
  }

  /** The counter is at rest at the start and after every switch of a balanced run. */
  lemma RestAfterSwitch(s: State, a: Action)
    requires Inv(s) && Quiet(s) && Enabled(s, a) && Balanced(s, a) && IsSwitch(s, a)
    ensures Initial().preempt == 0 && Step(s, a).preempt == 0
  {
    QuietKeeps(s, a);
  }

  /** A running task may always add a fresh task, which comes last, and disable or enable preemption. */
  lemma TaskMay(s: State, t: Node)
    requires Inv(s) && s.current !in s.reapSelf
    requires t.Task? && t !in Tasks(s) && t !in s.reapSelf && Own(s, t) == 0
    ensures Enabled(s, Add(t)) && s.current in s.ring && Step(s, Add(t)).ring == s.ring + [t]
    ensures Enabled(s, Disable) && Enabled(s, Enable) && Enabled(s, Tick)
  {
  }

  /** A task that has finished leaves the ring at once, and the others keep their order. */
  lemma FinishLeaves(s: State)
    requires Inv(s) && s.current != MAIN && s.current !in s.reapSelf
    ensures Enabled(s, Return) && s.current in s.ring && Step(s, Return).current in s.ring
    ensures Enabled(Step(s, Return), Yield)
    ensures var t := Step(Step(s, Return), Yield);
      && t.ring == Removed(s.ring, Index(s.ring, s.current)) && t.current == NextTask(s)
      && s.current !in t.ring && (s.current in t.reap || s.current in t.freed)
  {
    RemovedMembers(s.ring, Index(s.ring, s.current));
  }

  lemma InitialInv()
    ensures Inv(Initial()) && Quiet(Initial())
  {
  }

  // ---------------------------------------------------------------- fairness

  /** How many switches away t is. */
  function Distance(ring: seq<Node>, current: Node, t: Node): nat
    requires current in ring && t in ring
  {
    var i, c := Index(ring, t), Index(ring, current);
    if i >= c then i - c else i - c + |ring|
  }

  lemma IndexIs(ring: seq<Node>, x: Node, i: nat)
    requires Distinct(ring) && i < |ring| && ring[i] == x
    ensures x in ring && Index(ring, x) == i
  {
  }

  lemma DistanceBound(ring: seq<Node>, current: Node, t: Node)
    requires current in ring && t in ring
    ensures Distance(ring, current, t) < |ring|
    ensures Distance(ring, current, t) == 0 ==> current == t
  {
  }

  /** A switch brings every waiting task one place nearer, whether or not the current one leaves. */
  lemma SwitchIsNearer(s: State, t: Node)
    requires Inv(s) && t in s.ring && t != s.current
    ensures var u := Schedule(s);
      && t in u.ring && u.current in u.ring
      && Distance(u.ring, u.current, t) == Distance(s.ring, s.current, t) - 1
  {
    hide Removed, Distance;
    var c := Index(s.ring, s.current);
    if s.current in s.reapSelf {
      LeaveIsNearer(s.ring, c, Index(s.ring, t));
    } else {
      AdvanceIsNearer(s.ring, c, Index(s.ring, t));
    }
  }

  lemma AdvanceIsNearer(ring: seq<Node>, c: nat, i: nat)
    requires Distinct(ring) && c < |ring| && i < |ring| && i != c
    ensures Succ(ring, c) in ring
    ensures Distance(ring, Succ(ring, c), ring[i]) == Distance(ring, ring[c], ring[i]) - 1
  {
    hide Index;
    IndexIs(ring, ring[i], i);
    IndexIs(ring, ring[c], c);
    IndexIs(ring, Succ(ring, c), if c + 1 < |ring| then c + 1 else 0);
  }

  lemma LeaveIsNearer(ring: seq<Node>, c: nat, i: nat)
    requires Distinct(ring) && 0 < c < |ring| && i < |ring| && i != c
    ensures var r := Removed(ring, c);
      && Succ(ring, c) in r && ring[i] in r
      && Distance(r, Succ(ring, c), ring[i]) == Distance(ring, ring[c], ring[i]) - 1
  {
    hide Index;
    var r := Removed(ring, c);
    RemovedMembers(ring, c);
    IndexIs(ring, ring[i], i);
    IndexIs(ring, ring[c], c);
    IndexIs(r, ring[i], if i < c then i else i - 1);
    IndexIs(r, Succ(ring, c), if c + 1 < |ring| then c else 0);
  }

  /** A run without additions in which t never gets the processor. */
  ghost predicate Waits(s: State, acts: seq<Action>, t: Node)
    decreases |acts|
  {
    && s.current in s.ring && s.current != t
    && (acts != [] ==>
          && Enabled(s, acts[0]) && !acts[0].Add?
          && Waits(Step(s, acts[0]), acts[1..], t))
  }

  ghost function Switches(s: State, acts: seq<Action>, t: Node): nat
    requires Waits(s, acts, t)
    decreases |acts|
  {
    if acts == [] then 0
    else (if IsSwitch(s, acts[0]) then 1 else 0) + Switches(Step(s, acts[0]), acts[1..], t)
  }

  /** A task of the ring that has not run yet has seen fewer switches than the ring is long. */
  lemma {:induction false} WaitsLessThanRing(s: State, acts: seq<Action>, t: Node)
    requires Inv(s) && t in s.ring && Waits(s, acts, t)
    ensures Switches(s, acts, t) < Distance(s.ring, s.current, t) < |s.ring|
    decreases |acts|
  {
    hide Inv, Schedule, Distance;
    RingCurrent(s);
    DistanceBound(s.ring, s.current, t);
    if acts != [] {
      var u := Step(s, acts[0]);
      StepKeeps(s, acts[0]);
      if IsSwitch(s, acts[0]) { SwitchIsNearer(s, t); }
      WaitsLessThanRing(u, acts[1..], t);
    }
  }

  lemma RingCurrent(s: State)
    requires Inv(s)
    ensures s.current in s.ring
  {
  }
}
