/** list.h and the scheduler on the links themselves, proved against IntrusiveList and Scheduler. */
module SchedulerTasks {
  import opened IntrusiveList
  import opened Scheduler

  /** The links hold the run ring and the reap list. */
  ghost predicate Holds(l: Links, ring: seq<Node>, reap: seq<Node>) {
    Ring(l, ring) && Ring(l, [Reap] + reap) && Disjoint(ring, [Reap] + reap)
  }

  lemma LinkAt(l: Links, ring: seq<Node>, k: nat)
    requires Ring(l, ring) && k < |ring|
    ensures Joined(l, ring[k], Succ(ring, k))
    ensures k > 0 ==> Joined(l, ring[k - 1], ring[k])
    ensures Joined(l, ring[|ring| - 1], ring[0])
  {
    assert Link(l, ring, k) && Link(l, ring, |ring| - 1);
    if k > 0 { assert Link(l, ring, k - 1); }
  }

  class TaskHeap {
    var next: map<Node, Node>
    var prev: map<Node, Node>
    var current: Node
    var reapSelf: set<Node>
    var preempt: int
    var freed: set<Node>
    /** the tasks whose saved context lies inside schedule() */
    var resumable: set<Node>
    ghost var own: map<Node, int>

    ghost function Lists(): Links
      reads this
    {
      Links(next, prev)
    }

    // -------------------------------------------------------------- list.h

    method ListInit(head: Node)
      modifies this`next, this`prev
      ensures Ring(Lists(), [head]) && Frame(old(Lists()), Lists(), [head])
    {
      next := next[head := head];
      prev := prev[head := head];
      assert Link(Lists(), [head], 0);
    }

    /** list_add behind the node at position k */
    method ListAdd(node: Node, head: Node, ghost ring: seq<Node>, ghost k: nat)
      requires Ring(Lists(), ring) && k < |ring| && ring[k] == head && node !in ring
      modifies this`next, this`prev
      ensures Ring(Lists(), Inserted(ring, k, node)) && Frame(old(Lists()), Lists(), ring + [node])
    {
      hide Ring, Inserted, Frame;
      LinkAt(Lists(), ring, k);
      InsertKeepsRing(Lists(), ring, k, node);
      var after := next[head];
      assert head in ring && after in ring;
      prev := prev[after := node];
      next := next[node := after];
      prev := prev[node := head];
      next := next[head := node];
      assert Lists() == Join(Join(old(Lists()), node, after), head, node);
    }

    /** list_add_tail in front of the head */
    method ListAddTail(node: Node, head: Node, ghost ring: seq<Node>)
      requires Ring(Lists(), ring) && ring[0] == head && node !in ring
      modifies this`next, this`prev
      ensures Ring(Lists(), ring + [node]) && Frame(old(Lists()), Lists(), ring + [node])
    {
      hide Ring, Inserted, Frame;
      RingNonEmpty(Lists(), ring);
      ghost var last := |ring| - 1;
      LinkAt(Lists(), ring, last);
      InsertKeepsRing(Lists(), ring, last, node);
      InsertedLast(ring, node);
      var before := prev[head];
      assert head in ring && before in ring;
      next := next[before := node];
      next := next[node := head];
      prev := prev[node := before];
      prev := prev[head := node];
      UpdatesCommute(old(next), before, node, node, head);
      UpdatesCommute(old(prev), node, before, head, node);
    }

    method ListDel(node: Node, ghost ring: seq<Node>, ghost k: nat)
      requires Ring(Lists(), ring) && 0 < k < |ring| && ring[k] == node
      modifies this`next, this`prev
      ensures Ring(Lists(), Removed(ring, k)) && node !in Removed(ring, k)
      ensures Frame(old(Lists()), Lists(), ring)
    {
      hide Ring, Removed;
      RemoveKeepsRing(Lists(), ring, k);
      assert ring[k - 1] in ring && Succ(ring, k) in ring;
      var after, before := next[node], prev[node];
      prev := prev[after := before];
      next := next[before := after];
      assert Lists() == Join(old(Lists()), before, after);
    }

    /** list_move from one list to the front of another */
    method ListMove(node: Node, head: Node, ghost from: seq<Node>, ghost k: nat, ghost to: seq<Node>)
      requires Ring(Lists(), from) && 0 < k < |from| && from[k] == node
      requires Ring(Lists(), to) && to[0] == head && Disjoint(to, from)
      modifies this`next, this`prev
      ensures Ring(Lists(), Removed(from, k)) && Ring(Lists(), Inserted(to, 0, node))
      ensures Disjoint(Removed(from, k), Inserted(to, 0, node))
      ensures Frame(old(Lists()), Lists(), from + to)
    {
      hide Ring;
      ghost var l0 := Lists();
      RingNonEmpty(l0, to);
      RingNonEmpty(l0, from);
      assert node in from;
      ListDel(node, from, k);
      ghost var l1 := Lists();
      FrameRing(l0, l1, from, to);
      ListAdd(node, head, to, 0);
      MovedApart(from, k, to);
      FrameRing(l1, Lists(), to + [node], Removed(from, k));
    }

    /** list_splice: the nodes of list go to the front of head's list. */
    method ListSplice(list: Node, head: Node, ghost from: seq<Node>, ghost to: seq<Node>)
      requires Ring(Lists(), from) && from[0] == list && Ring(Lists(), to) && to[0] == head && Disjoint(to, from)
      modifies this`next, this`prev
      ensures Ring(Lists(), [to[0]] + from[1..] + to[1..])
      ensures Frame(old(Lists()), Lists(), from + to)
    {
      hide Ring;
      RingNonEmpty(Lists(), from);
      RingNonEmpty(Lists(), to);
      LinkAt(Lists(), from, 0);
      LinkAt(Lists(), to, 0);
      var headFirst, listFirst, listLast := next[head], next[list], prev[list];
      if next[list] == list {
        SoleMember(from, list);
        assert [to[0]] + from[1..] + to[1..] == to;
        return;
      }
      assert |from| > 1;
      SpliceKeepsRing(Lists(), to, from);
      assert {head, headFirst} <= Members(to) && {listFirst, listLast} <= Members(from);
      next := next[head := listFirst];
      prev := prev[listFirst := head];
      next := next[listLast := headFirst];
      prev := prev[headFirst := listLast];
      assert Lists() == Join(Join(old(Lists()), head, listFirst), listLast, headFirst);
    }

    /** list_cut_position: the first k nodes of from move behind headTo, unless from is empty. */
    method ListCut(headTo: Node, headFrom: Node, node: Node, ghost from: seq<Node>, ghost k: nat)
      requires Ring(Lists(), from) && from[0] == headFrom && k < |from| && from[k] == node && headTo !in from
      modifies this`next, this`prev
      ensures |from| == 1 ==> Lists() == old(Lists())
      ensures |from| > 1 ==> Ring(Lists(), [headFrom] + from[k + 1..]) && Ring(Lists(), [headTo] + from[1..k + 1])
      ensures Frame(old(Lists()), Lists(), from + [headTo])
    {
      hide Ring;
      LinkAt(Lists(), from, 0);
      LinkAt(Lists(), from, k);
      RingNonEmpty(Lists(), from);
      var first := next[headFrom];
      if next[headFrom] == headFrom {
        SoleMember(from, headFrom);
        return;
      }
      if headFrom == node {
        HeadIsFirst(from, k);
        ListInit(headTo);
        FrameRing(old(Lists()), Lists(), [headTo], from);
        assert [headFrom] + from[k + 1..] == from && [headTo] + from[1..k + 1] == [headTo];
        return;
      }
      CutKeepsRings(Lists(), from, headTo, k);
      assert {headFrom, node, first, Succ(from, k)} <= Members(from);
      next := next[headFrom := next[node]];
      prev := prev[next[headFrom] := headFrom];
      prev := prev[headTo := node];
      next := next[node := headTo];
      next := next[headTo := first];
      prev := prev[next[headTo] := headTo];
      assert Lists() == Join(Join(Join(old(Lists()), headFrom, Succ(from, k)), node, headTo), headTo, first);
    }

    // -------------------------------------------------------------- the scheduler

    ghost function Abs(ring: seq<Node>, reap: seq<Node>): State
      reads this
    {
      State(ring, current, reap, freed, resumable, reapSelf, preempt, own)
    }

    ghost predicate Models(s: State)
      reads this
    {
      Holds(Lists(), s.ring, s.reap) && s == Abs(s.ring, s.reap)
    }

    /** task_init, with nothing allocated yet */
    method TaskInit()
      modifies this
      ensures Models(Initial())
    {
      hide Ring;
      ListInit(Reap);
      ghost var l0 := Lists();
      ListInit(MAIN);
      FrameRing(l0, Lists(), [MAIN], [Reap]);
      assert [Reap] + [] == [Reap];
      current, reapSelf, preempt, freed, resumable, own := MAIN, {}, 0, {}, {}, map[];
    }

    method TaskAdd(task: Node, ghost s: State)
      requires Inv(s) && Models(s) && Enabled(s, Add(task))
      modifies this
      ensures Models(Step(s, Add(task)))
    {
      hide Ring, Inv;
      InvFacts(s);
      ghost var l0 := Lists();
      preempt := preempt + 1;
      ListAddTail(task, MAIN, s.ring);
      preempt := preempt - 1;
      AddedApart(s.ring, task, s.reap);
      FrameRing(l0, Lists(), s.ring + [task], [Reap] + s.reap);
    }

    /** schedule() up to the switch of contexts */
    method SwitchAway(ghost s: State)
      requires Inv(s) && Models(s)
      modifies this
      ensures Models(Switched(s))
    {
      hide Ring, Inv;
      InvFacts(s);
      ghost var c := Index(s.ring, s.current);
      LinkAt(Lists(), s.ring, c);
      var nextTask := next[current];
      if current in reapSelf {
        ListMove(current, Reap, s.ring, c, [Reap] + s.reap);
        assert Inserted([Reap] + s.reap, 0, current) == [Reap] + ([current] + s.reap);
      }
      resumable := resumable + {current};
      current := nextTask;
    }

    /** The clean-up loop behind the switch: every task on the reap list is unlinked and freed. */
    method CleanReaps(ghost s: State)
      requires Models(s) && s.current in s.resumable
      modifies this
      ensures Models(Cleaned(s))
    {
      hide Ring;
      ReapApart(Lists(), s.reap);
      ghost var rest := s.reap;
      ReapLinks(Lists(), rest);
      var task := next[Reap];
      var tmp := next[task];
      assert Members([]) == {};
      while task != Reap
        invariant Holds(Lists(), s.ring, rest) && Reap !in rest
        invariant task in next && tmp in next && task == (if rest == [] then Reap else rest[0])
        invariant rest != [] ==> tmp == if |rest| == 1 then Reap else rest[1]
        invariant freed + Members(rest) == s.freed + Members(s.reap)
        invariant Abs(s.ring, []).(freed := {}) == s.(reap := [], freed := {})
        decreases |rest|
      {
        DestroyTask(task, rest, s.ring);
        rest := rest[1..];
        task := tmp;
        ReapLinks(Lists(), rest);
        tmp := next[tmp];
      }
    }

    method DestroyTask(task: Node, ghost rest: seq<Node>, ghost ring: seq<Node>)
      requires Holds(Lists(), ring, rest) && rest != [] && task == rest[0] && Reap !in rest
      modifies this`next, this`prev, this`freed
      ensures Holds(Lists(), ring, rest[1..]) && Reap !in rest[1..]
      ensures freed + Members(rest[1..]) == old(freed) + Members(rest)
    {
      hide Ring;
      ghost var l0 := Lists();
      ListDel(task, [Reap] + rest, 1);
      assert Removed([Reap] + rest, 1) == [Reap] + rest[1..];
      FrameRing(l0, Lists(), [Reap] + rest, ring);
      freed := freed + {task};
      assert rest == [task] + rest[1..];
    }

    /**
     * The whole of schedule(), as seen from the task that runs afterwards: one that was switched out here
     * before goes on behind the switch and cleans up, a new one starts in the trampoline instead.
     */
    method RunSchedule(ghost s: State)
      requires Inv(s) && Models(s)
      modifies this
      ensures Models(Schedule(s)) && Inv(Schedule(s))
    {
      hide Ring, Inv, Switched, Models;
      ScheduleKeeps(s);
      RingCurrent(s);
      SwitchAway(s);
      CurrentIs(Switched(s));
      if current in resumable { CleanReaps(Switched(s)); }
    }

    /** The fields that schedule() branches on. */
    lemma CurrentIs(s: State)
      requires Models(s)
      ensures current == s.current && resumable == s.resumable && preempt == s.preempt
    {
    }

    method TimerHandler(ghost s: State)
      requires Inv(s) && Models(s)
      modifies this
      ensures Enabled(s, Tick) && s.current in s.ring && Models(Step(s, Tick)) && Inv(Step(s, Tick))
    {
      hide Ring, Inv, Schedule, Models;
      RingCurrent(s);
      CurrentIs(s);
      if preempt != 0 {
        return;
      }
      RunSchedule(s);
    }

    /** The end of task_trampoline, once the callback has returned. */
    method TaskReturn(ghost s: State)
      requires Inv(s) && Models(s) && Enabled(s, Return)
      modifies this
      ensures s.current in s.ring && Step(s, Return).current in s.ring && Models(Step(Step(s, Return), Yield))
    {
      hide Ring, Inv, Schedule;
      RingCurrent(s);
      StepKeeps(s, Return);
      reapSelf := reapSelf + {current};
      RunSchedule(Step(s, Return));
    }
  }

  // ---------------------------------------------------------------- steps

  lemma UpdatesCommute(m: map<Node, Node>, a: Node, x: Node, b: Node, y: Node)
    requires a != b
    ensures m[a := x][b := y] == m[b := y][a := x]
  {
  }

  lemma RingNonEmpty(l: Links, ring: seq<Node>)
    requires Ring(l, ring)
    ensures ring != [] && Distinct(ring)
  {
  }

  lemma ReapApart(l: Links, reap: seq<Node>)
    requires Ring(l, [Reap] + reap)
    ensures Reap !in reap
  {
    var ring := [Reap] + reap;
    forall k | 0 <= k < |reap| ensures reap[k] != Reap { assert ring[0] != ring[k + 1]; }
  }

  /** The first links of the reap list. */
  lemma ReapLinks(l: Links, rest: seq<Node>)
    requires Ring(l, [Reap] + rest)
    ensures Reap in l.next && l.next[Reap] == if rest == [] then Reap else rest[0]
    ensures rest != [] ==> rest[0] in l.next && l.next[rest[0]] == if |rest| == 1 then Reap else rest[1]
    ensures |rest| > 1 ==> rest[1] in l.next
  {
    hide Ring;
    LinkAt(l, [Reap] + rest, 0);
    if rest != [] { LinkAt(l, [Reap] + rest, 1); }
    if |rest| > 1 { LinkAt(l, [Reap] + rest, 2); }
  }

  lemma InsertedLast(ring: seq<Node>, node: Node)
    requires ring != []
    ensures Inserted(ring, |ring| - 1, node) == ring + [node]
  {
  }

  lemma InvFacts(s: State)
    requires Inv(s)
    ensures s.ring != [] && s.ring[0] == MAIN && s.current in s.ring && Distinct(s.ring)
    ensures s.current in s.reapSelf ==> Index(s.ring, s.current) > 0
    ensures Reap !in s.ring && Reap !in s.reap && MAIN != Reap
  {
  }

  lemma SoleMember(ring: seq<Node>, head: Node)
    requires ring != [] && Distinct(ring) && ring[0] == head && Succ(ring, 0) == head
    ensures |ring| == 1
  {
  }

  lemma HeadIsFirst(ring: seq<Node>, k: nat)
    requires Distinct(ring) && k < |ring| && ring[k] == ring[0]
    ensures k == 0
  {
  }

  lemma MovedApart(from: seq<Node>, k: nat, to: seq<Node>)
    requires Distinct(from) && k < |from| && to != [] && Disjoint(to, from)
    ensures Disjoint(Removed(from, k), Inserted(to, 0, from[k]))
    ensures Disjoint(Removed(from, k), to + [from[k]])
  {
    RemovedMembers(from, k);
    assert forall x :: x in Inserted(to, 0, from[k]) ==> x in to || x == from[k];
    assert forall x :: x in to + [from[k]] ==> x in to || x == from[k];
  }

  lemma AddedApart(ring: seq<Node>, task: Node, reap: seq<Node>)
    requires Disjoint(ring, [Reap] + reap) && task.Task? && task !in reap
    ensures Disjoint(ring + [task], [Reap] + reap) && Disjoint([Reap] + reap, ring + [task])
  {
  }
}
