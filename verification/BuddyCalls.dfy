/** What one bmalloc or one bfree does: the invariant is kept, memory is granted, and bfree undoes bmalloc. */
module BuddyCalls {
  import opened Arithmetic
  import opened BuddyTree
  import opened BuddyModel
  import opened BuddyInvariant
  import opened BuddyProofs

  // ---------------------------------------------------------------- splitting and merging

  lemma {:induction false} CarveKeeps(s: State, live: set<nat>, i: nat, b: nat, ob: nat)
    requires Shaped(s) && Level(i) == b <= ob <= LAST_BUCKET && i !in live
    requires TreeInv(s.limit, live + {i}, s.split, s.free)
    ensures var t, j := Carve(s, i, b, ob), Leftmost(i, b, ob);
            && t == s.(split := t.split, free := t.free) && Shaped(t) && j !in live
            && TreeInv(t.limit, live + {j}, t.split, t.free)
    decreases ob - b
  {
    if b < ob {
      CarveStep(s.limit, live, s.split, s.free, i);
      ChildFacts(i);
      CarveKeeps(s.(split := Flip(s.split, i), free := Push(s.free, b + 1, Right(i))), live, Left(i), b + 1, ob);
    }
  }

  /** bfree's loop stops where it has to: at the root, or next to a buddy that is in use. */
  lemma ReleaseStops(s: State, live: set<nat>, i: nat)
    requires TreeInv(s.limit, live + {i}, s.split, s.free) && i !in live
    ensures Level(i) <= LAST_BUCKET
    ensures i == 0 || Parent(i) in FlipParent(s.split, i) || Level(i) == s.limit ==>
              i == Root(s.limit) || (i > 0 && !Unused(live + {i}, Sibling(i)))
    ensures i != 0 && Parent(i) !in FlipParent(s.split, i) && Level(i) != s.limit ==>
              i != Root(s.limit) && Unused(live + {i}, Sibling(i))
  {
    assert i in live + {i};
    WithinLevel(Root(s.limit), i);
    RootFacts(s.limit);
    if i != 0 && i != Root(s.limit) {
      ParentBit(s.limit, live + {i}, s.split, s.free, i);
    }
  }

  ghost predicate Stops(s: State, i: nat) {
    i == 0 || Parent(i) in FlipParent(s.split, i) || Level(i) == s.limit
  }

  /** The state after one round of merging in bfree. */
  ghost function Merged(s: State, i: nat): State
    requires Shaped(s) && Level(i) <= LAST_BUCKET && i > 0
  {
    s.(split := FlipParent(s.split, i), free := Remove(s.free, Level(i), Sibling(i)))
  }

  lemma ReleaseUnfold(s: State, i: nat)
    requires Shaped(s) && Level(i) <= LAST_BUCKET && !Stops(s, i)
    ensures Release(s, i, Level(i)) == Release(Merged(s, i), Parent(i), Level(i) - 1)
  {
  }

  lemma ReleaseFinal(s: State, live: set<nat>, i: nat)
    requires TreeInv(s.limit, live + {i}, s.split, s.free) && i !in live && Stops(s, i)
    ensures Level(i) <= LAST_BUCKET
    ensures TreeInv(s.limit, live, FlipParent(s.split, i), Push(s.free, Level(i), i))
    ensures i !in s.free[Level(i)]
  {
    ReleaseStops(s, live, i);
    Vacate(s.limit, live, s.split, s.free, i);
  }

  /** Where bfree merges, the buddy it removes blindly really is on its bucket's list. */
  lemma ReleaseMerges(s: State, live: set<nat>, i: nat)
    requires TreeInv(s.limit, live + {i}, s.split, s.free) && i !in live && !Stops(s, i)
    ensures Level(i) <= LAST_BUCKET && Sibling(i) in s.free[Level(i)]
    ensures Parent(i) !in live && Level(Parent(i)) == Level(i) - 1
    ensures TreeInv(s.limit, live + {Parent(i)}, FlipParent(s.split, i), Remove(s.free, Level(i), Sibling(i)))
  {
    ReleaseStops(s, live, i);
    MergeStep(s.limit, live, s.split, s.free, i);
  }

  lemma {:induction false} ReleaseKeeps(s: State, live: set<nat>, i: nat, b: nat)
    requires Shaped(s) && Level(i) == b <= LAST_BUCKET && i !in live
    requires TreeInv(s.limit, live + {i}, s.split, s.free)
    ensures var t := Release(s, i, b);
            && t == s.(split := t.split, free := t.free) && Shaped(t)
            && TreeInv(t.limit, live, t.split, t.free)
    decreases b
  {
    if Stops(s, i) {
      ReleaseFinal(s, live, i);
    } else {
      ReleaseMerges(s, live, i);
      ReleaseKeeps(s.(split := FlipParent(s.split, i), free := Remove(s.free, b, Sibling(i))), live, Parent(i), b - 1);
    }
  }

  // ---------------------------------------------------------------- bmalloc

  /** Popping a free block leaves a tree in which that block counts as live. */
  lemma PopKeeps(s: State, b: nat)
    requires Tree(s) && b <= LAST_BUCKET && s.free[b] != []
    ensures var i := Last(s.free[b]);
            && TreeInv(s.limit, s.live.Keys + {i}, FlipParent(s.split, i), Pop(s.free, b))
            && Level(i) == b && i !in s.live && Pow2(b) <= i + 1
            && Push(Pop(s.free, b), b, i) == s.free
  {
    var l := s.free[b];
    var i := Last(l);
    assert l == l[..|l| - 1] + [i];
    assert i in l;
    WithoutLast(l[..|l| - 1], i);
    Occupy(s.limit, s.live.Keys, s.split, s.free, b, i);
    LevelRange(i);
  }

  /**
   * A call either leaves the live blocks alone, having done nothing but grow the tree, or
   * makes exactly one new block of the right bucket live.
   */
  lemma AllocateKeeps(s: State, request: Word, ob: nat, brk: Brk)
    requires Tree(s) && ob <= LAST_BUCKET
    ensures var (t, r) := Allocate(s, request, ob, brk);
            && Tree(t) && r != Fault
            && (r == Null ==> t == Locate(s, ob, brk).state && t.live == s.live)
            && (r.Block? ==> r.node !in s.live && Level(r.node) == ob && t.live == s.live[r.node := request])
  {
    LocateKeeps(s, ob, brk);
    LocateShape(s, ob, brk);
    var f := Locate(s, ob, brk);
    if f.outcome.Block? {
      var g, b, i := f.state, f.bucket, f.outcome.node;
      PopKeeps(g, b);
      TakeKeeps(g, b, ob, request, brk);
    }
  }

  lemma TakeKeeps(g: State, b: nat, ob: nat, request: Word, brk: Brk)
    requires Tree(g) && b <= ob <= LAST_BUCKET && g.free[b] != []
    requires Pow2(b) <= Last(g.free[b]) + 1
    ensures var (t, r) := Take(g, b, ob, request, brk);
            && Tree(t) && r != Fault
            && (r == Null ==> t == g)
            && (r.Block? ==> r.node !in g.live && Level(r.node) == ob && t.live == g.live[r.node := request])
  {
    if Take(g, b, ob, request, brk).1.Block? {
      var m := TakeIsTaken(g, b, ob, request, brk);
      CarveTaken(g, b, ob, request, m);
    } else {
      PopKeeps(g, b);
    }
  }

  lemma CarveTaken(g: State, b: nat, ob: nat, request: Word, m: nat)
    requires Tree(g) && b <= ob <= LAST_BUCKET && g.free[b] != []
    ensures var i := Last(g.free[b]);
            var j := Leftmost(i, b, ob);
            var t := Taken(g, b, ob, request, m);
            && Tree(t) && t.live == g.live[j := request] && t.maxPtr == m && t.limit == g.limit
            && j !in g.live && Level(j) == ob
  {
    PopKeeps(g, b);
    var i := Last(g.free[b]);
    var j := Leftmost(i, b, ob);
    var s0 := g.(free := Pop(g.free, b), maxPtr := m, split := FlipParent(g.split, i), live := g.live[j := request]);
    CarveKeeps(s0, g.live.Keys, i, b, ob);
    LeftmostFacts(i, b, ob);
    assert s0.live.Keys == g.live.Keys + {j};
  }

  lemma MallocKeeps(s: State, request: Word, brk: Brk)
    requires Inv(s)
    ensures var (t, r) := Malloc(s, request, brk);
            && Inv(t) && r != Fault
            && (r == Null ==> t.live == s.live)
            && (r.Block? ==> r.node !in s.live && t.live == s.live[r.node := request])
  {
    if Need(request) <= Size(0) {
      BootKeeps(s, brk);
      AllocateKeeps(Boot(s, brk), request, BucketFor(Need(request)), brk);
    }
  }

  // ---------------------------------------------------------------- bfree

  lemma FreeKeeps(s: State, i: nat)
    requires Inv(s) && s.booted && i in s.live
    ensures Level(i) <= LAST_BUCKET && Inv(Free(s, i)) && Free(s, i).booted
    ensures Free(s, i).live == s.live - {i}
  {
    var live := s.live.Keys - {i};
    assert live + {i} == s.live.Keys;
    var s0 := s.(live := s.live - {i});
    assert s0.live.Keys == live;
    ReleaseKeeps(s0, live, i, Level(i));
  }

  // ---------------------------------------------------------------- bfree undoes bmalloc

  lemma {:induction false} CarveRelease(s: State, live: set<nat>, i: nat, b: nat, ob: nat)
    requires Shaped(s) && Level(i) == b <= ob <= LAST_BUCKET && i !in live
    requires TreeInv(s.limit, live + {i}, s.split, s.free)
    ensures Shaped(Carve(s, i, b, ob)) && Level(Leftmost(i, b, ob)) == ob
    ensures Release(Carve(s, i, b, ob), Leftmost(i, b, ob), ob) == Release(s, i, b)
    decreases ob - b
  {
    if b < ob {
      var s1 := s.(split := Flip(s.split, i), free := Push(s.free, b + 1, Right(i)));
      CarveStep(s.limit, live, s.split, s.free, i);
      ChildFacts(i);
      CarveRelease(s1, live, Left(i), b + 1, ob);
      CarveUndone(s, live, i);
      ReleaseUnfold(s1, Left(i));
    }
  }

  /** One step of merging takes back one step of splitting. */
  lemma CarveUndone(s: State, live: set<nat>, i: nat)
    requires Shaped(s) && Level(i) < LAST_BUCKET && i !in live && Level(Left(i)) == Level(i) + 1
    requires TreeInv(s.limit, live + {i}, s.split, s.free) && Right(i) !in s.free[Level(i) + 1]
    ensures var s1 := s.(split := Flip(s.split, i), free := Push(s.free, Level(i) + 1, Right(i)));
            !Stops(s1, Left(i)) && Parent(Left(i)) == i && Merged(s1, Left(i)) == s
  {
    hide TreeInv, Root, Push, Remove;
    assert i !in s.split && s.limit <= Level(i) && Distinct(s.free[Level(i) + 1]) by { CarvedBlock(s, live, i); }
    assert Flip(Flip(s.split, i), i) == s.split;
    ChildFacts(i);
    SiblingFacts(Left(i));
    PushedRemoved(s.free, Level(i) + 1, Right(i));
  }

  lemma CarvedBlock(s: State, live: set<nat>, i: nat)
    requires Shaped(s) && Level(i) < LAST_BUCKET && TreeInv(s.limit, live + {i}, s.split, s.free)
    ensures i !in s.split && s.limit <= Level(i) && Distinct(s.free[Level(i) + 1])
  {
    hide ShouldSplit, Root;
    assert i in live + {i};
    LiveNotSplit(s.limit, live + {i}, i);
    WithinLevel(Root(s.limit), i);
    RootFacts(s.limit);
  }

  /** Removing the entry that was just pushed restores the lists, order included. */
  lemma PushedRemoved(free: seq<seq<nat>>, b: nat, x: nat)
    requires b < |free| && Distinct(free[b]) && x !in free[b]
    ensures Remove(Push(free, b, x), b, x) == free
  {
    PushMembers(free[b], x);
    WithoutLast(free[b], x);
  }

  lemma LiveNotSplit(limit: nat, live: set<nat>, i: nat)
    requires i in live
    ensures !ShouldSplit(limit, live, i)
  {
    ChildFacts(i);
    assert Overlap(Left(i), i) && Overlap(Right(i), i);
  }

  /**
   * bmalloc followed by bfree of its result leaves the split bits and the free lists, in
   * order, exactly as growing the tree to some bucket c would have; only max_ptr may differ.
   */
  lemma MallocThenFree(s: State, request: Word, brk: Brk) returns (c: nat)
    requires Inv(s) && Malloc(s, request, brk).1.Block?
    ensures c <= LAST_BUCKET
    ensures var (t, r) := Malloc(s, request, brk);
            && Inv(t) && t.booted && Level(r.node) <= LAST_BUCKET && Shaped(Boot(s, brk))
            && Free(t, r.node) == Lower(Boot(s, brk), c, brk).0.(maxPtr := t.maxPtr)
  {
    hide Locate, Lower;
    MallocKeeps(s, request, brk);
    BootKeeps(s, brk);
    AllocateThenFree(Boot(s, brk), request, BucketFor(Need(request)), brk);
    c := LocateIsGrowth(Boot(s, brk), BucketFor(Need(request)), brk);
  }

  /** Growing to b and then to c is growing to c. */
  lemma {:induction false} LowerTwice(s: State, b: nat, c: nat, brk: Brk)
    requires Shaped(s) && c <= b && Lower(s, b, brk).1
    ensures Shaped(Lower(s, b, brk).0) && Lower(Lower(s, b, brk).0, c, brk) == Lower(s, c, brk)
    decreases s.limit
  {
    if s.limit <= b {
      assert Lower(s, b, brk).0 == s;
    } else {
      LowerShape(s, b, brk);
      var (ok, m) := Reserve(s.maxPtr, GrowthNeeds(s), brk);
      LowerTwice(GrowOne(s, m), b, c, brk);
    }
  }

  /** The search for a block does to the tree what growth alone does. */
  lemma {:induction false} LocateIsGrowth(s: State, bucket: nat, brk: Brk) returns (c: nat)
    requires Shaped(s) && bucket <= LAST_BUCKET
    ensures c <= bucket && Locate(s, bucket, brk).state == Lower(s, c, brk).0
    decreases bucket
  {
    hide Lower;
    LowerShape(s, bucket, brk);
    var (s1, ok) := Lower(s, bucket, brk);
    if ok && s1.free[bucket] == [] && bucket > 0 {
      if bucket != s1.limit {
        c := LocateIsGrowth(s1, bucket - 1, brk);
      } else {
        c := bucket - 1;
      }
      LowerTwice(s, bucket, c, brk);
    } else {
      c := bucket;
    }
  }

  lemma AllocateThenFree(s: State, request: Word, ob: nat, brk: Brk)
    requires Tree(s) && ob <= LAST_BUCKET && Allocate(s, request, ob, brk).1.Block?
    ensures var (t, r) := Allocate(s, request, ob, brk);
            && Shaped(t) && t.booted && Level(r.node) == ob
            && Free(t, r.node) == Locate(s, ob, brk).state.(maxPtr := t.maxPtr)
  {
    LocateKeeps(s, ob, brk);
    LocateShape(s, ob, brk);
    var f := Locate(s, ob, brk);
    TakeThenFree(f.state, f.bucket, ob, request, brk);
  }

  lemma TakeThenFree(g: State, b: nat, ob: nat, request: Word, brk: Brk)
    requires Tree(g) && b <= ob <= LAST_BUCKET && g.free[b] != [] && Pow2(b) <= Last(g.free[b]) + 1
    requires Take(g, b, ob, request, brk).1.Block?
    ensures var (t, r) := Take(g, b, ob, request, brk);
            Shaped(t) && t.booted && Level(r.node) == ob && Free(t, r.node) == g.(maxPtr := t.maxPtr)
  {
    var m := TakeIsTaken(g, b, ob, request, brk);
    TakenThenFreed(g, b, ob, request, m);
  }

  lemma TakeIsTaken(g: State, b: nat, ob: nat, request: Word, brk: Brk) returns (m: nat)
    requires Shaped(g) && b <= ob <= LAST_BUCKET && g.free[b] != [] && Pow2(b) <= Last(g.free[b]) + 1
    requires Take(g, b, ob, request, brk).1.Block?
    ensures Take(g, b, ob, request, brk) == (Taken(g, b, ob, request, m), Block(Leftmost(Last(g.free[b]), b, ob)))
  {
    m := Reserve(g.maxPtr, PtrForNode(Last(g.free[b]), b) + BytesNeeded(b, ob), brk).1;
  }

  lemma TakenThenFreed(g: State, b: nat, ob: nat, request: Word, m: nat)
    requires Tree(g) && b <= ob <= LAST_BUCKET && g.free[b] != []
    ensures var i := Last(g.free[b]);
            var j := Leftmost(i, b, ob);
            var t := Taken(g, b, ob, request, m);
            Shaped(t) && t.booted && Level(j) == ob && t.maxPtr == m && Free(t, j) == g.(maxPtr := m)
  {
    CarveTaken(g, b, ob, request, m);
    PopKeeps(g, b);
    var i := Last(g.free[b]);
    var j := Leftmost(i, b, ob);
    var s1 := g.(free := Pop(g.free, b), maxPtr := m, split := FlipParent(g.split, i));
    var s0 := s1.(live := g.live[j := request]);
    assert g.live[j := request] - {j} == g.live;
    CarveFrame(s0, i, b, ob, g.live);
    CarveRelease(s1, g.live.Keys, i, b, ob);
    ReleaseLast(g.(maxPtr := m), b);
  }

  lemma {:induction false} CarveFrame(s: State, i: nat, b: nat, ob: nat, live: map<nat, Word>)
    requires Shaped(s) && b <= ob <= LAST_BUCKET
    ensures Carve(s, i, b, ob).(live := live) == Carve(s.(live := live), i, b, ob)
    ensures Carve(s, i, b, ob).maxPtr == s.maxPtr && Carve(s, i, b, ob).live == s.live
    decreases ob - b
  {
    if b < ob {
      CarveFrame(s.(split := Flip(s.split, i), free := Push(s.free, b + 1, Right(i))), Left(i), b + 1, ob, live);
    }
  }

  /** Releasing a block just popped pushes it back where it was. */
  lemma ReleaseLast(g: State, b: nat)
    requires Tree(g) && b <= LAST_BUCKET && g.free[b] != []
    ensures var i := Last(g.free[b]);
            && Level(i) == b
            && Release(g.(free := Pop(g.free, b), split := FlipParent(g.split, i)), i, b) == g
  {
    PopKeeps(g, b);
    var i := Last(g.free[b]);
    assert i in g.free[b];
    assert FlipParent(FlipParent(g.split, i), i) == g.split;
    if i != 0 && b != g.limit {
      RootFacts(g.limit);
      SiblingFacts(i);
      var p := Parent(i);
      assert Parent(i) in g.split by {
        FreeBuddyInUse(g.limit, g.live.Keys, i);
        WithinLevel(Root(g.limit), p);
      }
    }
    assert g.(free := Push(Pop(g.free, b), b, i), split := g.split) == g;
  }

  /** Two buddies are never both unused below the root: the buddy of a free block is in use. */
  lemma FreeBuddyInUse(limit: nat, live: set<nat>, i: nat)
    requires IsFree(limit, live, i) && i > 0 && i != Root(limit)
    ensures !Unused(live, Sibling(i))
  {
    var m :| m in live && Overlap(Parent(i), m);
    OverlapParent(m, i);
    assert !Overlap(i, m);
    assert Within(Sibling(i), m);
    assert Overlap(Sibling(i), m);
  }
}
