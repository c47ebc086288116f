/**
 * The main results about the buddy allocator: every call keeps the invariant, a block is
 * refused only when none exists, bfree undoes bmalloc exactly, and all of this holds over
 * every run.
 */
module BuddyProofs {
  import opened Arithmetic
  import opened BuddyTree
  import opened BuddyModel
  import opened BuddyInvariant

  ghost predicate Tree(s: State) {
    s.booted && TreeInv(s.limit, s.live.Keys, s.split, s.free)
  }

  // ---------------------------------------------------------------- growth

  lemma NothingLive(limit: nat, live: set<nat>)
    requires Placed(limit, live)
    ensures Unused(live, Root(limit)) <==> live == {}
  {
    if live != {} {
      var m :| m in live;
      assert Overlap(Root(limit), m);
    }
  }

  lemma RightOfRootUnused(limit: nat, live: set<nat>)
    requires limit > 0 && Placed(limit, live)
    ensures Unused(live, Sibling(Root(limit)))
  {
    RootFacts(limit);
    SiblingFacts(Root(limit));
    SameLevelDisjoint(Root(limit), Sibling(Root(limit)));
    forall m | m in live ensures !Overlap(Sibling(Root(limit)), m) {
      if Within(Sibling(Root(limit)), m) { WithinLinear(Sibling(Root(limit)), Root(limit), m); }
      if Within(m, Sibling(Root(limit))) { WithinTrans(Root(limit), m, Sibling(Root(limit))); }
    }
  }

  /** The bit of the root's parent records whether anything at all is live. */
  lemma RootBit(s: State)
    requires Tree(s) && s.limit > 0
    ensures RootInUse(s) <==> s.live != map[]
  {
    RootFacts(s.limit);
    NothingLive(s.limit, s.live.Keys);
    RightOfRootUnused(s.limit, s.live.Keys);
    assert s.live != map[] <==> s.live.Keys != {};
    assert !AboveRootParent(s.limit, Root(s.limit - 1)) by { RootFacts(s.limit - 1); }
  }

  lemma PlacedGrows(limit: nat, live: set<nat>)
    requires limit > 0 && Placed(limit, live)
    ensures Placed(limit - 1, live)
  {
    RootFacts(limit);
    forall m | m in live ensures Within(Root(limit - 1), m) {
      assert Within(Root(limit - 1), Root(limit));
      WithinTrans(Root(limit - 1), Root(limit), m);
    }
  }

  lemma EmptyTreeFree(limit: nat, n: nat)
    requires limit <= LAST_BUCKET
    ensures IsFree(limit, {}, n) <==> n == Root(limit)
  {
    RootFacts(limit);
  }

  /** Nothing is live, no bit is set, and the root is the one free block. */
  ghost predicate OneFreeBlock(s: State) {
    s.live == map[] && s.split == {} && s.free == OneBlock(s.limit)
  }

  lemma EmptyTree(s: State)
    requires Tree(s) && s.live == map[]
    ensures OneFreeBlock(s)
  {
    var r := Root(s.limit);
    assert s.live.Keys == {};
    assert forall n: nat :: !ShouldSplit(s.limit, {}, n);
    RootFacts(s.limit);
    forall b | 0 <= b < |s.free| ensures s.free[b] == if b == s.limit then [r] else [] {
      forall n: nat ensures n in s.free[b] <==> b == s.limit && n == r { EmptyTreeFree(s.limit, n); }
      OnlyMember(s.free[b], r);
    }
  }

  lemma OnlyMember(l: seq<nat>, r: nat)
    requires Distinct(l) && forall n | n in l :: n == r
    ensures l == if r in l then [r] else []
  {
    assert l == [] || l[0] in l;
    if |l| > 1 { TwoMembers(l, r); }
  }

  lemma TwoMembers(l: seq<nat>, r: nat)
    requires |l| > 1 && forall n | n in l :: n == r
    ensures !Distinct(l)
  {
    assert l[0] in l && l[1] in l;
  }

  lemma OneBlockTree(limit: nat)
    requires limit <= LAST_BUCKET
    ensures TreeInv(limit, {}, {}, OneBlock(limit))
  {
    assert forall n: nat :: !ShouldSplit(limit, {}, n);
    RootFacts(limit);
    var free := OneBlock(limit);
    forall c, n: nat | 0 <= c < |free|
      ensures n in free[c] <==> Level(n) == c && IsFree(limit, {}, n)
    {
      EmptyTreeFree(limit, n);
    }
  }

  lemma GrowUnusedRoot(s: State, m: nat)
    requires Tree(s) && s.limit > 0 && s.live == map[]
    ensures Tree(GrowOne(s, m))
  {
    hide Root, Level, Placed, BitsExact, IsFree;
    RootBit(s);
    EmptyTree(s);
    OneBlockTree(s.limit - 1);
    assert GrowOne(s, m).free == OneBlock(s.limit - 1);
    assert s.live.Keys == {};
  }

  lemma GrownSplit(limit: nat, live: set<nat>, n: nat)
    requires 0 < limit <= LAST_BUCKET && Placed(limit, live) && live != {}
    ensures ShouldSplit(limit - 1, live, n) <==>
            (ShouldSplit(limit, live, n) != (limit > 1 && n == Root(limit - 2)))
  {
    if AboveRootParent(limit, n) && !AboveRootParent(limit - 1, n) {
      // n is the parent of the new root, which is in use while its buddy is not
      PlacedGrows(limit, live);
      NothingLive(limit - 1, live);
      RightOfRootUnused(limit - 1, live);
      RootFacts(limit - 1);
    } else if limit > 1 && n == Root(limit - 2) {
      RootFacts(limit - 2);
    }
  }

  lemma GrownFree(limit: nat, live: set<nat>, n: nat)
    requires 0 < limit <= LAST_BUCKET && Placed(limit, live) && live != {}
    ensures IsFree(limit - 1, live, n) <==> IsFree(limit, live, n) || n == Root(limit) + 1
    ensures !IsFree(limit, live, Root(limit) + 1)
  {
    hide Placed, Unused, Root;
    var root, up := Root(limit), Root(limit - 1);
    assert up < root && Within(up, root + 1) && !Overlap(root, root + 1) by {
      RootFacts(limit);
      SiblingFacts(root);
      SameLevelDisjoint(root, root + 1);
    }
    if Within(root, n) {
      GrownFreeLeft(limit, live, n);
    } else if Within(root + 1, n) {
      GrownFreeRight(limit, live, n);
    } else if Within(up, n) {
      if n != up { WithinHalves(limit, n); }
      PlacedGrows(limit, live);
      NothingLive(limit - 1, live);
    }
  }

  lemma WithinHalves(limit: nat, n: nat)
    requires limit > 0 && Within(Root(limit - 1), n) && n != Root(limit - 1)
    ensures Within(Root(limit), n) || Within(Root(limit) + 1, n)
  {
    RootFacts(limit);
    WithinChild(Root(limit - 1), n);
  }

  lemma GrownFreeLeft(limit: nat, live: set<nat>, n: nat)
    requires 0 < limit <= LAST_BUCKET && Placed(limit, live) && live != {} && Within(Root(limit), n)
    ensures IsFree(limit - 1, live, n) <==> IsFree(limit, live, n)
    ensures n != Root(limit) + 1
  {
    hide Placed, Unused, Root;
    var root, up := Root(limit), Root(limit - 1);
    assert up < root && Within(up, root) && !Overlap(root, root + 1) by {
      RootFacts(limit);
      SiblingFacts(root);
      SameLevelDisjoint(root, root + 1);
    }
    WithinTrans(up, root, n);
    WithinLevel(root, n);
    NothingLive(limit, live);
  }

  /** In the new right half only the half itself is free. */
  lemma GrownFreeRight(limit: nat, live: set<nat>, n: nat)
    requires 0 < limit <= LAST_BUCKET && Placed(limit, live) && live != {} && Within(Root(limit) + 1, n)
    ensures IsFree(limit - 1, live, n) <==> n == Root(limit) + 1
  {
    hide IsFree, Placed, Root;
    NewRightFree(limit, live);
    if n != Root(limit) + 1 { FreeNotNested(limit - 1, live, Root(limit) + 1, n); }
  }

  /** The new right child is free: unused, under a root that is in use. */
  lemma NewRightFree(limit: nat, live: set<nat>)
    requires 0 < limit <= LAST_BUCKET && Placed(limit, live) && live != {}
    ensures IsFree(limit - 1, live, Root(limit) + 1)
  {
    hide Placed, Root, Unused;
    RootFacts(limit);
    RootFacts(limit - 1);
    SiblingFacts(Root(limit));
    assert Within(Root(limit - 1), Root(limit) + 1);
    RightOfRootUnused(limit, live);
    PlacedGrows(limit, live);
    NothingLive(limit - 1, live);
  }

  /** One free node is never inside another. */
  lemma FreeNotNested(limit: nat, live: set<nat>, a: nat, n: nat)
    requires IsFree(limit, live, a) && Within(a, n) && a != n
    ensures !IsFree(limit, live, n)
  {
    WithinLevel(Root(limit), a);
    WithinLevel(a, n);
    UnusedBelow(live, a, Parent(n));
  }

  lemma TreeShaped(s: State)
    requires Tree(s)
    ensures Shaped(s)
  {
  }

  lemma GrowUsedRoot(s: State, m: nat)
    requires Tree(s) && s.limit > 0 && s.live != map[]
    ensures Tree(GrowOne(s, m)) && RootInUse(s)
  {
    hide TreeInv, Root, FlipGrandparent, Level;
    TreeShaped(s);
    RootBit(s);
    assert s.live.Keys != {};
    var t := GrowOne(s, m);
    assert t.limit == s.limit - 1 && t.live == s.live && t.split == FlipGrandparent(s.split, s.limit);
    assert t.free == Push(s.free, s.limit, Root(s.limit) + 1)[s.limit - 1 := []];
    GrownTree(s.limit, s.live.Keys, s.split, s.free);
  }

  lemma GrownTree(limit: nat, live: set<nat>, split: set<nat>, free: seq<seq<nat>>)
    requires TreeInv(limit, live, split, free) && limit > 0 && live != {}
    ensures TreeInv(limit - 1, live, FlipGrandparent(split, limit),
                    Push(free, limit, Root(limit) + 1)[limit - 1 := []])
  {
    hide Placed, BitsExact, ListsExact, Root, FlipGrandparent;
    PlacedGrows(limit, live);
    GrownBits(limit, live, split);
    GrownLists(limit, live, free);
  }

  lemma GrownBits(limit: nat, live: set<nat>, split: set<nat>)
    requires 0 < limit <= LAST_BUCKET && Placed(limit, live) && live != {} && BitsExact(limit, live, split)
    ensures BitsExact(limit - 1, live, FlipGrandparent(split, limit))
  {
    hide ShouldSplit, FlipGrandparent, Root, Placed;
    var up := limit - 1;
    FlippedBit(split, limit);
    forall n: nat ensures n in FlipGrandparent(split, limit) <==> ShouldSplit(up, live, n) {
      GrownSplit(limit, live, n);
    }
  }

  lemma FlippedBit(split: set<nat>, limit: nat)
    requires limit > 0
    ensures forall n: nat :: n in FlipGrandparent(split, limit) <==> (n in split) != (limit > 1 && n == Root(limit - 2))
  {
    RootFacts(limit);
    RootFacts(limit - 1);
  }

  lemma GrownLists(limit: nat, live: set<nat>, free: seq<seq<nat>>)
    requires 0 < limit <= LAST_BUCKET && Placed(limit, live) && live != {} && ListsExact(limit, live, free)
    ensures ListsExact(limit - 1, live, Push(free, limit, Root(limit) + 1)[limit - 1 := []])
  {
    hide IsFree, Placed, Root, Unused;
    var r := Root(limit) + 1;
    RootFacts(limit);
    SiblingFacts(Root(limit));
    GrownFree(limit, live, r);
    PushMembers(free[limit], r);
    var free' := Push(free, limit, r)[limit - 1 := []];
    forall c, n: nat | 0 <= c < |free'|
      ensures n in free'[c] <==> Level(n) == c && IsFree(limit - 1, live, n)
    {
      GrownFree(limit, live, n);
      if c == limit - 1 { NewRootNotFree(limit, live, n); }
    }
  }

  lemma RightOfRootStart(s: State)
    requires Shaped(s) && s.limit > 0
    ensures Level(Root(s.limit) + 1) == s.limit && Pow2(s.limit) <= Root(s.limit) + 2
    ensures Start(Root(s.limit) + 1) + LIST_ENTRY == GrowthNeeds(s)
  {
    RootFacts(s.limit);
    RootLevel(s.limit);
    SiblingFacts(Root(s.limit));
  }

  lemma NewRootNotFree(limit: nat, live: set<nat>, n: nat)
    requires 0 < limit <= LAST_BUCKET && Placed(limit, live) && live != {}
    ensures !(Level(n) == limit - 1 && IsFree(limit - 1, live, n))
  {
    hide Unused, Placed, Root;
    RootFacts(limit - 1);
    PlacedGrows(limit, live);
    NothingLive(limit - 1, live);
    if Within(Root(limit - 1), n) { WithinLevel(Root(limit - 1), n); }
  }

  lemma GrowOneKeeps(s: State, m: nat)
    requires Tree(s) && s.limit > 0
    ensures Tree(GrowOne(s, m)) && GrowOne(s, m).live == s.live
  {
    if s.live == map[] { GrowUnusedRoot(s, m); } else { GrowUsedRoot(s, m); }
  }

  lemma {:induction false} LowerKeeps(s: State, bucket: nat, brk: Brk)
    requires Tree(s)
    ensures Tree(Lower(s, bucket, brk).0)
    decreases s.limit
  {
    if bucket < s.limit {
      var (ok, m) := Reserve(s.maxPtr, GrowthNeeds(s), brk);
      if ok || !RootInUse(s) {
        GrowOneKeeps(s, m);
        LowerKeeps(GrowOne(s, m), bucket, brk);
      }
    }
  }

  // ---------------------------------------------------------------- the search

  /** An empty list at the root means that the root is in use. */
  lemma EmptyRootList(s: State)
    requires Tree(s) && s.free[s.limit] == []
    ensures s.live != map[]
  {
    RootFacts(s.limit);
    EmptyTreeFree(s.limit, Root(s.limit));
    assert Root(s.limit) !in s.free[s.limit];
  }

  /** Growing by one level when the root is in use puts the new right half on the old root's list. */
  lemma GrowByOne(s: State, brk: Brk)
    requires Shaped(s) && RootInUse(s) && Lower(s, s.limit - 1, brk).1
    ensures var t := Lower(s, s.limit - 1, brk).0;
            Shaped(t) && t.free[s.limit] == s.free[s.limit] + [Root(s.limit) + 1]
  {
    var (ok, m) := Reserve(s.maxPtr, GrowthNeeds(s), brk);
    var t := GrowOne(s, m);
    assert t.limit == s.limit - 1;
    assert Lower(t, s.limit - 1, brk).0 == t;
  }

  /** The second pop, after growing at the root, never yields NULL. */
  lemma GrowAtRoot(s: State, brk: Brk)
    requires Tree(s) && s.limit > 0 && s.free[s.limit] == []
    ensures var f := LocateAtRoot(s, s.limit, brk);
            Tree(f.state) && (f.outcome == Null || f.outcome == Block(Root(s.limit) + 1))
    ensures NeverFails(brk) ==> LocateAtRoot(s, s.limit, brk).outcome.Block?
  {
    EmptyRootList(s);
    LowerKeeps(s, s.limit - 1, brk);
    if NeverFails(brk) { LowerSucceeds(s, s.limit - 1, brk); }
    RootBit(s);
    if Lower(s, s.limit - 1, brk).1 { GrowByOne(s, brk); }
  }

  /** The search keeps the invariant and never meets a NULL block. */
  lemma {:induction false} LocateKeeps(s: State, bucket: nat, brk: Brk)
    requires Tree(s) && bucket <= LAST_BUCKET
    ensures Tree(Locate(s, bucket, brk).state) && Locate(s, bucket, brk).outcome != Fault
    decreases bucket
  {
    LowerShape(s, bucket, brk);
    LowerKeeps(s, bucket, brk);
    var (s1, ok) := Lower(s, bucket, brk);
    if ok && s1.free[bucket] == [] && bucket != 0 {
      if bucket != s1.limit {
        LocateKeeps(s1, bucket - 1, brk);
      } else {
        GrowAtRoot(s1, brk);
      }
    }
  }

  /** An unused node has an ancestor on a free list, if the tree covers it. */
  lemma {:induction false} UnusedAncestor(s: State, n: nat) returns (a: nat)
    requires Tree(s) && Level(n) <= LAST_BUCKET && Within(Root(s.limit), n) && Unused(s.live.Keys, n)
    ensures Within(a, n) && Level(a) <= Level(n) && a in s.free[Level(a)]
  {
    if IsFree(s.limit, s.live.Keys, n) {
      a := n;
    } else {
      assert n != Root(s.limit) && Within(Root(s.limit), Parent(n));
      a := UnusedAncestor(s, Parent(n));
    }
  }

  /** brk grants everything. */
  ghost predicate NeverFails(brk: Brk) {
    forall v: nat :: brk(v)
  }

  lemma {:induction false} LowerSucceeds(s: State, bucket: nat, brk: Brk)
    requires Shaped(s) && NeverFails(brk)
    ensures Lower(s, bucket, brk).1
    decreases s.limit
  {
    if bucket < s.limit {
      var (ok, m) := Reserve(s.maxPtr, GrowthNeeds(s), brk);
      LowerSucceeds(GrowOne(s, m), bucket, brk);
    }
  }

  /** The lists from bucket lo up to hi are empty. */
  ghost predicate EmptyLists(s: State, lo: nat, hi: nat) {
    forall b | lo <= b <= hi && b < |s.free| :: s.free[b] == []
  }

  /** If brk never fails, the search gives up only at the largest root with nothing on its lists. */
  lemma {:induction false} LocateNull(s: State, bucket: nat, ob: nat, brk: Brk)
    requires Tree(s) && bucket <= ob <= LAST_BUCKET && NeverFails(brk)
    requires EmptyLists(s, bucket + 1, ob) && (bucket < ob ==> s.limit <= bucket)
    ensures var f := Locate(s, bucket, brk);
            f.outcome == Null ==> f.state.limit == 0 && EmptyLists(f.state, 0, ob)
    decreases bucket
  {
    LowerShape(s, bucket, brk);
    LowerSucceeds(s, bucket, brk);
    LowerKeeps(s, bucket, brk);
    var (s1, ok) := Lower(s, bucket, brk);
    if s1.free[bucket] == [] && bucket != 0 {
      if bucket != s1.limit {
        LocateNull(s1, bucket - 1, ob, brk);
      } else {
        GrowAtRoot(s1, brk);
      }
    }
  }

  lemma NullMeansNone(s: State, ob: nat, brk: Brk, n: nat)
    requires Tree(s) && NeverFails(brk) && ob <= LAST_BUCKET
    requires Locate(s, ob, brk).outcome == Null && Level(n) == ob
    ensures !Unused(s.live.Keys, n)
  {
    LocateKeeps(s, ob, brk);
    LocateShape(s, ob, brk);
    LocateNull(s, ob, ob, brk);
    var f := Locate(s, ob, brk);
    ZeroContainsAll(n);
    if Unused(f.state.live.Keys, n) {
      var a := UnusedAncestor(f.state, n);
    }
  }

  lemma FoundMeansSome(s: State, ob: nat, brk: Brk) returns (n: nat)
    requires Tree(s) && ob <= LAST_BUCKET && Locate(s, ob, brk).outcome != Null
    ensures Level(n) == ob && Unused(s.live.Keys, n)
  {
    LocateKeeps(s, ob, brk);
    LocateShape(s, ob, brk);
    var f := Locate(s, ob, brk);
    var i := f.outcome.node;
    assert i in f.state.free[f.bucket];
    LeftmostFacts(i, f.bucket, ob);
    n := Leftmost(i, f.bucket, ob);
    UnusedBelow(s.live.Keys, i, n);
  }

  lemma AllocateNull(s: State, request: Word, ob: nat, brk: Brk)
    requires Tree(s) && ob <= LAST_BUCKET && NeverFails(brk)
    ensures Allocate(s, request, ob, brk).1 == Null <==> Locate(s, ob, brk).outcome == Null
  {
    LocateKeeps(s, ob, brk);
    LocateShape(s, ob, brk);
    var f := Locate(s, ob, brk);
    if f.outcome.Block? {
      assert f.outcome.node in f.state.free[f.bucket];
      LevelRange(f.outcome.node);
    }
  }

  /**
   * With a kernel that never refuses memory, bmalloc returns NULL exactly when the request
   * is too large or no aligned block of the needed size is unused in the whole range.
   */
  lemma MallocComplete(s: State, request: Word, brk: Brk)
    requires Inv(s) && NeverFails(brk)
    ensures Malloc(s, request, brk).1 == Null <==>
            Need(request) > Size(0) ||
            forall n: nat | Level(n) == BucketFor(Need(request)) :: !Unused(s.live.Keys, n)
  {
    if Need(request) <= Size(0) {
      var t, ob := Boot(s, brk), BucketFor(Need(request));
      BootKeeps(s, brk);
      AllocateNull(t, request, ob, brk);
      if Locate(t, ob, brk).outcome == Null {
        forall n: nat | Level(n) == ob ensures !Unused(s.live.Keys, n) {
          NullMeansNone(t, ob, brk, n);
        }
      } else {
        var n := FoundMeansSome(t, ob, brk);
      }
    }
  }

  lemma {:induction false} LeftmostFacts(i: nat, b: nat, ob: nat)
    requires Level(i) == b <= ob
    ensures Level(Leftmost(i, b, ob)) == ob && Within(i, Leftmost(i, b, ob))
    decreases ob - b
  {
    if b < ob {
      ChildFacts(i);
      LeftmostFacts(Left(i), b + 1, ob);
      WithinTrans(i, Left(i), Leftmost(Left(i), b + 1, ob));
    }
  }

  lemma InitialTree(brk: Brk)
    ensures Tree(Initial(brk)) && Initial(brk).live == map[]
  {
    OneBlockTree(LAST_BUCKET);
  }

  lemma BootKeeps(s: State, brk: Brk)
    requires Inv(s)
    ensures Tree(Boot(s, brk)) && RequestsFit(Boot(s, brk).live) && Boot(s, brk).live == s.live
  {
    if !s.booted { InitialTree(brk); }
  }
}
