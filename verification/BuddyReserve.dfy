/** How much memory bmalloc asks for: never more than what it is about to use. */
module BuddyReserve {
  import opened Arithmetic
  import opened BuddyTree
  import opened BuddyModel
  import opened BuddyInvariant
  import opened BuddyProofs
  import opened BuddyCalls
  import opened BuddyGuard

  predicate Listed(free: seq<seq<nat>>, n: nat) {
    Level(n) <= LAST_BUCKET && Level(n) < |free| && n in free[Level(n)]
  }

  /** Address m is the end of the list entry of some free block. */
  ghost predicate EntryEnds(free: seq<seq<nat>>, m: nat) {
    exists n: nat :: Listed(free, n) && Start(n) + LIST_ENTRY == m
  }

  /** Address m is the end of some live block. */
  ghost predicate BlockEnds(live: map<nat, Word>, m: nat) {
    exists n: nat :: n in live && Level(n) <= LAST_BUCKET && End(n) == m
  }

  /** max_ptr is what it was, or just covers the list entry of a free block. */
  ghost predicate Peak(s: State, before: nat) {
    s.maxPtr == before || EntryEnds(s.free, s.maxPtr)
  }

  ghost predicate Used(s: State, before: nat) {
    s.maxPtr == before || EntryEnds(s.free, s.maxPtr) || BlockEnds(s.live, s.maxPtr)
  }

  // ---------------------------------------------------------------- growth

  lemma ListedInTree(s: State, n: nat)
    requires Tree(s) && Listed(s.free, n)
    ensures s.limit <= Level(n)
  {
    hide Root, Unused;
    assert IsFree(s.limit, s.live.Keys, n);
    WithinLevel(Root(s.limit), n);
    RootLevel(s.limit);
  }

  lemma GrowUsedPeak(s: State, m: nat, before: nat)
    requires Tree(s) && s.limit > 0 && RootInUse(s) && Peak(s, before)
    requires Shaped(s) && (m == s.maxPtr || m == GrowthNeeds(s))
    ensures Peak(GrowOne(s, m), before)
  {
    hide TreeInv, Start, Level, FlipGrandparent, GrowthNeeds, Root;
    var r, up := Root(s.limit) + 1, s.limit - 1;
    RightOfRootStart(s);
    var t := GrowOne(s, m);
    assert t.free == Push(s.free, s.limit, r)[up := []] && t.maxPtr == m;
    assert r in t.free[s.limit];
    if m == GrowthNeeds(s) {
      assert Listed(t.free, r);
    } else if m != before {
      var n: nat :| Listed(s.free, n) && Start(n) + LIST_ENTRY == s.maxPtr;
      ListedInTree(s, n);
      assert Listed(t.free, n);
    }
  }

  lemma GrowUnusedPeak(s: State, m: nat, before: nat)
    requires Tree(s) && s.limit > 0 && !RootInUse(s) && Peak(s, before)
    ensures Shaped(s) && Peak(GrowOne(s, m), before)
  {
    hide Start, Level, Root;
    var up := s.limit - 1;
    RootBit(s);
    EmptyTree(s);
    var t := GrowOne(s, m);
    assert t.maxPtr == s.maxPtr && t.free[up] == [Root(up)];
    if s.maxPtr != before {
      var n: nat :| Listed(s.free, n) && Start(n) + LIST_ENTRY == s.maxPtr;
      assert n == Root(s.limit);
      RootBlock(s.limit);
      RootBlock(up);
      assert Listed(t.free, Root(up));
    }
  }

  lemma {:induction false} LowerPeak(s: State, bucket: nat, brk: Brk, before: nat)
    requires Tree(s) && Peak(s, before)
    ensures Shaped(s) && Peak(Lower(s, bucket, brk).0, before)
    decreases s.limit
  {
    hide TreeInv, Peak, GrowOne;
    TreeShaped(s);
    if bucket < s.limit {
      var (ok, m) := Reserve(s.maxPtr, GrowthNeeds(s), brk);
      if ok || !RootInUse(s) {
        GrowOneKeeps(s, m);
        if RootInUse(s) { GrowUsedPeak(s, m, before); } else { GrowUnusedPeak(s, m, before); }
        GrowSmaller(s, m);
        LowerPeak(GrowOne(s, m), bucket, brk, before);
      }
    } else {
      assert Lower(s, bucket, brk).0 == s;
    }
  }

  lemma GrowSmaller(s: State, m: nat)
    requires Shaped(s) && s.limit > 0
    ensures GrowOne(s, m).limit < s.limit
  {
  }

  lemma {:induction false} LocatePeak(s: State, bucket: nat, brk: Brk, before: nat)
    requires Tree(s) && Peak(s, before) && bucket <= LAST_BUCKET
    ensures Shaped(s) && Peak(Locate(s, bucket, brk).state, before)
    decreases bucket
  {
    hide TreeInv, Peak, Lower;
    TreeShaped(s);
    LowerShape(s, bucket, brk);
    LowerKeeps(s, bucket, brk);
    LowerPeak(s, bucket, brk, before);
    var (s1, ok) := Lower(s, bucket, brk);
    if ok && s1.free[bucket] == [] && bucket != 0 {
      if bucket != s1.limit {
        LocatePeak(s1, bucket - 1, brk, before);
      } else {
        LowerPeak(s1, bucket - 1, brk, before);
      }
    }
  }

  // ---------------------------------------------------------------- the block taken

  /** What was on a list stays there while other blocks are split. */
  lemma {:induction false} CarveListed(s: State, i: nat, b: nat, ob: nat, n: nat)
    requires Shaped(s) && Level(i) == b <= ob <= LAST_BUCKET && Listed(s.free, n)
    ensures Shaped(Carve(s, i, b, ob)) && Listed(Carve(s, i, b, ob).free, n)
    decreases ob - b
  {
    hide Level;
    if b < ob {
      ChildFacts(i);
      CarveListed(s.(split := Flip(s.split, i), free := Push(s.free, b + 1, Right(i))), Left(i), b + 1, ob, n);
    } else {
      assert Carve(s, i, b, ob) == s;
    }
  }

  /** The right half of the block that is split first ends up on a list. */
  lemma RightHalfListed(s: State, i: nat, b: nat, ob: nat)
    requires Shaped(s) && Level(i) == b < ob <= LAST_BUCKET
    ensures Listed(Carve(s, i, b, ob).free, Right(i))
  {
    hide Level;
    ChildFacts(i);
    var s1 := s.(split := Flip(s.split, i), free := Push(s.free, b + 1, Right(i)));
    assert Right(i) in s1.free[b + 1];
    assert Listed(s1.free, Right(i));
    CarveListed(s1, Left(i), b + 1, ob, Right(i));
  }

  /** What popping a list leaves of it. */
  lemma PopListed(s: State, b: nat, n: nat)
    requires Tree(s) && b <= LAST_BUCKET && s.free[b] != [] && Listed(s.free, n) && n != Last(s.free[b])
    ensures Listed(Pop(s.free, b), n)
  {
    hide Level;
    var l := s.free[b];
    assert l == l[..|l| - 1] + [Last(l)];
  }

  lemma TakenPeak(g: State, b: nat, ob: nat, request: Word, m: nat, before: nat)
    requires Tree(g) && b <= ob <= LAST_BUCKET && g.free[b] != [] && Pow2(b) <= Last(g.free[b]) + 1
    requires Peak(g, before)
    requires var v := PtrForNode(Last(g.free[b]), b) + BytesNeeded(b, ob);
      if v <= g.maxPtr then m == g.maxPtr else m == v
    ensures Used(Taken(g, b, ob, request, m), before)
  {
    hide TreeInv, Start, Level, Carve, PtrForNode, Size, Pow2, Leftmost;
    TreeShaped(g);
    CarveTaken(g, b, ob, request, m);
    PopKeeps(g, b);
    var i := Last(g.free[b]);
    var t, v := Taken(g, b, ob, request, m), PtrForNode(i, b) + BytesNeeded(b, ob);
    StartIs(i);
    if m == v {
      NewPeak(g, b, ob, request, m);
    } else if m != before {
      var n: nat :| Listed(g.free, n) && Start(n) + LIST_ENTRY == m;
      if n == i {
        SmallestTaken(b, ob);
        NewPeak(g, b, ob, request, m);
      } else {
        PopListed(g, b, n);
        OldPeak(g, b, ob, request, m, n);
      }
    }
  }

  lemma StartIs(i: nat)
    requires Level(i) <= LAST_BUCKET
    ensures Pow2(Level(i)) <= i + 1 && Start(i) == PtrForNode(i, Level(i))
  {
    LevelRange(i);
  }

  lemma SmallestTaken(b: nat, ob: nat)
    requires b <= ob <= LAST_BUCKET
    ensures BytesNeeded(b, ob) >= LIST_ENTRY
  {
    SmallestBlock(b);
  }

  /** A reservation that was made for the block ends with the block, or with the entry of its right half. */
  lemma NewPeak(g: State, b: nat, ob: nat, request: Word, m: nat)
    requires Tree(g) && b <= ob <= LAST_BUCKET && g.free[b] != []
    requires Level(Last(g.free[b])) == b && m == Start(Last(g.free[b])) + BytesNeeded(b, ob)
    ensures var t := Taken(g, b, ob, request, m); EntryEnds(t.free, m) || BlockEnds(t.live, m)
  {
    hide TreeInv, Start, Level, Listed, Pow2;
    TreeShaped(g);
    var i := Last(g.free[b]);
    CarveTaken(g, b, ob, request, m);
    var t := Taken(g, b, ob, request, m);
    if b == ob {
      assert Leftmost(i, b, ob) == i;
      assert i in t.live && End(i) == m;
    } else {
      ChildBlocks(i);
      RightHalfListed(g.(free := Pop(g.free, b), maxPtr := m, split := FlipParent(g.split, i),
                         live := g.live[Leftmost(i, b, ob) := request]), i, b, ob);
      assert Listed(t.free, Right(i)) && Start(Right(i)) + LIST_ENTRY == m;
    }
  }

  lemma OldPeak(g: State, b: nat, ob: nat, request: Word, m: nat, n: nat)
    requires Tree(g) && b <= ob <= LAST_BUCKET && g.free[b] != [] && Level(Last(g.free[b])) == b
    requires Listed(Pop(g.free, b), n) && Level(n) <= LAST_BUCKET && Start(n) + LIST_ENTRY == m
    ensures EntryEnds(Taken(g, b, ob, request, m).free, m)
  {
    hide TreeInv, Start, Level, Listed, Pow2;
    TreeShaped(g);
    var i := Last(g.free[b]);
    CarveListed(g.(free := Pop(g.free, b), maxPtr := m, split := FlipParent(g.split, i),
                   live := g.live[Leftmost(i, b, ob) := request]), i, b, ob, n);
  }

  /** One reservation for a block on list b, granted or refused. */
  lemma TakePeak(g: State, b: nat, ob: nat, request: Word, brk: Brk, before: nat)
    requires Tree(g) && b <= ob <= LAST_BUCKET && g.free[b] != [] && Pow2(b) <= Last(g.free[b]) + 1
    requires Peak(g, before)
    ensures Shaped(g) && Used(Take(g, b, ob, request, brk).0, before)
  {
    hide TreeInv, Taken, PtrForNode, BytesNeeded, Pow2, EntryEnds, BlockEnds;
    TreeShaped(g);
    var l, v := g.free[b], PtrForNode(Last(g.free[b]), b) + BytesNeeded(b, ob);
    assert l == l[..|l| - 1] + [Last(l)];
    var (ok, m) := Reserve(g.maxPtr, v, brk);
    if ok {
      TakenPeak(g, b, ob, request, m, before);
    } else {
      assert Push(Pop(g.free, b), b, Last(l)) == g.free;
    }
  }

  lemma AllocatePeak(s: State, request: Word, ob: nat, brk: Brk, before: nat)
    requires Tree(s) && ob <= LAST_BUCKET && Peak(s, before)
    ensures Shaped(s) && Used(Allocate(s, request, ob, brk).0, before)
  {
    hide TreeInv, Locate, Take, EntryEnds, BlockEnds, Pow2;
    TreeShaped(s);
    LocateShape(s, ob, brk);
    LocateKeeps(s, ob, brk);
    LocatePeak(s, ob, brk, before);
    var f := Locate(s, ob, brk);
    if f.outcome.Block? && Pow2(f.bucket) <= f.outcome.node + 1 {
      TakePeak(f.state, f.bucket, ob, request, brk, before);
    }
  }

  /**
   * After every bmalloc, whatever brk answers, max_ptr is what it was before, or it is exactly the end of a
   * live block or of the list entry of a free block: nothing was reserved beyond what is used.
   */
  lemma ReservesWhatItUses(s: State, request: Word, brk: Brk)
    requires Inv(s)
    ensures var t := Malloc(s, request, brk).0;
      t.maxPtr == s.maxPtr || EntryEnds(t.free, t.maxPtr) || BlockEnds(t.live, t.maxPtr)
  {
    hide TreeInv, Peak, Allocate, EntryEnds, BlockEnds, BucketFor;
    if Need(request) <= Size(0) {
      BootKeeps(s, brk);
      BootPeak(s, brk);
      AllocatePeak(Boot(s, brk), request, BucketFor(Need(request)), brk, s.maxPtr);
    }
  }

  lemma BootPeak(s: State, brk: Brk)
    requires Inv(s)
    ensures Peak(Boot(s, brk), s.maxPtr)
  {
    hide TreeInv, Start, Level, Root;
    if !s.booted {
      var t := Boot(s, brk);
      RootBlock(LAST_BUCKET);
      assert Root(LAST_BUCKET) in t.free[LAST_BUCKET];
      assert t.maxPtr == LIST_ENTRY ==> Listed(t.free, Root(LAST_BUCKET));
    }
  }

  // ---------------------------------------------------------------- enough is enough

  ghost predicate GrantsUpTo(brk: Brk, m: nat) {
    forall x: nat | x <= m :: brk(x)
  }

  lemma {:induction false} LowerSame(s: State, bucket: nat, brk: Brk, always: Brk)
    requires Shaped(s) && NeverFails(always) && GrantsUpTo(brk, Lower(s, bucket, always).0.maxPtr)
    ensures Lower(s, bucket, brk) == Lower(s, bucket, always) && s.maxPtr <= Lower(s, bucket, always).0.maxPtr
    decreases s.limit
  {
    if bucket < s.limit {
      var (ok, m) := Reserve(s.maxPtr, GrowthNeeds(s), always);
      LowerRises(GrowOne(s, m), bucket, always);
      LowerSame(GrowOne(s, m), bucket, brk, always);
    } else {
      assert Lower(s, bucket, brk) == (s, true);
    }
  }

  lemma {:induction false} LowerRises(s: State, bucket: nat, brk: Brk)
    requires Shaped(s)
    ensures s.maxPtr <= Lower(s, bucket, brk).0.maxPtr
    decreases s.limit
  {
    if bucket < s.limit {
      var (ok, m) := Reserve(s.maxPtr, GrowthNeeds(s), brk);
      if ok || !RootInUse(s) { LowerRises(GrowOne(s, m), bucket, brk); }
    } else {
      assert Lower(s, bucket, brk).0 == s;
    }
  }

  lemma {:induction false} LocateSame(s: State, bucket: nat, brk: Brk, always: Brk)
    requires Shaped(s) && bucket <= LAST_BUCKET && NeverFails(always)
    requires GrantsUpTo(brk, Locate(s, bucket, always).state.maxPtr)
    ensures Locate(s, bucket, brk) == Locate(s, bucket, always)
    ensures s.maxPtr <= Locate(s, bucket, always).state.maxPtr
    decreases bucket
  {
    hide Lower, NeverFails;
    LowerShape(s, bucket, always);
    LowerRises(s, bucket, always);
    var (s1, ok) := Lower(s, bucket, always);
    if ok && s1.free[bucket] == [] && bucket != 0 {
      if bucket != s1.limit {
        LocateRises(s1, bucket - 1, always);
        LocateSame(s1, bucket - 1, brk, always);
      } else {
        LowerShape(s1, bucket - 1, always);
        LowerRises(s1, bucket - 1, always);
        LowerSame(s1, bucket - 1, brk, always);
      }
    }
    LowerSame(s, bucket, brk, always);
  }

  lemma {:induction false} LocateRises(s: State, bucket: nat, brk: Brk)
    requires Shaped(s) && bucket <= LAST_BUCKET
    ensures s.maxPtr <= Locate(s, bucket, brk).state.maxPtr
    decreases bucket
  {
    hide Lower;
    LowerShape(s, bucket, brk);
    LowerRises(s, bucket, brk);
    var (s1, ok) := Lower(s, bucket, brk);
    if ok && s1.free[bucket] == [] && bucket != 0 {
      if bucket != s1.limit {
        LocateRises(s1, bucket - 1, brk);
      } else {
        LowerShape(s1, bucket - 1, brk);
        LowerRises(s1, bucket - 1, brk);
      }
    }
  }

  /** A brk that grants every address up to where a brk that never fails would get makes the same call of it. */
  lemma EnoughIsEnough(s: State, request: Word, brk: Brk, always: Brk)
    requires Inv(s) && NeverFails(always) && GrantsUpTo(brk, Malloc(s, request, always).0.maxPtr)
    ensures Malloc(s, request, brk) == Malloc(s, request, always)
  {
    hide TreeInv, Locate, Taken, BucketFor, PtrForNode, Pow2;
    if Need(request) <= Size(0) {
      var s0, ob := Boot(s, always), BucketFor(Need(request));
      BootKeeps(s, always);
      TreeShaped(s0);
      LocateShape(s0, ob, always);
      LocateKeeps(s0, ob, always);
      AllocateRises(s0, request, ob, always);
      LocateRises(s0, ob, always);
      assert s.booted || s0.maxPtr == LIST_ENTRY;
      assert Boot(s, brk) == s0;
      LocateSame(s0, ob, brk, always);
      var f := Locate(s0, ob, always);
      if f.outcome.Block? && Pow2(f.bucket) <= f.outcome.node + 1 {
        TakeSame(f.state, f.bucket, ob, request, brk, always);
      }
    }
  }

  lemma TakeSame(g: State, b: nat, ob: nat, request: Word, brk: Brk, always: Brk)
    requires Tree(g) && b <= ob <= LAST_BUCKET && g.free[b] != [] && Pow2(b) <= Last(g.free[b]) + 1
    requires NeverFails(always) && Shaped(g) && GrantsUpTo(brk, Take(g, b, ob, request, always).0.maxPtr)
    ensures Take(g, b, ob, request, brk) == Take(g, b, ob, request, always)
  {
    hide TreeInv, Taken, PtrForNode, Pow2, BytesNeeded;
    var v := PtrForNode(Last(g.free[b]), b) + BytesNeeded(b, ob);
    var m := Reserve(g.maxPtr, v, always).1;
    CarveTaken(g, b, ob, request, m);
  }

  lemma AllocateRises(s: State, request: Word, ob: nat, brk: Brk)
    requires Tree(s) && ob <= LAST_BUCKET
    ensures Shaped(s) && Locate(s, ob, brk).state.maxPtr <= Allocate(s, request, ob, brk).0.maxPtr
  {
    hide TreeInv, Locate, Taken, PtrForNode, Pow2;
    TreeShaped(s);
    LocateShape(s, ob, brk);
    LocateKeeps(s, ob, brk);
    var f := Locate(s, ob, brk);
    if f.outcome.Block? && Pow2(f.bucket) <= f.outcome.node + 1 {
      var v := PtrForNode(Last(f.state.free[f.bucket]), f.bucket) + BytesNeeded(f.bucket, ob);
      var m := Reserve(f.state.maxPtr, v, brk).1;
      CarveTaken(f.state, f.bucket, ob, request, m);
    }
  }
}
