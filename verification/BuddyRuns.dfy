/** Granted memory, the tiling of the heap, and whole runs of the buddy allocator. */
module BuddyRuns {
  import opened Arithmetic
  import opened BuddyTree
  import opened BuddyModel
  import opened BuddyInvariant
  import opened BuddyProofs
  import opened BuddyCalls

  // ---------------------------------------------------------------- memory the kernel granted

  /** The first reservation's result is ignored, and memory is backed exactly when it was granted. */
  lemma BootBacked(brk: Brk)
    ensures Backed(Boot(FRESH, brk)) <==> brk(16)
  {
    OneBlockGranted(LAST_BUCKET, Initial(brk).maxPtr);
  }

  lemma OneBlockGranted(limit: nat, m: nat)
    requires limit <= LAST_BUCKET
    ensures EntriesGranted(OneBlock(limit), m) <==> LIST_ENTRY <= m
  {
    RootBlock(limit);
    assert Root(limit) in OneBlock(limit)[limit];
  }

  lemma GrowOneBacked(s: State, m: nat)
    requires Tree(s) && s.limit > 0 && Backed(s) && s.maxPtr <= m
    requires RootInUse(s) ==> GrowthNeeds(s) <= m
    ensures Backed(GrowOne(s, m))
  {
    RootBit(s);
    if RootInUse(s) { GrowUsedBacked(s, m); } else { GrowUnusedBacked(s, m); }
  }

  lemma GrowUnusedBacked(s: State, m: nat)
    requires Tree(s) && s.limit > 0 && Backed(s) && s.live == map[] && !RootInUse(s)
    ensures Backed(GrowOne(s, m))
  {
    var up := s.limit - 1;
    EmptyTree(s);
    OneBlockGranted(s.limit, s.maxPtr);
    OneBlockGranted(up, s.maxPtr);
    assert GrowOne(s, m).free == OneBlock(up);
  }

  lemma GrowUsedBacked(s: State, m: nat)
    requires Shaped(s) && s.limit > 0 && Backed(s) && RootInUse(s) && s.maxPtr <= m && GrowthNeeds(s) <= m
    ensures Backed(GrowOne(s, m))
  {
    hide Start, Level, Root, GrowthNeeds, FlipGrandparent;
    RightOfRootStart(s);
    PushGranted(s.free, s.limit, Root(s.limit) + 1, s.maxPtr, m);
    var t := GrowOne(s, m);
    assert t.live == s.live && t.maxPtr == m;
    assert t.free == Push(s.free, s.limit, Root(s.limit) + 1)[s.limit - 1 := []];
  }

  lemma PushGranted(free: seq<seq<nat>>, limit: nat, r: nat, before: nat, m: nat)
    requires 0 < limit < |free| && EntriesGranted(free, before) && before <= m
    requires Level(r) <= LAST_BUCKET && Start(r) + LIST_ENTRY <= m
    ensures EntriesGranted(Push(free, limit, r)[limit - 1 := []], m)
  {
    hide Start, Level;
    var up := limit - 1;
    var free' := Push(free, limit, r)[up := []];
    forall c, i | 0 <= c < |free'| && i in free'[c]
      ensures Level(i) <= LAST_BUCKET && Start(i) + LIST_ENTRY <= m
    {
      assert c != up;
      if c != limit || i != r { assert i in free[c]; }
    }
  }

  lemma {:induction false} LowerBacked(s: State, bucket: nat, brk: Brk)
    requires Tree(s) && Backed(s)
    ensures Backed(Lower(s, bucket, brk).0)
    decreases s.limit
  {
    if bucket < s.limit {
      var (ok, m) := Reserve(s.maxPtr, GrowthNeeds(s), brk);
      if ok || !RootInUse(s) {
        GrowOneKeeps(s, m);
        GrowOneBacked(s, m);
        LowerBacked(GrowOne(s, m), bucket, brk);
      }
    }
  }

  lemma LocateAtRootBacked(s: State, brk: Brk)
    requires Tree(s) && Backed(s) && s.limit > 0
    ensures Backed(LocateAtRoot(s, s.limit, brk).state)
  {
    LowerBacked(s, s.limit - 1, brk);
  }

  lemma {:induction false} LocateBacked(s: State, bucket: nat, brk: Brk)
    requires Tree(s) && Backed(s) && bucket <= LAST_BUCKET
    ensures Backed(Locate(s, bucket, brk).state)
    decreases bucket
  {
    LowerShape(s, bucket, brk);
    LowerKeeps(s, bucket, brk);
    LowerBacked(s, bucket, brk);
    var (s1, ok) := Lower(s, bucket, brk);
    if ok && s1.free[bucket] == [] && bucket != 0 {
      if bucket != s1.limit {
        LocateBacked(s1, bucket - 1, brk);
      } else {
        LocateAtRootBacked(s1, brk);
      }
    }
  }

  lemma {:induction false} CarveBacked(s: State, i: nat, b: nat, ob: nat)
    requires Shaped(s) && Level(i) == b <= ob <= LAST_BUCKET
    requires EntriesGranted(s.free, s.maxPtr) && (b < ob ==> Start(i) + BytesNeeded(b, ob) <= s.maxPtr)
    ensures EntriesGranted(Carve(s, i, b, ob).free, s.maxPtr)
    decreases ob - b
  {
    if b < ob {
      ChildBlocks(i);
      CarveBacked(s.(split := Flip(s.split, i), free := Push(s.free, b + 1, Right(i))), Left(i), b + 1, ob);
    }
  }

  lemma {:induction false} LeftmostBlock(i: nat, b: nat, ob: nat)
    requires Level(i) == b <= ob <= LAST_BUCKET
    ensures Level(Leftmost(i, b, ob)) == ob && Start(Leftmost(i, b, ob)) == Start(i)
    ensures End(Leftmost(i, b, ob)) <= Start(i) + BytesNeeded(b, ob)
    ensures b < ob ==> 2 * Size(ob) <= Size(b)
    decreases ob - b
  {
    if b < ob {
      ChildBlocks(i);
      LeftmostBlock(Left(i), b + 1, ob);
    }
  }

  lemma TakenBacked(g: State, b: nat, ob: nat, request: Word, m: nat)
    requires Tree(g) && Backed(g) && b <= ob <= LAST_BUCKET && g.free[b] != []
    requires Pow2(b) <= Last(g.free[b]) + 1 && g.maxPtr <= m
    requires PtrForNode(Last(g.free[b]), b) + BytesNeeded(b, ob) <= m
    ensures Backed(Taken(g, b, ob, request, m))
  {
    var i := Last(g.free[b]);
    assert Level(i) == b by { assert i in g.free[b]; }
    LeftmostBlock(i, b, ob);
    CarveTaken(g, b, ob, request, m);
    PopGranted(g.free, b, g.maxPtr, m);
    var j := Leftmost(i, b, ob);
    CarveBacked(g.(free := Pop(g.free, b), maxPtr := m, split := FlipParent(g.split, i),
      live := g.live[j := request]), i, b, ob);
  }

  lemma PopGranted(free: seq<seq<nat>>, b: nat, before: nat, m: nat)
    requires b < |free| && free[b] != [] && EntriesGranted(free, before) && before <= m
    ensures EntriesGranted(Pop(free, b), m)
  {
    assert forall c, i | 0 <= c < |free| && i in Pop(free, b)[c] :: i in free[c];
  }

  lemma AllocateBacked(s: State, request: Word, ob: nat, brk: Brk)
    requires Tree(s) && Backed(s) && ob <= LAST_BUCKET
    ensures Backed(Allocate(s, request, ob, brk).0)
  {
    LocateKeeps(s, ob, brk);
    LocateShape(s, ob, brk);
    LocateBacked(s, ob, brk);
    AllocateKeeps(s, request, ob, brk);
    var f := Locate(s, ob, brk);
    if Allocate(s, request, ob, brk).1.Block? {
      TakeBacked(f.state, f.bucket, ob, request, brk);
    }
  }

  lemma TakeBacked(g: State, b: nat, ob: nat, request: Word, brk: Brk)
    requires Tree(g) && Backed(g) && b <= ob <= LAST_BUCKET && g.free[b] != []
    requires Pow2(b) <= Last(g.free[b]) + 1 && Take(g, b, ob, request, brk).1.Block?
    ensures Backed(Take(g, b, ob, request, brk).0)
  {
    var (ok, m) := Reserve(g.maxPtr, PtrForNode(Last(g.free[b]), b) + BytesNeeded(b, ob), brk);
    TakenBacked(g, b, ob, request, m);
  }

  /** Whatever brk refuses, bmalloc leaves live blocks and free-list entries below max_ptr. */
  lemma MallocBacked(s: State, request: Word, brk: Brk)
    requires Inv(s) && Backed(s) && (s.booted || Need(request) > Size(0) || brk(LIST_ENTRY))
    ensures Backed(Malloc(s, request, brk).0)
  {
    if Need(request) <= Size(0) {
      BootKeeps(s, brk);
      BootBacked(brk);
      AllocateBacked(Boot(s, brk), request, BucketFor(Need(request)), brk);
    }
  }

  lemma {:induction false} ReleaseBacked(s: State, live: set<nat>, i: nat, b: nat)
    requires Shaped(s) && Level(i) == b <= LAST_BUCKET && i !in live
    requires TreeInv(s.limit, live + {i}, s.split, s.free)
    requires EntriesGranted(s.free, s.maxPtr) && Start(i) + LIST_ENTRY <= s.maxPtr
    ensures EntriesGranted(Release(s, i, b).free, s.maxPtr)
    decreases b
  {
    hide TreeInv, Start, Overlap, Distinct;
    if !Stops(s, i) {
      ReleaseMerges(s, live, i);
      FreeDistinct(s.limit, live + {i}, s.split, s.free, b);
      RemoveGranted(s.free, b, Sibling(i), s.maxPtr);
      WithinBlocks(Parent(i), i);
      ReleaseBacked(s.(split := FlipParent(s.split, i), free := Remove(s.free, b, Sibling(i))), live, Parent(i), b - 1);
    }
  }

  lemma FreeDistinct(limit: nat, live: set<nat>, split: set<nat>, free: seq<seq<nat>>, b: nat)
    requires TreeInv(limit, live, split, free) && b < |free|
    ensures Distinct(free[b])
  {
  }

  lemma RemoveGranted(free: seq<seq<nat>>, b: nat, x: nat, m: nat)
    requires b < |free| && Distinct(free[b]) && EntriesGranted(free, m)
    ensures EntriesGranted(Remove(free, b, x), m)
  {
    WithoutMembers(free[b], x);
    assert forall c, i | 0 <= c < |free| && i in Remove(free, b, x)[c] :: i in free[c];
  }

  lemma FreeBacked(s: State, i: nat)
    requires Inv(s) && s.booted && Backed(s) && i in s.live
    ensures Level(i) <= LAST_BUCKET && Backed(Free(s, i))
  {
    var live := s.live.Keys - {i};
    assert live + {i} == s.live.Keys;
    MinSize(Level(i));
    var s0 := s.(live := s.live - {i});
    ReleaseBacked(s0, live, i, Level(i));
    ReleaseKeeps(s0, live, i, Level(i));
  }

  lemma {:induction false} MinSize(b: nat)
    requires b <= LAST_BUCKET
    ensures Size(b) >= LIST_ENTRY
    decreases LAST_BUCKET - b
  {
    if b < LAST_BUCKET { MinSize(b + 1); } else { assert Pow2(4) == 16; }
  }

  // ---------------------------------------------------------------- tiling

  /** The nodes that account for memory: live blocks and blocks on a free list. */
  ghost predicate Tile(s: State, n: nat) {
    n in s.live || (Level(n) < |s.free| && n in s.free[Level(n)])
  }

  /** Tiles are aligned blocks inside the current root's region. */
  lemma TileInside(s: State, n: nat)
    requires Tree(s) && Tile(s, n)
    ensures Level(n) <= LAST_BUCKET && End(n) <= Size(s.limit) && Start(n) % Size(Level(n)) == 0
  {
    assert Within(Root(s.limit), n);
    WithinBlocks(Root(s.limit), n);
    RootBlock(s.limit);
    StartAligned(n);
  }

  lemma TilesDisjoint(s: State, m: nat, n: nat)
    requires Tree(s) && Tile(s, m) && Tile(s, n) && m != n
    ensures Level(m) <= LAST_BUCKET && Level(n) <= LAST_BUCKET
    ensures End(m) <= Start(n) || End(n) <= Start(m)
  {
    if m !in s.live && n !in s.live {
      if Within(m, n) { FreeNotNested(s.limit, s.live.Keys, m, n); }
      if Within(n, m) { FreeNotNested(s.limit, s.live.Keys, n, m); }
    }
    DisjointBlocks(m, n);
  }

  /** Every byte of the current root's region lies in a tile. */
  lemma TilesCover(s: State, x: nat) returns (n: nat)
    requires Tree(s) && x < Size(s.limit)
    ensures Tile(s, n) && Level(n) <= LAST_BUCKET && Start(n) <= x < End(n)
  {
    RootBlock(s.limit);
    var r := Root(s.limit);
    forall m | m in s.live && Within(m, r) ensures m == r {
      WithinLevel(m, r);
      WithinLevel(r, m);
    }
    n := Descend(s, r, x);
  }

  lemma {:induction false} Descend(s: State, c: nat, x: nat) returns (n: nat)
    requires Tree(s) && Within(Root(s.limit), c) && Level(c) <= LAST_BUCKET && Start(c) <= x < End(c)
    requires c == Root(s.limit) || !Unused(s.live.Keys, Parent(c))
    requires forall m | m in s.live && Within(m, c) :: m == c
    ensures Tile(s, n) && Level(n) <= LAST_BUCKET && Start(n) <= x < End(n)
    decreases LAST_BUCKET - Level(c)
  {
    if c in s.live || Unused(s.live.Keys, c) {
      n := c;
      assert c in s.live || IsFree(s.limit, s.live.Keys, c);
    } else {
      var d := DescendOne(s, c, x);
      n := Descend(s, d, x);
    }
  }

  /** A node in use that is not itself live splits: one of its halves holds the byte. */
  lemma DescendOne(s: State, c: nat, x: nat) returns (d: nat)
    requires Tree(s) && Within(Root(s.limit), c) && Level(c) <= LAST_BUCKET && Start(c) <= x < End(c)
    requires c !in s.live && !Unused(s.live.Keys, c)
    requires forall m | m in s.live && Within(m, c) :: m == c
    ensures Level(c) < Level(d) <= LAST_BUCKET && Start(d) <= x < End(d) && Parent(d) == c
    ensures Within(Root(s.limit), d) && d != Root(s.limit)
    ensures forall m | m in s.live && Within(m, d) :: m == d
  {
    var m :| m in s.live && Overlap(c, m);
    assert Within(c, m) && m != c;
    WithinLevel(c, m);
    ChildBlocks(c);
    ChildFacts(c);
    WithinLevel(Root(s.limit), c);
    d := if x < End(Left(c)) then Left(c) else Right(c);
  }

  /** A live block holds its request and the header, exactly when their sum does not wrap. */
  lemma BlockHolds(s: State, m: nat)
    requires Inv(s) && m in s.live
    ensures Level(m) == BucketFor(Need(s.live[m])) <= LAST_BUCKET
    ensures s.live[m] as int + 8 <= End(m) - Start(m) <==> s.live[m] as int + 8 < 0x1_0000_0000_0000_0000
    ensures End(m) - Start(m) == 16 || End(m) - Start(m) < 2 * ((s.live[m] as int + 8) % 0x1_0000_0000_0000_0000)
  {
    hide Start, Level;
    MaxSize();
    NeedIsSum(s.live[m]);
    Pow2Mono(MAX_ALLOC_LOG2 - Level(m), MAX_ALLOC_LOG2);
    if Level(m) == LAST_BUCKET { SmallestIs16(); } else { Halving(Level(m)); }
  }

  /** What has to fit is the request and eight bytes, as a size_t. */
  lemma NeedIsSum(request: Word)
    ensures Need(request) == (request as int + 8) % 0x1_0000_0000_0000_0000
  {
  }

  lemma SmallestIs16()
    ensures Size(LAST_BUCKET) == 16
  {
    var least := MAX_ALLOC_LOG2 - LAST_BUCKET;
    assert least == 4 && Pow2(4) == 16;
  }

  lemma Halving(b: nat)
    requires b < LAST_BUCKET
    ensures Size(b) == 2 * Size(b + 1)
  {
  }

  /**
   * The wrap does happen: a request of 2^64 - 8 bytes is granted by a fresh allocator, with a block
   * that does not hold it.
   */
  lemma WrappedRequestGranted(brk: Brk)
    requires NeverFails(brk)
    ensures var request: Word := 0xFFFF_FFFF_FFFF_FFF8;
      var (t, r) := Malloc(FRESH, request, brk);
      && r.Block? && Inv(t) && r.node in t.live
      && t.live[r.node] + HEADER_SIZE > End(r.node) - Start(r.node)
  {
    hide Inv, Malloc, Unused, Level;
    var request: Word := 0xFFFF_FFFF_FFFF_FFF8;
    FreshFits(request);
    MallocComplete(FRESH, request, brk);
    MallocKeeps(FRESH, request, brk);
    var (t, r) := Malloc(FRESH, request, brk);
    BlockHolds(t, r.node);
  }

  lemma FreshFits(request: Word)
    requires Need(request) == 0
    ensures Inv(FRESH) && Need(request) <= Size(0)
    ensures exists n: nat :: Level(n) == BucketFor(Need(request)) && Unused(FRESH.live.Keys, n)
  {
    hide Root, Level, Size;
    var b := BucketFor(Need(request));
    RootFacts(b);
    assert Level(Root(b)) == b && Unused(FRESH.live.Keys, Root(b));
  }

  lemma MaxSize()
    ensures Size(0) == 0x8000_0000
  {
    assert Pow2(8) == 0x100;
    assert Pow2(16) == 0x1_0000;
    assert Pow2(24) == 0x100_0000;
    assert Pow2(31) == 0x8000_0000;
  }

  // ---------------------------------------------------------------- runs

  datatype Call = CallMalloc(request: Word, brk: Brk) | CallFree(node: nat)

  /** bfree may only be given a block that bmalloc returned and that was not freed since. */
  ghost predicate Legal(s: State, calls: seq<Call>)
    requires Inv(s)
    decreases |calls|
  {
    calls == [] || (
      && (calls[0].CallFree? ==> calls[0].node in s.live)
      && Legal(Step(s, calls[0]), calls[1..]))
  }

  ghost function Step(s: State, c: Call): (t: State)
    requires Inv(s) && (c.CallFree? ==> c.node in s.live)
    ensures Inv(t)
  {
    match c
    case CallMalloc(request, brk) => MallocKeeps(s, request, brk); Malloc(s, request, brk).0
    case CallFree(node) => FreeKeeps(s, node); Free(s, node)
  }

  ghost function Run(s: State, calls: seq<Call>): State
    requires Inv(s) && Legal(s, calls)
    decreases |calls|
  {
    if calls == [] then s else Run(Step(s, calls[0]), calls[1..])
  }

  /** Bits and free lists are exact after every run of legal calls, whatever brk answers. */
  lemma {:induction false} RunKeeps(s: State, calls: seq<Call>)
    requires Inv(s) && Legal(s, calls)
    ensures Inv(Run(s, calls))
    decreases |calls|
  {
    hide Inv, Step;
    if calls != [] { RunKeeps(Step(s, calls[0]), calls[1..]); }
  }

  /** The first call that passes the size test, if any, gets the memory of the first list entry. */
  ghost predicate BootGranted(calls: seq<Call>) {
    calls == [] || (if Boots(calls[0]) then calls[0].brk(LIST_ENTRY) else BootGranted(calls[1..]))
  }

  predicate Boots(c: Call) {
    c.CallMalloc? && Need(c.request) <= Size(0)
  }

  /** Over every run of legal calls all memory in use was granted, whichever reservations fail after the first. */
  lemma {:induction false} RunBacked(s: State, calls: seq<Call>)
    requires Inv(s) && Backed(s) && Legal(s, calls) && (s.booted || BootGranted(calls))
    ensures Backed(Run(s, calls))
    decreases |calls|
  {
    hide Inv, Backed;
    if calls == [] {
      assert Run(s, calls) == s;
    } else {
      StepBacked(s, calls[0]);
      RunBacked(Step(s, calls[0]), calls[1..]);
    }
  }

  lemma StepBacked(s: State, c: Call)
    requires Inv(s) && Backed(s) && (c.CallFree? ==> c.node in s.live)
    requires s.booted || (Boots(c) ==> c.brk(LIST_ENTRY))
    ensures Backed(Step(s, c)) && (Step(s, c).booted <==> s.booted || Boots(c))
  {
    if s.booted { StepBooted(s, c); }
    match c {
      case CallFree(node) =>
        FreeKeeps(s, node);
        FreeBacked(s, node);
      case CallMalloc(request, brk) =>
        if Need(request) <= Size(0) {
          MallocBacked(s, request, brk);
          if !s.booted { FirstBoots(s, request, brk); }
        }
    }
  }

  lemma FirstBoots(s: State, request: Word, brk: Brk)
    requires Inv(s) && !s.booted && Need(request) <= Size(0)
    ensures Malloc(s, request, brk).0.booted
  {
    BootKeeps(s, brk);
    AllocateKeeps(Boot(s, brk), request, BucketFor(Need(request)), brk);
  }

  ghost predicate Refuses(brk: Brk) {
    forall x :: !brk(x)
  }

  lemma {:induction false} LowerRefused(s: State, bucket: nat, brk: Brk)
    requires Shaped(s) && Refuses(brk)
    ensures Lower(s, bucket, brk).0.maxPtr == s.maxPtr
    decreases s.limit
  {
    if bucket < s.limit {
      var (ok, m) := Reserve(s.maxPtr, GrowthNeeds(s), brk);
      if ok || !RootInUse(s) { LowerRefused(GrowOne(s, m), bucket, brk); }
    } else {
      assert Lower(s, bucket, brk).0 == s;
    }
  }

  lemma {:induction false} LocateRefused(s: State, bucket: nat, brk: Brk)
    requires Shaped(s) && bucket <= LAST_BUCKET && Refuses(brk)
    ensures Locate(s, bucket, brk).state.maxPtr == s.maxPtr
    decreases bucket
  {
    hide Lower, Refuses;
    LowerShape(s, bucket, brk);
    LowerRefused(s, bucket, brk);
    var (s1, ok) := Lower(s, bucket, brk);
    if ok && s1.free[bucket] == [] && bucket > 0 {
      if bucket != s1.limit {
        LocateRefused(s1, bucket - 1, brk);
      } else {
        LowerRefused(s1, bucket - 1, brk);
      }
    }
  }

  /**
   * Without that grant the claim fails: where brk refuses everything, the first call returns NULL and
   * leaves a list entry in memory that was never granted.
   */
  lemma RefusedFirstCall(request: Word, brk: Brk)
    requires Need(request) <= Size(0) && Refuses(brk)
    ensures var (t, r) := Malloc(FRESH, request, brk); r == Null && !Backed(t)
  {
    hide Lower, Locate, Need, BucketFor;
    var s, ob := Boot(FRESH, brk), BucketFor(Need(request));
    BootKeeps(FRESH, brk);
    LocateShape(s, ob, brk);
    LocateRefused(s, ob, brk);
    AllocateKeeps(s, request, ob, brk);
    RefusedTake(s, request, ob, brk);
    var t := Malloc(FRESH, request, brk).0;
    EmptyTree(t);
    OneBlockGranted(t.limit, 0);
  }

  lemma RefusedTake(s: State, request: Word, ob: nat, brk: Brk)
    requires Shaped(s) && ob <= LAST_BUCKET && Refuses(brk) && Locate(s, ob, brk).state.maxPtr == 0
    ensures !Allocate(s, request, ob, brk).1.Block?
  {
    hide Locate, PtrForNode;
    LocateShape(s, ob, brk);
  }

  lemma StepBooted(s: State, c: Call)
    requires Inv(s) && s.booted && (c.CallFree? ==> c.node in s.live)
    ensures Step(s, c).booted
  {
    if c.CallFree? {
      FreeKeeps(s, c.node);
    } else if Need(c.request) <= Size(0) {
      AllocateKeeps(s, c.request, BucketFor(Need(c.request)), c.brk);
    }
  }

  /** The calls that free the given blocks in order. */
  ghost function FreeAll(order: seq<nat>): seq<Call> {
    if order == [] then [] else [CallFree(order[0])] + FreeAll(order[1..])
  }

  lemma RunCons(s: State, c: Call, calls: seq<Call>)
    requires Inv(s) && (c.CallFree? ==> c.node in s.live) && Legal(Step(s, c), calls)
    ensures Legal(s, [c] + calls) && Run(s, [c] + calls) == Run(Step(s, c), calls)
  {
    assert ([c] + calls)[1..] == calls;
  }

  ghost predicate Lists(order: seq<nat>, live: set<nat>) {
    (forall j, k | 0 <= j < k < |order| :: order[j] != order[k]) && forall m: nat :: m in order <==> m in live
  }

  /** Freeing all live blocks, in any order, leaves one free block at the root and no bit set. */
  lemma {:induction false} FreeAllLeavesOneBlock(s: State, order: seq<nat>)
    requires Inv(s) && s.booted && Lists(order, s.live.Keys)
    ensures Legal(s, FreeAll(order))
    ensures OneFreeBlock(Run(s, FreeAll(order))) && Run(s, FreeAll(order)).limit == s.limit
    decreases |order|
  {
    if order == [] {
      assert s.live.Keys == {};
      EmptyTree(s);
    } else {
      assert order[0] in order;
      FreeKeeps(s, order[0]);
      FreeLimit(s, order[0]);
      ListsTail(order, s.live.Keys);
      var t := Free(s, order[0]);
      assert t.live.Keys == s.live.Keys - {order[0]};
      FreeAllLeavesOneBlock(t, order[1..]);
      RunCons(s, CallFree(order[0]), FreeAll(order[1..]));
    }
  }

  lemma ListsTail(order: seq<nat>, live: set<nat>)
    requires order != [] && Lists(order, live)
    ensures Lists(order[1..], live - {order[0]})
  {
    assert order == [order[0]] + order[1..];
    assert order[0] !in order[1..];
  }

  lemma FreeLimit(s: State, i: nat)
    requires Inv(s) && s.booted && i in s.live
    ensures Level(i) <= LAST_BUCKET && Free(s, i).limit == s.limit
  {
    var live := s.live.Keys - {i};
    assert live + {i} == s.live.Keys;
    ReleaseKeeps(s.(live := s.live - {i}), live, i, Level(i));
  }
}
