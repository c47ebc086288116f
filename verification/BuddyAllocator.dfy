/**
 * The allocator's globals as one object whose methods update them in place, proved to
 * compute the functions of BuddyModel.
 */
module BuddyAllocator {
  import opened Arithmetic
  import opened BuddyTree
  import opened BuddyModel
  import opened BuddyInvariant
  import opened BuddyProofs
  import opened BuddyCalls
  import opened BuddyGuard
  import opened FreeListRing
  import opened SplitBits

  datatype Pointer = NullPointer | Offset(offset: nat)

  ghost function MapAddr(addr: nat -> nat, f: seq<nat>): seq<nat> {
    seq(|f|, k requires 0 <= k < |f| => addr(f[k]))
  }

  ghost function Addresses(f: seq<nat>): seq<nat> {
    MapAddr(Addr, f)
  }

  /** The rings that are initialised hold the addresses of the model's free nodes, in order. */
  ghost predicate Coupled(lists: map<nat, seq<nat>>, free: seq<seq<nat>>, limit: nat) {
    && limit <= LAST_BUCKET && |free| == LAST_BUCKET + 1
    && (forall b: nat :: b in lists <==> limit <= b <= LAST_BUCKET)
    && forall b: nat | b in lists :: lists[b] == Addresses(free[b])
  }

  ghost predicate HeadersHold(header: map<nat, Word>, live: map<nat, Word>) {
    forall m | m in live :: Level(m) <= LAST_BUCKET && Start(m) in header && header[Start(m)] == live[m]
  }

  /** No block on a free list starts at address x. */
  ghost predicate NoBlockAt(free: seq<seq<nat>>, x: nat) {
    forall b | 0 <= b < |free| :: x !in Addresses(free[b])
  }

  // ---------------------------------------------------------------- addresses of lists

  lemma MapAddrPush(addr: nat -> nat, f: seq<nat>, i: nat)
    ensures MapAddr(addr, f + [i]) == MapAddr(addr, f) + [addr(i)]
  {
  }

  lemma MapAddrPop(addr: nat -> nat, f: seq<nat>)
    requires f != []
    ensures MapAddr(addr, f) == MapAddr(addr, f[..|f| - 1]) + [addr(Last(f))]
  {
  }

  /** Where a node sits on its list, and what unlinking it does to the model's list. */
  lemma MapAddrCut(addr: nat -> nat, f: seq<nat>, i: nat) returns (k: nat)
    requires i in f && Distinct(f)
    ensures k < |MapAddr(addr, f)| && MapAddr(addr, f)[k] == addr(i)
    ensures MapAddr(addr, Without(f, i)) == Cut(MapAddr(addr, f), k)
  {
    k :| 0 <= k < |f| && f[k] == i;
    WithoutIsCut(f, k);
  }

  lemma {:induction false} WithoutIsCut(s: seq<nat>, k: nat)
    requires Distinct(s) && k < |s|
    ensures Without(s, s[k]) == Cut(s, k)
  {
    if k > 0 {
      WithoutIsCut(s[1..], k - 1);
      assert Cut(s, k) == [s[0]] + Cut(s[1..], k - 1);
    }
  }

  lemma MapAddrMember(addr: nat -> nat, f: seq<nat>, x: nat)
    requires x in MapAddr(addr, f)
    ensures exists n | n in f :: addr(n) == x
  {
    var k :| 0 <= k < |MapAddr(addr, f)| && MapAddr(addr, f)[k] == x;
    assert f[k] in f;
  }

  /** An address at which no free block starts is on no ring. */
  lemma NotOnList(lists: map<nat, seq<nat>>, free: seq<seq<nat>>, limit: nat, x: nat)
    requires Coupled(lists, free, limit) && NoBlockAt(free, x)
    ensures !OnList(lists, x)
  {
    forall b | b in lists ensures x !in lists[b] {
      assert 0 <= b < |free|;
    }
  }

  /** No free block starts where a node inside a live block starts. */
  lemma LiveNotListed(limit: nat, live: set<nat>, split: set<nat>, free: seq<seq<nat>>, i: nat, j: nat)
    requires TreeInv(limit, live, split, free) && i in live && Within(i, j) && Level(j) <= LAST_BUCKET
    ensures NoBlockAt(free, Start(j))
  {
    forall b | 0 <= b < |free| ensures Start(j) !in Addresses(free[b]) {
      if Start(j) in Addresses(free[b]) {
        MapAddrMember(Addr, free[b], Start(j));
        var n :| n in free[b] && Addr(n) == Start(j);
        LiveElsewhere(limit, live, i, j, n);
      }
    }
  }

  lemma LiveElsewhere(limit: nat, live: set<nat>, i: nat, j: nat, n: nat)
    requires i in live && Within(i, j) && Level(j) <= LAST_BUCKET && IsFree(limit, live, n)
    ensures Addr(n) != Start(j)
  {
    WithinLevel(i, j);
    assert !Overlap(n, i);
    DisjointBlocks(n, i);
    WithinBlocks(i, j);
  }

  /** (1 << (BUCKET_COUNT - 1)) / 8 */
  const BYTES := 0x100_0000

  lemma ParentInRange(i: nat)
    requires Level(i) <= LAST_BUCKET
    ensures Parent(i) < 8 * BYTES
  {
    LevelRange(i);
    Pow2Mono(Level(i), LAST_BUCKET);
    assert Pow2(8) == 0x100;
    assert Pow2(16) == 0x1_0000;
    assert Pow2(LAST_BUCKET) == 0x800_0000;
  }

  // ---------------------------------------------------------------- requests

  /** bucket_for_request */
  method BucketForRequest(need: nat) returns (bucket: nat)
    requires need <= Size(0)
    ensures bucket == BucketFor(need)
  {
    bucket := LAST_BUCKET;
    var size := 16;
    assert Size(LAST_BUCKET) == 16 by { assert Pow2(4) == 16; }
    while size < need
      invariant bucket <= LAST_BUCKET && size == Size(bucket)
      invariant FitFrom(bucket, need) == BucketFor(need)
      decreases bucket
    {
      assert bucket > 0;
      bucket := bucket - 1;
      size := size * 2;
    }
  }

  // ---------------------------------------------------------------- the allocator

  class Allocator {
    /** base_ptr is not NULL */
    var booted: bool
    var bucketLimit: nat
    const bits: BitArray
    const lists: FreeLists
    var maxPtr: nat
    /** The size_t last written at each block's start. */
    var header: map<nat, Word>
    ghost var free: seq<seq<nat>>
    ghost var live: map<nat, Word>
    /** The blocks that stay live throughout the present call, and links and headers as it found them. */
    ghost var guard: set<nat>
    ghost var was: Snapshot

    ghost function Now(): Snapshot
      reads this, lists
    {
      Snapshot(lists.prev, lists.next, header)
    }

    ghost function Abs(): State
      reads this, bits.bytes
    {
      State(booted, bucketLimit, bits.On(), free, maxPtr, live)
    }

    ghost predicate Rep()
      reads this, bits.bytes, lists
    {
      && bits.bytes.Length == BYTES
      && lists.Valid()
      && HeadersHold(header, live)
      && Guarded(guard, live.Keys, free, was, Now())
      && if booted then Shaped(Abs()) && Coupled(lists.lists, free, bucketLimit)
         else lists.lists == map[] && Abs() == FRESH.(maxPtr := maxPtr)
    }

    ghost predicate Ready()
      reads this, bits.bytes, lists
    {
      Rep() && booted && Tree(Abs())
    }

    constructor ()
      ensures fresh(lists) && fresh(bits) && fresh(bits.bytes) && Rep() && Abs() == FRESH
    {
      booted, bucketLimit, maxPtr, header := false, 0, 0, map[];
      bits := new BitArray(BYTES);
      lists := new FreeLists();
      free, live, guard, was := [], map[], {}, Snapshot(map[], map[], map[]);
    }

    /** update_max_ptr */
    method UpdateMaxPtr(value: nat, brk: Brk) returns (ok: bool)
      modifies this`maxPtr
      ensures (ok, maxPtr) == Reserve(old(maxPtr), value, brk)
    {
      if value > maxPtr {
        if !brk(value) { return false; }
        maxPtr := value;
      }
      return true;
    }

    /** list_push of a node on the list of its bucket. */
    method PushNode(ptr: nat, ghost i: nat, bucket: nat)
      requires Rep() && booted && bucketLimit <= bucket <= LAST_BUCKET && ptr == Addr(i)
      requires NoBlockAt(free, ptr) && Off(guard, ptr)
      modifies this`free, lists
      ensures Rep() && Abs() == old(Abs()).(free := Push(old(free), bucket, i))
    {
      hide Guarded, Off, Addr;
      NotOnList(lists.lists, free, bucketLimit, ptr);
      MapAddrPush(Addr, free[bucket], i);
      ghost var now, l := Now(), Addresses(free[bucket]) + [ptr];
      PushGuards(guard, live.Keys, free, was, now, bucket, i);
      lists.Push(bucket, ptr);
      GuardRing(guard, live.Keys, free, Push(free, bucket, i), was, now, Now(), bucket, l);
      free := Push(free, bucket, i);
    }

    /** list_remove of a node known to be on the list of its bucket. */
    method RemoveNode(ptr: nat, ghost i: nat, ghost bucket: nat)
      requires Rep() && booted && bucketLimit <= bucket <= LAST_BUCKET && i in free[bucket] && ptr == Addr(i)
        && Distinct(free[bucket])
      modifies this`free, lists
      ensures Rep() && Abs() == old(Abs()).(free := Remove(old(free), bucket, i))
    {
      hide Guarded, Off, Addr, Distinct;
      ghost var k := MapAddrCut(Addr, free[bucket], i);
      ghost var now, l := Now(), Addresses(free[bucket]);
      ListGuards(guard, live.Keys, free, was, now, bucket);
      RemoveGuards(guard, free, bucket, i);
      lists.Remove(ptr, bucket, k);
      GuardRing(guard, live.Keys, free, Remove(free, bucket, i), was, now, Now(), bucket, l);
      free := Remove(free, bucket, i);
    }

    /** list_pop */
    method PopNode(bucket: nat) returns (found: bool, ptr: nat)
      requires Rep() && booted && bucketLimit <= bucket <= LAST_BUCKET
      modifies this`free, lists
      ensures Rep() && found == (old(free)[bucket] != [])
      ensures !found ==> Abs() == old(Abs())
      ensures found ==> ptr == Addr(Last(old(free)[bucket]))
      ensures found ==> Abs() == old(Abs()).(free := BuddyModel.Pop(old(free), bucket))
    {
      hide Guarded, Off, Addr;
      assert bucket in lists.lists;
      if free[bucket] != [] { MapAddrPop(Addr, free[bucket]); }
      ghost var now, l := Now(), Addresses(free[bucket]);
      ListGuards(guard, live.Keys, free, was, now, bucket);
      found, ptr := lists.Pop(bucket);
      ghost var after := if found then BuddyModel.Pop(free, bucket) else free;
      PopGuards(guard, free, bucket);
      GuardRing(guard, live.Keys, free, after, was, now, Now(), bucket, l);
      if found { free := BuddyModel.Pop(free, bucket); }
    }

    /** flip_parent_is_split, behind the guard that the index is not 0. */
    method FlipParentOf(i: nat)
      requires Rep() && booted && Level(i) <= LAST_BUCKET
      modifies bits.bytes
      ensures Rep() && Abs() == old(Abs()).(split := FlipParent(old(bits.On()), i))
    {
      if i != 0 {
        ParentInRange(i);
        bits.FlipParentIsSplit(i);
      }
    }

    // -------------------------------------------------------------- start-up and growth

    /** Lower the limit by one and initialise the new root's list. */
    method InitBucket()
      requires Rep() && booted && bucketLimit > 0
      modifies this`bucketLimit, this`free, lists
      ensures Rep()
        && Abs() == old(Abs()).(limit := old(bucketLimit) - 1, free := old(free)[old(bucketLimit) - 1 := []])
    {
      hide Guarded, Off, Addr;
      bucketLimit := bucketLimit - 1;
      ghost var now := Now();
      EmptyGuards(guard, live.Keys, free, was, now, bucketLimit);
      lists.Init(bucketLimit);
      GuardRing(guard, live.Keys, free, free[bucketLimit := []], was, now, Now(), bucketLimit, []);
      free := free[bucketLimit := []];
    }

    /** The initialisation at the first call; the result of the reservation is ignored. */
    method Boot(brk: Brk)
      requires Rep() && !booted
      modifies this, lists
      ensures Rep() && Abs() == Initial(brk) && header == old(header) && guard == old(guard) && was == old(was)
    {
      hide Guarded, Off, Coupled, HeadersHold, OneBlock;
      maxPtr := 0;
      var ignored := UpdateMaxPtr(LIST_ENTRY, brk);
      OneBlockCoupled(LAST_BUCKET);
      BootLists(LAST_BUCKET, OneBlock(LAST_BUCKET));
    }

    method BootLists(last: nat, ghost blocks: seq<seq<nat>>)
      requires Rep() && !booted && Coupled(map[last := [0]], blocks, last)
      modifies this`booted, this`bucketLimit, this`free, lists
      ensures Rep() && Abs() == old(Abs()).(booted := true, limit := last, free := blocks)
    {
      hide Guarded, Off, HeadersHold, Addr;
      GuardInside(guard, live.Keys, free, was, Now());
      bucketLimit := last;
      lists.Init(last);
      lists.Push(last, 0);
      assert [] + [0] == [0];
      assert lists.lists == map[last := [0]];
      booted := true;
      free := blocks;
      NothingGuarded(guard, live.Keys, free, was, Now());
    }

    /** The root is free: its list is emptied and the block, one level larger, starts a new list. */
    method GrowUnused(ghost s: State, ghost m: nat)
      requires Rep() && booted && s == Abs() && bucketLimit > 0 && !RootInUse(s) && s.free == OneBlock(s.limit)
      requires s.live == map[]
      modifies this`bucketLimit, this`free, lists
      ensures Rep() && Abs() == GrowOne(s, m)
    {
      hide Guarded, Off, Coupled, HeadersHold, PtrForNode, Scale, Pow2, Start, GrowOne, NoBlockAt, OneBlock, Root;
      GrowUnusedSteps(s, m);
      RootBlock(bucketLimit);
      RemoveNode(0, Root(bucketLimit), bucketLimit);
      InitBucket();
      RootBlock(bucketLimit);
      GuardInside(guard, live.Keys, free, was, Now());
      NoGuard(guard, live.Keys, 0);
      PushNode(0, Root(bucketLimit), bucketLimit);
    }

    /** The root's new buddy goes on its list, and a list and a bit are set up for the node above. */
    method AddParent(up: nat, right: nat, rightChild: nat, ghost s: State)
      requires Rep() && booted && s == Abs() && bucketLimit > 0 && Level(up) <= LAST_BUCKET
      requires rightChild == Addr(right) && NoBlockAt(s.free, rightChild) && Off(guard, rightChild)
      modifies this`bucketLimit, this`free, lists, bits.bytes
      ensures Rep() && Abs() == s.(limit := s.limit - 1, split := FlipParent(s.split, up),
                                   free := Push(s.free, s.limit, right)[s.limit - 1 := []])
    {
      hide Guarded, Off;
      PushNode(rightChild, right, bucketLimit);
      InitBucket();
      FlipParentOf(up);
    }

    /** The second half of lower_bucket_limit's loop: reserve memory for the new list entry and grow. */
    method GrowUsed(root: nat, rightChild: nat, brk: Brk, ghost s: State) returns (ok: bool)
      requires Rep() && booted && s == Abs() && bucketLimit > 0 && RootInUse(s) && Shaped(s)
      requires root == Root(s.limit) && rightChild == Addr(root + 1) && NoBlockAt(s.free, rightChild)
        && Off(guard, rightChild)
      modifies this`bucketLimit, this`free, this`maxPtr, lists, bits.bytes
      ensures Rep()
      ensures var (granted, m) := Reserve(s.maxPtr, rightChild + LIST_ENTRY, brk);
              ok == granted && Abs() == if granted then GrowOne(s, m) else s
    {
      hide Addr, Root, Level, GrowOne, NoBlockAt, Guarded, Off;
      ok := UpdateMaxPtr(rightChild + LIST_ENTRY, brk);
      if ok {
        AboveRoot(s.limit);
        GrowUsedSteps(s, maxPtr);
        AddParent((root - 1) / 2, root + 1, rightChild, Abs());
      }
    }

    method RightChild(root: nat, ghost s: State) returns (rightChild: nat)
      requires s == Abs() && Shaped(s) && s.limit > 0 && root == Root(s.limit)
      ensures rightChild == Addr(root + 1) && rightChild + LIST_ENTRY == GrowthNeeds(s)
    {
      hide Root, GrowthNeeds, Scale, Pow2, Level, PtrForNode, Guarded, Coupled;
      RightOfRootStart(s);
      rightChild := PtrForNode(root + 1, bucketLimit);
    }

    /** lower_bucket_limit */
    method LowerBucketLimit(bucket: nat, brk: Brk) returns (ok: bool)
      requires Ready()
      modifies this`bucketLimit, this`free, this`maxPtr, lists, bits.bytes
      ensures Ready() && (Abs(), ok) == Lower(old(Abs()), bucket, brk)
    {
      hide PtrForNode, Scale, Pow2, Root, TreeInv, Lower, GrowOne, GrowthNeeds, NoBlockAt, Level, Guarded, Off;
      ghost var result := Lower(Abs(), bucket, brk);
      while bucket < bucketLimit
        invariant Ready() && Lower(Abs(), bucket, brk) == result
        decreases bucketLimit
      {
        LowerUnfold(Abs(), bucket, brk);
        var root := NodeForPtr(0, bucketLimit);
        RootFromBase(bucketLimit);
        RootInRange(bucketLimit);
        var used := bits.ParentIsSplit(root);
        ghost var s, m := Abs(), Reserve(maxPtr, GrowthNeeds(Abs()), brk).1;
        GrowOneKeeps(s, m);
        if !used {
          OnlyRootListed(s);
          GrowUnused(s, m);
        } else {
          RightOfRootListed(s);
          GuardInside(guard, live.Keys, free, was, Now());
          RightChildOff(guard, s);
          var rightChild := RightChild(root, s);
          ok := GrowUsed(root, rightChild, brk, s);
          if !ok { return; }
        }
      }
      LowerUnfold(Abs(), bucket, brk);
      ok := true;
    }

    // -------------------------------------------------------------- bmalloc

    /** Grow by one level above an empty root list and pop the new block. */
    method FindAtRoot(bucket: nat, brk: Brk, ghost s: State) returns (found: bool, ptr: nat)
      requires Ready() && s == Abs() && 0 < bucket == s.limit && s.free[bucket] == []
      modifies this`bucketLimit, this`free, this`maxPtr, lists, bits.bytes
      ensures Rep() && Popped(Abs(), LocateAtRoot(s, bucket, brk), found, ptr, bucket)
    {
      hide PtrForNode, Scale, Pow2, Start, TreeInv, Lower, Root, Level;
      LowerShape(s, bucket - 1, brk);
      found := LowerBucketLimit(bucket - 1, brk);
      ptr := 0;
      GrowAtRoot(s, brk);
      if found { found, ptr := PopNode(bucket); }
    }

    /** bmalloc's search loop, up to and including the pop. */
    method FindBlock(ob: nat, brk: Brk, ghost f: Found) returns (found: bool, ptr: nat, bucket: nat)
      requires Ready() && ob <= LAST_BUCKET && f == Locate(Abs(), ob, brk)
      modifies this`bucketLimit, this`free, this`maxPtr, lists, bits.bytes
      ensures Rep() && Popped(Abs(), f, found, ptr, bucket)
    {
      hide PtrForNode, Scale, Pow2, Start, TreeInv, Locate, LocateAtRoot, Lower, BuddyModel.Pop, Coupled,
        HeadersHold, Guarded, Off;
      bucket, ptr := ob, 0;
      while true
        invariant Ready() && bucket <= ob && Locate(Abs(), bucket, brk) == f
        decreases bucket
      {
        ghost var s := Abs();
        LowerShape(s, bucket, brk);
        LocateUnfold(s, bucket, brk);
        var ok := LowerBucketLimit(bucket, brk);
        if !ok { return false, 0, bucket; }
        ghost var s1 := Abs();
        found, ptr := PopNode(bucket);
        if found { return; }
        if bucket != bucketLimit || bucket == 0 {
          // at bucket 0 the index wraps around, which ends the C loop
          if bucket == 0 { return; }
          bucket := bucket - 1;
        } else {
          found, ptr := FindAtRoot(bucket, brk, s1);
          return;
        }
      }
    }

    /** One round of bmalloc's splitting loop: the right half of node i goes on list b. */
    method CarveRound(i: nat, b: nat, ghost s: State)
      requires Rep() && booted && s == Abs() && Level(i) < LAST_BUCKET && RightHalfReady(s, i, b)
      requires Off(guard, Addr(Right(i)))
      modifies this`free, lists, bits.bytes
      ensures Rep() && Abs() == CarveNext(s, i)
    {
      hide Coupled, HeadersHold, Guarded, Off;
      FlipParentOf(2 * i + 1);
      PushNode(PtrForNode(2 * i + 2, b), Right(i), b);
    }

    /** bmalloc's splitting loop. */
    method CarveDown(node: nat, from: nat, ob: nat, ghost others: set<nat>)
      requires Rep() && booted && Level(node) == from <= ob <= LAST_BUCKET && Holding(Abs(), others, node)
        && guard <= others
      modifies this`free, lists, bits.bytes
      ensures Rep() && Abs() == Carve(old(Abs()), node, from, ob)
    {
      hide Start, PtrForNode, Scale, Pow2, Carve, Holding, CarveNext, RightHalfReady, Coupled, HeadersHold, Guarded,
        Off;
      ghost var result := Carve(Abs(), node, from, ob);
      var i, bucket := node, from;
      while bucket < ob
        invariant Rep() && booted && Level(i) == bucket <= ob && Holding(Abs(), others, i)
        invariant Carve(Abs(), i, bucket, ob) == result
      {
        ghost var s := Abs();
        CarveSafe(s, others, i, bucket);
        HoldingOff(guard, s, others, i);
        CarveUnfold(s, i, bucket, ob);
        CarveRound(i, bucket + 1, s);
        i := i * 2 + 1;
        bucket := bucket + 1;
      }
      CarveDone(Abs(), i, ob);
    }

    /** The rest of bmalloc once memory for the popped block is reserved. */
    method CarveAndWrite(ptr: nat, b: nat, ob: nat, request: Word, ghost g: State)
      requires Rep() && booted && Tree(g) && b <= ob <= LAST_BUCKET && g.free[b] != []
      requires Abs() == g.(free := BuddyModel.Pop(g.free, b), maxPtr := maxPtr) && ptr == Addr(Last(g.free[b]))
      modifies this`free, this`header, this`live, lists, bits.bytes
      ensures Rep() && Abs() == Taken(g, b, ob, request, maxPtr)
    {
      hide PtrForNode, Scale, Pow2, Start, TreeInv, Coupled, Carve, BuddyModel.Pop, Guarded, Off, Addr, NodeForPtr,
        Leftmost, HeadersHold;
      PoppedFacts(g, b);
      HeaderWritten(g, b, ob, request, maxPtr, header);
      GuardInside(guard, live.Keys, free, was, Now());
      FreeOff(guard, g, b);
      var i := NodeForPtr(ptr, b);
      FlipParentOf(i);
      CarveDown(i, b, ob, g.live.Keys);
      ghost var now := Now();
      header := header[ptr := request];
      live := live[Leftmost(i, b, ob) := request];
      HeaderGuards(guard, g.live.Keys, live.Keys, free, was, now, Now(), ptr);
    }

    /** Put a popped block back when its memory is refused. */
    method PutBack(ptr: nat, b: nat, ghost g: State)
      requires Rep() && booted && Tree(g) && g.limit <= b <= LAST_BUCKET && g.free[b] != []
      requires Abs() == g.(free := BuddyModel.Pop(g.free, b)) && ptr == Addr(Last(g.free[b]))
      modifies this`free, lists
      ensures Rep() && Abs() == g
    {
      hide Guarded, Off;
      PoppedFacts(g, b);
      GuardInside(guard, live.Keys, free, was, Now());
      FreeOff(guard, g, b);
      PushNode(ptr, Last(g.free[b]), b);
    }

    /** The rest of bmalloc once a block has been popped from the list of bucket b. */
    method TakeBlock(ptr: nat, bytesNeeded: nat, b: nat, ob: nat, request: Word, brk: Brk, ghost g: State)
      returns (ok: bool)
      requires Rep() && booted && Tree(g) && g.limit <= b <= ob <= LAST_BUCKET && g.free[b] != []
      requires Abs() == g.(free := BuddyModel.Pop(g.free, b)) && ptr == Addr(Last(g.free[b]))
      modifies this`free, this`maxPtr, this`header, this`live, lists, bits.bytes
      ensures Rep() && (ok, maxPtr) == Reserve(g.maxPtr, ptr + bytesNeeded, brk)
      ensures Abs() == if ok then Taken(g, b, ob, request, maxPtr) else g
    {
      hide Coupled, HeadersHold, Guarded, Off, Taken, Addr, TreeInv, BuddyModel.Pop;
      ok := UpdateMaxPtr(ptr + bytesNeeded, brk);
      if ok {
        CarveAndWrite(ptr, b, ob, request, g);
      } else {
        PutBack(ptr, b, g);
      }
    }

    /** bmalloc from the pop on. */
    method Finish(ptr: nat, bucket: nat, ob: nat, request: Word, brk: Brk, ghost s: State, ghost f: Found)
      returns (r: Pointer)
      requires Rep() && booted && Shaped(s) && ob <= LAST_BUCKET && f == Locate(s, ob, brk)
      requires Tree(f.state) && FoundFrom(s, ob, f) && Popped(Abs(), f, true, ptr, bucket)
        && PoppedBlock(f.state, bucket)
      modifies this`free, this`maxPtr, this`header, this`live, lists, bits.bytes
      ensures Rep() && (Abs(), r) == (Allocate(s, request, ob, brk).0, Result(Allocate(s, request, ob, brk).1))
    {
      hide Start, PtrForNode, Scale, Pow2, Carve, TreeInv, Taken, Locate, Allocate, BucketFor, Size, Coupled,
        HeadersHold, Guarded, Off;
      var ok := TakeBlock(ptr, BytesNeeded(bucket, ob), bucket, ob, request, brk, f.state);
      AllocateTook(s, request, ob, brk, f, ok, maxPtr);
      r := if ok then Offset(ptr + HEADER_SIZE) else NullPointer;
    }

    /** bmalloc once the globals are initialised and the bucket is known. */
    method AllocateBlock(request: Word, ob: nat, brk: Brk, ghost s: State) returns (r: Pointer)
      requires Ready() && ob <= LAST_BUCKET && s == Abs()
      modifies this`bucketLimit, this`free, this`maxPtr, this`header, this`live, lists, bits.bytes
      ensures Rep() && (Abs(), r) == (Allocate(s, request, ob, brk).0, Result(Allocate(s, request, ob, brk).1))
    {
      hide Coupled, HeadersHold, Guarded, Off;
      ghost var f := Locate(s, ob, brk);
      var found, ptr, bucket := FindBlock(ob, brk, f);
      LocateKeeps(s, ob, brk);
      LocateShape(s, ob, brk);
      if found {
        PoppedFacts(f.state, bucket);
        r := Finish(ptr, bucket, ob, request, brk, s, f);
      } else {
        r := NullPointer;
      }
    }

    /** bmalloc */
    method Malloc(request: Word, brk: Brk) returns (r: Pointer)
      requires Rep() && Inv(Abs())
      modifies this, lists, bits.bytes
      ensures Rep() && Inv(Abs())
      ensures var (t, outcome) := BuddyModel.Malloc(old(Abs()), request, brk);
              Abs() == t && outcome != Fault && r == Result(outcome)
      ensures Spared(old(live).Keys, old(lists.prev), lists.prev) && Spared(old(live).Keys, old(lists.next), lists.next)
      ensures HeadersSpared(old(live).Keys, old(header), header)
    {
      hide Coupled, HeadersHold, ListsOff, Spared, HeadersSpared, Off, Inv, TreeInv, Allocate, Initial, BucketFor, Size;
      ghost var s := Abs();
      MallocKeeps(s, request, brk);
      InvOff(live.Keys, s);
      guard, was := live.Keys, Now();
      GuardStarts(guard, live.Keys, free, was);
      if Need(request) > Size(0) { return NullPointer; }
      BootKeeps(s, brk);
      if !booted { Boot(brk); }
      assert Abs() == BuddyModel.Boot(s, brk);
      var ob := BucketForRequest(Need(request));
      r := AllocateBlock(request, ob, brk, Abs());
    }

    // -------------------------------------------------------------- bfree

    /** bfree's merging loop and the final push. */
    method ReleaseBlock(node: nat, from: nat, ghost others: set<nat>)
      requires Rep() && booted && Level(node) == from <= LAST_BUCKET && Holding(Abs(), others, node) && guard <= others
      modifies this`free, lists, bits.bytes
      ensures Rep() && Abs() == Release(old(Abs()), node, from)
    {
      hide Start, PtrForNode, Scale, Pow2, Release, Holding, Without, Addr, NoBlockAt, Distinct, Size, Root,
        Coupled, HeadersHold, Guarded, Off;
      ghost var result := Release(Abs(), node, from);
      var i, bucket := node, from;
      HoldingOff(guard, Abs(), others, i);
      while i != 0
        invariant Rep() && booted && Level(i) == bucket <= LAST_BUCKET && Holding(Abs(), others, i)
          && Off(guard, Addr(i))
        invariant Release(Abs(), i, bucket) == result
        decreases bucket
      {
        ghost var s := Abs();
        ReleaseSafe(s, others, i, bucket);
        FlipParentOf(i);
        var split := bits.ParentIsSplit(i);
        if split || bucket == bucketLimit {
          assert LastPush(Abs(), i, bucket, result);
          break;
        }
        RemoveNode(PtrForNode(Sibling(i), bucket), Sibling(i), bucket);
        i := (i - 1) / 2;
        bucket := bucket - 1;
        HoldingOff(guard, Abs(), others, i);
      }
      if i == 0 { ReleaseAtTop(Abs(), others, bucket, result); }
      PushNode(PtrForNode(i, bucket), i, bucket);
    }

    /** bfree of NULL, or of a pointer that bmalloc returned for the block of a live node. */
    method Free(ptr: Pointer, ghost node: nat)
      requires Rep() && Inv(Abs())
      requires ptr.Offset? ==> booted && node in live && ptr.offset == Addr(node) + HEADER_SIZE
      modifies this, lists, bits.bytes
      ensures Rep() && Inv(Abs())
      ensures ptr == NullPointer ==> Abs() == old(Abs())
      ensures ptr.Offset? ==> Level(node) <= LAST_BUCKET && Abs() == BuddyModel.Free(old(Abs()), node)
      ensures Spared(live.Keys, old(lists.prev), lists.prev) && Spared(live.Keys, old(lists.next), lists.next)
      ensures header == old(header)
    {
      hide ListsOff, Spared, HeadersSpared, Off, Start, PtrForNode, NodeForPtr, Scale, Pow2, Release, Holding, Inv,
        TreeInv, Need, Addr, BucketFor;
      ghost var s := Abs();
      if ptr == NullPointer {
        SparedSelf(live.Keys, lists.prev);
        SparedSelf(live.Keys, lists.next);
        return;
      }
      FreeKeeps(s, node);
      FreeFindsNode(s, node);
      var start := ptr.offset - HEADER_SIZE;
      var bucket := BucketForRequest(Need(header[start]));
      var i := NodeForPtr(start, bucket);
      InvOff(s.live.Keys - {node}, s);
      live := live - {node};
      guard, was := s.live.Keys - {node}, Now();
      GuardStarts(guard, live.Keys, free, was);
      ReleaseBlock(i, bucket, s.live.Keys - {node});
    }
  }

  // ---------------------------------------------------------------- guarded blocks

  lemma AddressesOff(guard: set<nat>, free: seq<seq<nat>>, b: nat)
    requires ListsOff(guard, free) && b < |free|
    ensures forall k | 0 <= k < |Addresses(free[b])| :: Off(guard, Addresses(free[b])[k])
  {
    hide Off, Addr;
    forall k | 0 <= k < |free[b]| ensures Off(guard, Addresses(free[b])[k]) { assert free[b][k] in free[b]; }
  }

  lemma ListGuards(guard: set<nat>, live: set<nat>, free: seq<seq<nat>>, was: Snapshot, now: Snapshot, b: nat)
    requires Guarded(guard, live, free, was, now) && b < |free|
    ensures ListsOff(guard, free)
    ensures forall k | 0 <= k < |Addresses(free[b])| :: Off(guard, Addresses(free[b])[k])
  {
    hide Off, Addr, ListsOff, Spared, HeadersSpared;
    AddressesOff(guard, free, b);
  }

  lemma PushGuards(guard: set<nat>, live: set<nat>, free: seq<seq<nat>>, was: Snapshot, now: Snapshot, b: nat, i: nat)
    requires Guarded(guard, live, free, was, now) && b < |free| && Off(guard, Addr(i))
    ensures ListsOff(guard, Push(free, b, i))
    ensures var l := Addresses(free[b]) + [Addr(i)]; forall k | 0 <= k < |l| :: Off(guard, l[k])
  {
    hide Off, Addr, ListsOff, Spared, HeadersSpared;
    AddressesOff(guard, free, b);
    PushOff(guard, free, b, i);
  }

  lemma RemoveGuards(guard: set<nat>, free: seq<seq<nat>>, b: nat, i: nat)
    requires ListsOff(guard, free) && b < |free| && Distinct(free[b])
    ensures ListsOff(guard, Remove(free, b, i))
  {
    hide Off, Addr;
    WithoutMembers(free[b], i);
    FewerOff(guard, free, Remove(free, b, i));
  }

  lemma PopGuards(guard: set<nat>, free: seq<seq<nat>>, b: nat)
    requires ListsOff(guard, free) && b < |free|
    ensures free[b] != [] ==> ListsOff(guard, BuddyModel.Pop(free, b))
  {
    hide Off, Addr;
    if free[b] != [] { FewerOff(guard, free, BuddyModel.Pop(free, b)); }
  }

  lemma EmptyGuards(guard: set<nat>, live: set<nat>, free: seq<seq<nat>>, was: Snapshot, now: Snapshot, b: nat)
    requires Guarded(guard, live, free, was, now) && b < |free|
    ensures ListsOff(guard, free[b := []])
  {
    hide Off, Addr, Spared, HeadersSpared;
    FewerOff(guard, free, free[b := []]);
  }

  lemma GuardInside(guard: set<nat>, live: set<nat>, free: seq<seq<nat>>, was: Snapshot, now: Snapshot)
    requires Guarded(guard, live, free, was, now)
    ensures guard <= live
  {
  }

  lemma NothingGuarded(guard: set<nat>, live: set<nat>, free: seq<seq<nat>>, was: Snapshot, now: Snapshot)
    requires guard <= live == {}
    ensures Guarded(guard, live, free, was, now)
  {
  }

  lemma NoGuard(guard: set<nat>, live: set<nat>, x: nat)
    requires guard <= live == {}
    ensures Off(guard, x)
  {
  }

  lemma SparedSelf(guard: set<nat>, links: Links)
    ensures Spared(guard, links, links)
  {
  }

  lemma InvOff(guard: set<nat>, s: State)
    requires Inv(s) && guard <= s.live.Keys
    ensures ListsOff(guard, s.free)
  {
    hide TreeInv;
    if s.booted { ListedOff(guard, s.limit, s.live.Keys, s.split, s.free); }
  }

  lemma RightChildOff(guard: set<nat>, s: State)
    requires Tree(s) && s.limit > 0 && guard <= s.live.Keys
    ensures Off(guard, Addr(Root(s.limit) + 1))
  {
    RightOff(guard, s.limit, s.live.Keys);
  }

  lemma FreeOff(guard: set<nat>, g: State, b: nat)
    requires Tree(g) && guard <= g.live.Keys && b <= LAST_BUCKET && g.free[b] != []
    ensures Off(guard, Addr(Last(g.free[b])))
  {
    hide TreeInv, Off, Addr;
    TreeShaped(g);
    ListedOff(guard, g.limit, g.live.Keys, g.split, g.free);
    assert Last(g.free[b]) in g.free[b];
  }

  lemma HoldingOff(guard: set<nat>, s: State, others: set<nat>, i: nat)
    requires Holding(s, others, i) && guard <= others
    ensures Off(guard, Addr(i)) && (Level(i) < LAST_BUCKET ==> Off(guard, Addr(Right(i))))
  {
    hide Off, Addr, Start;
    assert i in others + {i};
    assert others + {i} - {i} == others;
    WithinItself(i);
    HeldOff(guard, s.limit, others + {i}, i, i);
    ChildFacts(i);
    if Level(i) < LAST_BUCKET { HeldOff(guard, s.limit, others + {i}, i, Right(i)); }
  }

  /** A header written off the guard, for one more live block. */
  lemma HeaderGuards(guard: set<nat>, live: set<nat>, live': set<nat>, free: seq<seq<nat>>, was: Snapshot,
                     now: Snapshot, after: Snapshot, x: nat)
    requires Guarded(guard, live, free, was, now) && live <= live' && Off(guard, x)
    requires after.prev == now.prev && after.next == now.next
    requires forall y | y != x ::
      (y in after.header <==> y in now.header) && (y in now.header ==> after.header[y] == now.header[y])
    ensures Guarded(guard, live', free, was, after)
  {
    hide Off, ListsOff, Spared;
  }

  /** Pushing block i on list b completes bfree, and i is on no list yet. */
  ghost predicate LastPush(t: State, i: nat, b: nat, result: State) {
    && Shaped(t) && t.limit <= b <= LAST_BUCKET
    && NoBlockAt(t.free, Addr(i)) && Pow2(b) <= i + 1 && Addr(i) == PtrForNode(i, b)
    && result == t.(free := Push(t.free, b, i))
  }

  /** The buddy about to be removed really is on list b. */
  ghost predicate BuddyListed(t: State, i: nat, b: nat) {
    && i > 0 && Shaped(t) && t.limit <= b <= LAST_BUCKET
    && Sibling(i) in t.free[b] && Distinct(t.free[b])
    && Pow2(b) <= Sibling(i) + 1 && Addr(Sibling(i)) == PtrForNode(Sibling(i), b)
  }

  lemma AddrIsPtr(i: nat)
    requires Level(i) <= LAST_BUCKET
    ensures Pow2(Level(i)) <= i + 1 && Addr(i) == PtrForNode(i, Level(i))
  {
    LevelRange(i);
  }

  lemma HoldingFacts(s: State, others: set<nat>, i: nat)
    requires Holding(s, others, i)
    ensures s.limit <= Level(i) <= LAST_BUCKET && NoBlockAt(s.free, Addr(i))
  {
    assert i in others + {i};
    WithinLevel(Root(s.limit), i);
    RootLevel(s.limit);
    LiveNotListed(s.limit, others + {i}, s.split, s.free, i, i);
  }

  /** Each round of bfree's loop either may push its block or finds the buddy where it looks. */
  lemma ReleaseSafe(s: State, others: set<nat>, i: nat, b: nat)
    requires Holding(s, others, i) && Level(i) == b <= LAST_BUCKET && i > 0
    ensures Parent(i) < 8 * BYTES
    ensures Stops(s, i) ==> LastPush(s.(split := FlipParent(s.split, i)), i, b, Release(s, i, b))
    ensures !Stops(s, i) ==>
              && BuddyListed(s.(split := FlipParent(s.split, i)), i, b)
              && Holding(Merged(s, i), others, Parent(i)) && Level(Parent(i)) == b - 1
              && Release(s, i, b) == Release(Merged(s, i), Parent(i), b - 1)
  {
    ParentInRange(i);
    HoldingFacts(s, others, i);
    AddrIsPtr(i);
    if !Stops(s, i) {
      ReleaseMerges(s, others, i);
      ReleaseUnfold(s, i);
      SiblingFacts(i);
      AddrIsPtr(Sibling(i));
    }
  }

  lemma ReleaseAtTop(s: State, others: set<nat>, b: nat, result: State)
    requires Level(0) == b
    ensures Holding(s, others, 0) && Release(s, 0, b) == result ==> LastPush(s, 0, b, result)
  {
    if Holding(s, others, 0) {
      HoldingFacts(s, others, 0);
      AddrIsPtr(0);
    }
  }

  /** The header leads bfree back to the node that bmalloc carved. */
  lemma FreeFindsNode(s: State, node: nat)
    requires Inv(s) && s.booted && node in s.live
    ensures Level(node) == BucketFor(Need(s.live[node])) <= LAST_BUCKET && Need(s.live[node]) <= Size(0)
    ensures NodeForPtr(Addr(node), Level(node)) == node && Addr(node) == Start(node)
    ensures Holding(s.(live := s.live - {node}), s.live.Keys - {node}, node)
  {
    PtrNodeInverse(node);
    assert s.live.Keys - {node} + {node} == s.live.Keys;
  }

  /** What bmalloc returns: the address just after the block's header. */
  function Result(outcome: Outcome): Pointer {
    if outcome.Block? then Offset(Addr(outcome.node) + HEADER_SIZE) else NullPointer
  }

  /** State t is that of the search result f with the block found, if any, popped from its list. */
  ghost predicate Popped(t: State, f: Found, found: bool, ptr: nat, bucket: nat) {
    && found == f.outcome.Block? && bucket == f.bucket
    && (if found then
          && bucket < |f.state.free| && f.state.free[bucket] != [] && ptr == Addr(f.outcome.node)
          && f.outcome.node == Last(f.state.free[bucket])
          && t == f.state.(free := BuddyModel.Pop(f.state.free, bucket)) && t.limit <= bucket
        else t == f.state)
  }

  /** Counting node i as live besides the others, the invariant holds. */
  ghost predicate Holding(s: State, others: set<nat>, i: nat) {
    Shaped(s) && i !in others && TreeInv(s.limit, others + {i}, s.split, s.free)
  }

  /** The state after one round of splitting node i. */
  ghost function CarveNext(s: State, i: nat): State
    requires Shaped(s) && Level(i) < LAST_BUCKET
  {
    s.(split := Flip(s.split, i), free := Push(s.free, Level(i) + 1, Right(i)))
  }

  ghost predicate RightHalfReady(s: State, i: nat, b: nat) {
    && Shaped(s) && s.limit <= b <= LAST_BUCKET && b == Level(i) + 1
    && Level(Left(i)) == b && Parent(Left(i)) == i && Left(i) > 0
    && NoBlockAt(s.free, Addr(Right(i))) && Pow2(b) <= Right(i) + 1 && Addr(Right(i)) == PtrForNode(Right(i), b)
  }

  /** The right half about to be pushed is on no list. */
  lemma CarveSafe(s: State, others: set<nat>, i: nat, b: nat)
    requires Holding(s, others, i) && Level(i) == b < LAST_BUCKET
    ensures RightHalfReady(s, i, b + 1) && Holding(CarveNext(s, i), others, Left(i)) && Level(Left(i)) == b + 1
    ensures Shaped(CarveNext(s, i))
  {
    hide Holding, NoBlockAt, Addr, PtrForNode, Scale, Pow2;
    HoldingFacts(s, others, i);
    ChildFacts(i);
    CarveHolds(s, others, i);
    RightHalfAddress(i);
  }

  lemma CarveHolds(s: State, others: set<nat>, i: nat)
    requires Holding(s, others, i) && Level(i) < LAST_BUCKET
    ensures Shaped(s) && Shaped(CarveNext(s, i)) && Holding(CarveNext(s, i), others, Left(i))
    ensures NoBlockAt(s.free, Addr(Right(i)))
  {
    hide TreeInv, NoBlockAt, Start;
    CarveStep(s.limit, others, s.split, s.free, i);
    ChildFacts(i);
    assert i in others + {i};
    assert Within(i, Right(i));
    LiveNotListed(s.limit, others + {i}, s.split, s.free, i, Right(i));
  }

  lemma RightHalfAddress(i: nat)
    requires Level(i) < LAST_BUCKET
    ensures Level(Right(i)) == Level(i) + 1 && Pow2(Level(i) + 1) <= Right(i) + 1
    ensures Addr(Right(i)) == PtrForNode(Right(i), Level(i) + 1)
  {
    ChildFacts(i);
    LevelRange(Right(i));
  }

  lemma LocateUnfold(s: State, bucket: nat, brk: Brk)
    requires Shaped(s) && bucket <= LAST_BUCKET
    ensures var (s1, ok) := Lower(s, bucket, brk);
      var f := Locate(s, bucket, brk);
      && (!ok ==> f == Found(s1, Null, bucket))
      && (ok ==>
            && Shaped(s1) && s1.limit <= bucket
            && (s1.free[bucket] != [] ==> f == Found(s1, Block(Last(s1.free[bucket])), bucket))
            && (s1.free[bucket] == [] ==>
                  && (bucket == 0 ==> f == Found(s1, Null, bucket))
                  && (bucket > 0 && bucket != s1.limit ==> f == Locate(s1, bucket - 1, brk))
                  && (bucket > 0 && bucket == s1.limit ==> f == LocateAtRoot(s1, bucket, brk))))
  {
    LowerShape(s, bucket, brk);
  }

  lemma LowerUnfold(s: State, bucket: nat, brk: Brk)
    requires Shaped(s)
    ensures s.limit <= bucket ==> Lower(s, bucket, brk) == (s, true)
    ensures bucket < s.limit ==>
              var (ok, m) := Reserve(s.maxPtr, GrowthNeeds(s), brk);
              && Shaped(GrowOne(s, m)) && GrowOne(s, m).limit == s.limit - 1 && GrowOne(s, m).booted == s.booted
              && (RootInUse(s) && !ok ==> Lower(s, bucket, brk) == (s, false))
              && (!RootInUse(s) || ok ==> Lower(s, bucket, brk) == Lower(GrowOne(s, m), bucket, brk))
  {
  }

  lemma CarveDone(s: State, i: nat, ob: nat)
    requires Shaped(s) && ob <= LAST_BUCKET
    ensures Carve(s, i, ob, ob) == s
  {
  }

  lemma CarveUnfold(s: State, i: nat, b: nat, ob: nat)
    requires Shaped(s) && Level(i) == b < ob <= LAST_BUCKET
    ensures Carve(s, i, b, ob) == Carve(CarveNext(s, i), Left(i), b + 1, ob)
  {
  }

  /** Allocate in terms of the block found and of whether its memory was granted. */
  lemma AllocateTook(s: State, request: Word, ob: nat, brk: Brk, f: Found, ok: bool, m: nat)
    requires Shaped(s) && ob <= LAST_BUCKET && f == Locate(s, ob, brk)
    requires FoundFrom(s, ob, f) && f.outcome.Block? && PoppedBlock(f.state, f.bucket)
    requires (ok, m) == Reserve(f.state.maxPtr, Addr(f.outcome.node) + BytesNeeded(f.bucket, ob), brk)
    ensures var a := Allocate(s, request, ob, brk);
            && a.0 == (if ok then Taken(f.state, f.bucket, ob, request, m) else f.state)
            && Result(a.1) == if ok then Offset(Addr(f.outcome.node) + HEADER_SIZE) else NullPointer
  {
    hide Carve, Start, Scale, Pow2;
    AllocateIsTake(s, request, ob, brk, f);
    TakeUnfold(f.state, f.bucket, ob, request, brk);
    TakeAddress(f.state, f.bucket, ob);
  }

  lemma AllocateIsTake(s: State, request: Word, ob: nat, brk: Brk, f: Found)
    requires Shaped(s) && ob <= LAST_BUCKET && f == Locate(s, ob, brk) && FoundFrom(s, ob, f)
    requires f.outcome.Block? && Pow2(f.bucket) <= f.outcome.node + 1
    ensures Allocate(s, request, ob, brk) == Take(f.state, f.bucket, ob, request, brk)
  {
  }

  lemma TakeUnfold(g: State, b: nat, ob: nat, request: Word, brk: Brk)
    requires Shaped(g) && b <= ob <= LAST_BUCKET && g.free[b] != [] && PoppedBlock(g, b)
    ensures var i := Last(g.free[b]);
            var (ok, m) := Reserve(g.maxPtr, Addr(i) + BytesNeeded(b, ob), brk);
            Take(g, b, ob, request, brk) ==
              if ok then (Taken(g, b, ob, request, m), Block(Leftmost(i, b, ob))) else (g, Null)
  {
  }

  lemma TakeAddress(g: State, b: nat, ob: nat)
    requires b <= ob <= LAST_BUCKET && b < |g.free| && g.free[b] != [] && Level(Last(g.free[b])) == b
    ensures Addr(Leftmost(Last(g.free[b]), b, ob)) == Addr(Last(g.free[b]))
  {
    LeftmostStart(Last(g.free[b]), b, ob);
  }

  /** The last block of list b is a node of that bucket, and pushing it back undoes the pop. */
  ghost predicate PoppedBlock(g: State, b: nat)
    requires Shaped(g) && b <= LAST_BUCKET && g.free[b] != []
  {
    var i := Last(g.free[b]);
    && Level(i) == b && Pow2(b) <= i + 1 && Addr(i) == PtrForNode(i, b)
    && Push(BuddyModel.Pop(g.free, b), b, i) == g.free
  }

  lemma PoppedFacts(g: State, b: nat)
    requires Tree(g) && b <= LAST_BUCKET && g.free[b] != []
    ensures var i := Last(g.free[b]);
            && PoppedBlock(g, b) && i !in g.live && NodeForPtr(Addr(i), b) == i
            && NoBlockAt(BuddyModel.Pop(g.free, b), Addr(i))
            && Holding(g.(split := FlipParent(g.split, i), free := BuddyModel.Pop(g.free, b)), g.live.Keys, i)
  {
    PopKeeps(g, b);
    var i := Last(g.free[b]);
    LevelRange(i);
    PtrNodeInverse(i);
    assert i in g.live.Keys + {i};
    LiveNotListed(g.limit, g.live.Keys + {i}, FlipParent(g.split, i), BuddyModel.Pop(g.free, b), i, i);
  }

  /** Writing the new block's header completes bmalloc, and touches no other live block's header. */
  lemma HeaderWritten(g: State, b: nat, ob: nat, request: Word, m: nat, header: map<nat, Word>)
    requires Tree(g) && b <= ob <= LAST_BUCKET && g.free[b] != [] && HeadersHold(header, g.live)
    ensures var i := Last(g.free[b]);
            var j := Leftmost(i, b, ob);
            && Addr(j) == Addr(i)
            && HeadersHold(header[Addr(i) := request], g.live[j := request])
            && Taken(g, b, ob, request, m) ==
                 Carve(g.(free := BuddyModel.Pop(g.free, b), maxPtr := m, split := FlipParent(g.split, i)), i, b, ob)
                   .(live := g.live[j := request])
  {
    var i := Last(g.free[b]);
    var j := Leftmost(i, b, ob);
    PopKeeps(g, b);
    CarveTaken(g, b, ob, request, m);
    LeftmostStart(i, b, ob);
    CarveFrame(g.(free := BuddyModel.Pop(g.free, b), maxPtr := m, split := FlipParent(g.split, i)), i, b, ob,
      g.live[j := request]);
    var t := Taken(g, b, ob, request, m);
    forall n | n in g.live ensures Start(n) != Start(j) {
      assert n in t.live.Keys && j in t.live.Keys && n != j;
      DisjointBlocks(n, j);
    }
  }

  lemma {:induction false} LeftmostStart(i: nat, b: nat, ob: nat)
    requires Level(i) == b <= ob <= LAST_BUCKET
    ensures Level(Leftmost(i, b, ob)) == ob && Start(Leftmost(i, b, ob)) == Start(i)
    decreases ob - b
  {
    if b < ob {
      ChildBlocks(i);
      LeftmostStart(Left(i), b + 1, ob);
    }
  }

  lemma OneBlockCoupled(limit: nat)
    requires limit == LAST_BUCKET
    ensures Coupled(map[limit := [0]], OneBlock(limit), limit)
  {
    OneBlockAddresses(limit);
  }

  lemma OneBlockAddresses(limit: nat)
    requires limit <= LAST_BUCKET
    ensures Addresses(OneBlock(limit)[limit]) == [0]
  {
    RootBlock(limit);
    assert OneBlock(limit)[limit] == [Root(limit)];
    assert Addr(Root(limit)) == 0;
  }

  lemma AboveRoot(b: nat)
    requires 0 < b <= LAST_BUCKET
    ensures Root(b) > 0 && (Root(b) - 1) / 2 == Parent(Root(b)) && Level(Parent(Root(b))) <= LAST_BUCKET
  {
    RootFacts(b);
  }

  /** When the root is free it is the only block on any list. */
  lemma OnlyRootListed(s: State)
    requires Tree(s) && s.limit > 0 && !RootInUse(s)
    ensures s.free == OneBlock(s.limit) && s.live == map[]
  {
    RootBit(s);
    EmptyTree(s);
  }

  /** Removing the root, starting a new list and pushing the new root is one step of growth. */
  lemma GrowUnusedSteps(s: State, m: nat)
    requires Shaped(s) && s.limit > 0 && !RootInUse(s) && s.free == OneBlock(s.limit)
    ensures Root(s.limit) in s.free[s.limit] && Distinct(s.free[s.limit])
    ensures var free1 := Remove(s.free, s.limit, Root(s.limit));
            var free2 := free1[s.limit - 1 := []];
            && (forall x :: NoBlockAt(free2, x))
            && GrowOne(s, m) == s.(limit := s.limit - 1, free := Push(free2, s.limit - 1, Root(s.limit - 1)))
  {
    var free1 := Remove(s.free, s.limit, Root(s.limit));
    assert free1[s.limit] == [];
    var up, r := s.limit - 1, Root(s.limit - 1);
    assert [] + [r] == [r];
    assert Push(free1[up := []], up, r) == free1[up := [r]];
  }

  lemma GrowUsedSteps(s: State, m: nat)
    requires Shaped(s) && s.limit > 0 && RootInUse(s)
    ensures GrowOne(s, m) == s.(limit := s.limit - 1,
                                split := FlipParent(s.split, Parent(Root(s.limit))),
                                free := Push(s.free, s.limit, Root(s.limit) + 1)[s.limit - 1 := []],
                                maxPtr := m)
  {
  }

  /** node_for_ptr(base_ptr, b) is the root of the tree at bucket b. */
  lemma RootFromBase(b: nat)
    requires b <= LAST_BUCKET
    ensures NodeForPtr(0, b) == Root(b) && Level(Root(b)) == b && Pow2(b) <= Root(b) + 2
  {
    RootLevel(b);
  }

  lemma RootInRange(b: nat)
    requires 0 < b <= LAST_BUCKET
    ensures Root(b) > 0 && Parent(Root(b)) < 8 * BYTES
  {
    RootFacts(b);
    ParentInRange(Root(b));
  }

  /** The block to the right of the root's region is on no list. */
  lemma RightOfRootListed(s: State)
    requires Tree(s) && s.limit > 0
    ensures NoBlockAt(s.free, Addr(Root(s.limit) + 1))
  {
    var x := Addr(Root(s.limit) + 1);
    forall b | 0 <= b < |s.free| ensures x !in Addresses(s.free[b]) {
      if x in Addresses(s.free[b]) {
        MapAddrMember(Addr, s.free[b], x);
        var n :| n in s.free[b] && Addr(n) == x;
        RightOfRootElsewhere(s, n);
      }
    }
  }

  lemma RightOfRootElsewhere(s: State, n: nat)
    requires Shaped(s) && s.limit > 0 && Within(Root(s.limit), n) && Level(n) <= LAST_BUCKET
    ensures Addr(n) != Addr(Root(s.limit) + 1)
  {
    hide Start, End, Within, Overlap, Scale, Pow2;
    var root, r := Root(s.limit), Root(s.limit) + 1;
    RightOfRootStart(s);
    WithinItself(r);
    WithinBlocks(r, r);
    RootLevel(s.limit);
    SameLevelDisjoint(root, r);
    DisjointBlocks(root, r);
    WithinBlocks(root, n);
  }
}
