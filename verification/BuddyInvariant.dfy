/**
 * What every operation of the buddy allocator keeps: each stored bit is the exclusive-or of
 * the UNUSED flags of the node's children, and the free lists hold exactly the maximal
 * UNUSED nodes. UNUSED is never stored; here it means that no live block overlaps the node.
 */
module BuddyInvariant {
  import opened BuddyTree
  import opened BuddyModel

  ghost predicate Unused(live: set<nat>, n: nat) {
    forall m | m in live :: !Overlap(n, m)
  }

  /** Live blocks lie under the root, are not smaller than MIN_ALLOC and do not overlap. */
  ghost predicate Placed(limit: nat, live: set<nat>) {
    && (forall m | m in live :: Within(Root(limit), m) && Level(m) <= LAST_BUCKET)
    && (forall m, n | m in live && n in live && m != n :: !Overlap(m, n))
  }

  /** The ancestors of the root other than its parent, whose bits stay off. */
  ghost predicate AboveRootParent(limit: nat, n: nat) {
    Level(n) + 1 < limit && n == Root(Level(n))
  }

  ghost predicate ShouldSplit(limit: nat, live: set<nat>, n: nat) {
    && Level(n) < LAST_BUCKET
    && !AboveRootParent(limit, n)
    && Unused(live, Left(n)) != Unused(live, Right(n))
  }

  /** A maximal UNUSED node of the tree under the current root. */
  ghost predicate IsFree(limit: nat, live: set<nat>, n: nat) {
    && Within(Root(limit), n) && Level(n) <= LAST_BUCKET
    && Unused(live, n)
    && (n == Root(limit) || !Unused(live, Parent(n)))
  }

  ghost predicate Distinct(s: seq<nat>) {
    forall j, k | 0 <= j < k < |s| :: s[j] != s[k]
  }

  ghost predicate BitsExact(limit: nat, live: set<nat>, split: set<nat>) {
    forall n: nat :: n in split <==> ShouldSplit(limit, live, n)
  }

  ghost predicate ListsExact(limit: nat, live: set<nat>, free: seq<seq<nat>>) {
    && |free| == LAST_BUCKET + 1
    && (forall b | 0 <= b < |free| :: Distinct(free[b]))
    && (forall b, i: nat {:trigger i in free[b]} | 0 <= b < |free| ::
          i in free[b] <==> Level(i) == b && IsFree(limit, live, i))
  }

  ghost predicate TreeInv(limit: nat, live: set<nat>, split: set<nat>, free: seq<seq<nat>>) {
    && limit <= LAST_BUCKET
    && Placed(limit, live)
    && BitsExact(limit, live, split)
    && ListsExact(limit, live, free)
  }

  /** Each live block sits in the bucket that its request selects. */
  ghost predicate RequestsFit(live: map<nat, Word>) {
    forall m | m in live :: Need(live[m]) <= Size(0) && Level(m) == BucketFor(Need(live[m]))
  }

  ghost predicate Inv(s: State) {
    if s.booted then TreeInv(s.limit, s.live.Keys, s.split, s.free) && RequestsFit(s.live)
    else s == FRESH
  }

  /** The list entries of free blocks lie below max_ptr. */
  ghost predicate EntriesGranted(free: seq<seq<nat>>, maxPtr: nat) {
    forall b, i | 0 <= b < |free| && i in free[b] ::
      Level(i) <= LAST_BUCKET && Start(i) + LIST_ENTRY <= maxPtr
  }

  /** Live blocks, and the list entries of free blocks, lie in memory the kernel granted. */
  ghost predicate Backed(s: State) {
    && (forall m | m in s.live :: Level(m) <= LAST_BUCKET && End(m) <= s.maxPtr)
    && EntriesGranted(s.free, s.maxPtr)
  }

  // ---------------------------------------------------------------- sequences

  lemma {:induction false} WithoutMember(s: seq<nat>, x: nat, y: nat)
    requires Distinct(s)
    ensures y in Without(s, x) <==> y in s && y != x
  {
    if s != [] {
      assert s == [s[0]] + s[1..];
      assert s[0] !in s[1..];
      if s[0] != x { WithoutMember(s[1..], x, y); }
    }
  }

  lemma {:induction false} WithoutDistinct(s: seq<nat>, x: nat)
    requires Distinct(s)
    ensures Distinct(Without(s, x))
  {
    if s != [] && s[0] != x {
      WithoutDistinct(s[1..], x);
      WithoutMember(s[1..], x, s[0]);
      assert s[0] !in s[1..];
    }
  }

  lemma WithoutMembers(s: seq<nat>, x: nat)
    requires Distinct(s)
    ensures Distinct(Without(s, x))
    ensures forall y: nat :: y in Without(s, x) <==> y in s && y != x
  {
    WithoutDistinct(s, x);
    forall y: nat ensures y in Without(s, x) <==> y in s && y != x { WithoutMember(s, x, y); }
  }

  lemma {:induction false} WithoutLast(s: seq<nat>, x: nat)
    requires Distinct(s + [x])
    ensures Without(s + [x], x) == s
  {
    if s != [] {
      assert (s + [x])[0] == s[0] && (s + [x])[|s|] == x;
      assert (s + [x])[1..] == s[1..] + [x];
      assert forall k | 0 <= k < |s[1..] + [x]| :: (s[1..] + [x])[k] == (s + [x])[k + 1];
      WithoutLast(s[1..], x);
    }
  }

  lemma PushMembers(s: seq<nat>, x: nat)
    requires Distinct(s) && x !in s
    ensures Distinct(s + [x])
    ensures forall y: nat :: y in s + [x] <==> y in s || y == x
  {
  }

  // ---------------------------------------------------------------- UNUSED

  lemma UnusedBelow(live: set<nat>, a: nat, n: nat)
    requires Unused(live, a) && Within(a, n)
    ensures Unused(live, n)
  {
    forall m | m in live ensures !Overlap(n, m) {
      if Within(n, m) { WithinTrans(a, n, m); }
      if Within(m, n) { WithinLinear(a, m, n); }
    }
  }

  lemma UnusedAdd(live: set<nat>, i: nat, n: nat)
    ensures Unused(live + {i}, n) <==> Unused(live, n) && !Overlap(n, i)
  {
    assert i in live + {i};
    assert forall m :: m in live + {i} <==> m in live || m == i;
  }

  // ---------------------------------------------------------------- occupying one free node

  /** Node i may be handed out whole: it is unused, and the root or its parent is not. */
  ghost predicate Vacant(limit: nat, live: set<nat>, i: nat) {
    limit <= LAST_BUCKET && Placed(limit, live) && IsFree(limit, live, i)
  }

  /** The only UNUSED flags that a Vacant node's occupation changes are those inside it, or above an empty tree. */
  lemma OccupyUnused(limit: nat, live: set<nat>, i: nat, n: nat)
    requires Vacant(limit, live, i)
    ensures Within(i, n) ==> Unused(live, n) && !Unused(live + {i}, n)
    ensures !Within(i, n) && !(i == Root(limit) && Within(n, i)) ==> (Unused(live + {i}, n) <==> Unused(live, n))
  {
    UnusedAdd(live, i, n);
    if Within(i, n) {
      UnusedBelow(live, i, n);
    } else if Within(n, i) && i != Root(limit) {
      if Unused(live, n) {
        assert Within(n, Parent(i));
        UnusedBelow(live, n, Parent(i));
      }
    }
  }

  lemma OccupyFree(limit: nat, live: set<nat>, i: nat, n: nat)
    requires Vacant(limit, live, i)
    ensures IsFree(limit, live + {i}, n) <==> IsFree(limit, live, n) && n != i
  {
    OccupyUnused(limit, live, i, n);
    OccupyUnused(limit, live, i, Parent(n));
    if Within(Root(limit), n) {
      if Within(n, i) { WithinLevel(n, i); WithinLevel(Root(limit), n); }
      if Within(i, n) && n != i {
        // n is strictly inside i, so its parent is inside i too
        assert Within(i, Parent(n));
        WithinLevel(Root(limit), i);
        WithinLevel(i, Parent(n));
        if n == Root(limit) { WithinLevel(i, n); }
      }
    }
  }

  lemma OccupySplit(limit: nat, live: set<nat>, i: nat, n: nat)
    requires Vacant(limit, live, i)
    ensures ShouldSplit(limit, live + {i}, n) <==>
            (ShouldSplit(limit, live, n) != (i != 0 && n == Parent(i)))
  {
    ChildFacts(n);
    OccupyUnused(limit, live, i, Left(n));
    OccupyUnused(limit, live, i, Right(n));
    OccupySplitCases(limit, live, i, n);
  }

  lemma OccupySplitCases(limit: nat, live: set<nat>, i: nat, n: nat)
    requires Vacant(limit, live, i)
    requires forall c | c == Left(n) || c == Right(n) ::
               && (Within(i, c) ==> Unused(live, c) && !Unused(live + {i}, c))
               && (!Within(i, c) && !(i == Root(limit) && Within(c, i)) ==>
                     (Unused(live + {i}, c) <==> Unused(live, c)))
    ensures ShouldSplit(limit, live + {i}, n) <==>
            (ShouldSplit(limit, live, n) != (i != 0 && n == Parent(i)))
  {
    ChildFacts(n);
    var l, r := Left(n), Right(n);
    if Within(i, n) {
      // both flags change together, and n is not the parent of i
      WithinLevel(i, n);
      assert Within(i, l) && Within(i, r);
      if i != 0 && n == Parent(i) { assert false; }
    } else if i != 0 && n == Parent(i) {
      SiblingFacts(i);
      WithinLevel(Root(limit), i);
      SameLevelDisjoint(i, Sibling(i));
      RootFacts(limit);
      if AboveRootParent(limit, n) { assert false; }
    } else {
      assert l != i && r != i;
      assert !Within(i, l) && !Within(i, r);
      if i == Root(limit) && (Within(l, i) || Within(r, i)) {
        RootAncestor(limit, if Within(l, i) then l else r);
        RootFacts(limit);
      }
    }
  }

  /** A strict ancestor of the root is on the left spine, as is its parent. */
  lemma {:induction false} RootAncestor(limit: nat, c: nat)
    requires Within(c, Root(limit)) && c > 0 && c != Root(limit)
    ensures AboveRootParent(limit, Parent(c))
    decreases limit
  {
    RootFacts(limit);
    assert Within(c, Root(limit - 1));
    if c == Root(limit - 1) {
      RootFacts(limit - 1);
      assert limit >= 2 by { assert c != 0; }
      RootFacts(limit - 2);
    } else {
      RootAncestor(limit - 1, c);
    }
  }

  // ---------------------------------------------------------------- one block and its parent

  /** Node i is not the root, and nothing live overlaps its parent. */
  ghost predicate Halved(limit: nat, live: set<nat>, i: nat) {
    && limit <= LAST_BUCKET && Placed(limit, live)
    && Within(Root(limit), i) && i != Root(limit) && Level(i) <= LAST_BUCKET
    && Unused(live, Parent(i))
  }

  lemma HalvedUnused(limit: nat, live: set<nat>, i: nat, n: nat)
    requires i > 0 && Halved(limit, live, i)
    ensures Within(Sibling(i), n) ==> Unused(live + {i}, n) && !Unused(live + {Parent(i)}, n)
    ensures !Within(Sibling(i), n) ==> (Unused(live + {i}, n) <==> Unused(live + {Parent(i)}, n))
  {
    var p, s := Parent(i), Sibling(i);
    UnusedAdd(live, i, n);
    UnusedAdd(live, p, n);
    OverlapParent(n, i);
    if Within(s, n) {
      SiblingFacts(i);
      WithinTrans(p, s, n);
      UnusedBelow(live, p, n);
      SameLevelDisjoint(i, s);
      if Within(n, i) { WithinTrans(s, n, i); }
      if Within(i, n) { WithinLinear(i, s, n); }
    }
  }

  lemma HalvedFree(limit: nat, live: set<nat>, i: nat, n: nat)
    requires i > 0 && Halved(limit, live, i)
    ensures IsFree(limit, live + {i}, n) <==> IsFree(limit, live + {Parent(i)}, n) || n == Sibling(i)
    ensures !IsFree(limit, live + {Parent(i)}, Sibling(i))
  {
    var p, s := Parent(i), Sibling(i);
    SiblingFacts(i);
    HalvedUnused(limit, live, i, n);
    HalvedUnused(limit, live, i, Parent(n));
    HalvedUnused(limit, live, i, s);
    assert Within(Root(limit), p);
    WithinLevel(Root(limit), p);
    if n == s {
      WithinLevel(s, s);
      UnusedAdd(live, i, p);
    } else if Within(s, n) {
      assert Within(s, Parent(n));
      if n == Root(limit) { WithinLevel(s, n); }
    }
  }

  lemma HalvedSplit(limit: nat, live: set<nat>, i: nat, n: nat)
    requires i > 0 && Halved(limit, live, i)
    ensures ShouldSplit(limit, live + {i}, n) <==> (ShouldSplit(limit, live + {Parent(i)}, n) != (n == Parent(i)))
  {
    var p, s := Parent(i), Sibling(i);
    SiblingFacts(i);
    ChildFacts(n);
    HalvedUnused(limit, live, i, Left(n));
    HalvedUnused(limit, live, i, Right(n));
    if n == p {
      WithinLevel(Root(limit), p);
      RootFacts(limit);
      SameLevelDisjoint(i, s);
      UnusedAdd(live, i, i);
    } else if Within(s, n) {
      assert Within(s, Left(n)) && Within(s, Right(n));
    } else {
      assert Left(n) != s && Right(n) != s;
    }
  }

  // ---------------------------------------------------------------- the four elementary steps

  lemma Occupy(limit: nat, live: set<nat>, split: set<nat>, free: seq<seq<nat>>, b: nat, i: nat)
    requires TreeInv(limit, live, split, free) && b <= LAST_BUCKET && i in free[b]
    ensures TreeInv(limit, live + {i}, FlipParent(split, i), Remove(free, b, i))
    ensures Level(i) == b && i !in live
  {
    assert IsFree(limit, live, i);
    forall n: nat ensures n in FlipParent(split, i) <==> ShouldSplit(limit, live + {i}, n) {
      OccupySplit(limit, live, i, n);
    }
    WithoutMembers(free[b], i);
    forall c, n: nat | 0 <= c < |free|
      ensures n in Remove(free, b, i)[c] <==> Level(n) == c && IsFree(limit, live + {i}, n)
    {
      OccupyFree(limit, live, i, n);
    }
    assert Overlap(i, i);
  }

  lemma Vacate(limit: nat, live: set<nat>, split: set<nat>, free: seq<seq<nat>>, i: nat)
    requires TreeInv(limit, live + {i}, split, free) && i !in live
    requires i == Root(limit) || (i > 0 && !Unused(live + {i}, Sibling(i)))
    ensures Level(i) <= LAST_BUCKET
    ensures TreeInv(limit, live, FlipParent(split, i), Push(free, Level(i), i))
    ensures i !in free[Level(i)]
  {
    VacateVacant(limit, live, i);
    forall n: nat ensures n in FlipParent(split, i) <==> ShouldSplit(limit, live, n) {
      OccupySplit(limit, live, i, n);
    }
    var b := Level(i);
    OccupyFree(limit, live, i, i);
    PushMembers(free[b], i);
    forall c, n: nat | 0 <= c < |free|
      ensures n in Push(free, b, i)[c] <==> Level(n) == c && IsFree(limit, live, n)
    {
      OccupyFree(limit, live, i, n);
    }
  }

  lemma VacateVacant(limit: nat, live: set<nat>, i: nat)
    requires limit <= LAST_BUCKET && Placed(limit, live + {i}) && i !in live
    requires i == Root(limit) || (i > 0 && !Unused(live + {i}, Sibling(i)))
    ensures Vacant(limit, live, i)
  {
    assert i in live + {i};
    if i != Root(limit) {
      var s := Sibling(i);
      SiblingFacts(i);
      UnusedAdd(live, i, s);
      SameLevelDisjoint(s, i);
      var m :| m in live && Overlap(s, m);
      OverlapParent(m, s);
      assert Overlap(Parent(i), m);
    }
  }

  lemma CarveStep(limit: nat, live: set<nat>, split: set<nat>, free: seq<seq<nat>>, i: nat)
    requires TreeInv(limit, live + {i}, split, free) && i !in live && Level(i) < LAST_BUCKET
    ensures TreeInv(limit, live + {Left(i)}, Flip(split, i), Push(free, Level(i) + 1, Right(i)))
    ensures Left(i) !in live && Right(i) !in free[Level(i) + 1]
  {
    hide ShouldSplit, IsFree, Placed, Unused, Halved;
    var l, b := Left(i), Level(i) + 1;
    CarveHalved(limit, live, i);
    forall n: nat ensures n in Flip(split, i) <==> ShouldSplit(limit, live + {l}, n) {
      HalvedSplit(limit, live, l, n);
    }
    HalvedFree(limit, live, l, Right(i));
    PushMembers(free[b], Right(i));
    forall c, n: nat | 0 <= c < |free|
      ensures n in Push(free, b, Right(i))[c] <==> Level(n) == c && IsFree(limit, live + {l}, n)
    {
      HalvedFree(limit, live, l, n);
    }
  }

  lemma CarveHalved(limit: nat, live: set<nat>, i: nat)
    requires limit <= LAST_BUCKET && Placed(limit, live + {i}) && i !in live && Level(i) < LAST_BUCKET
    ensures Halved(limit, live, Left(i)) && Parent(Left(i)) == i && Sibling(Left(i)) == Right(i)
    ensures Level(Right(i)) == Level(i) + 1
    ensures Placed(limit, live + {Left(i)}) && Left(i) !in live
  {
    var l := Left(i);
    ChildFacts(i);
    SiblingFacts(l);
    assert i in live + {i};
    WithinLevel(Root(limit), i);
    UnusedBelow(live, i, l);
    SwapPlaced(limit, live, i, l);
  }

  /** A block may be exchanged for another that overlaps nothing else live. */
  lemma SwapPlaced(limit: nat, live: set<nat>, i: nat, j: nat)
    requires Placed(limit, live + {i}) && i !in live
    requires Unused(live, j) && Within(Root(limit), j) && Level(j) <= LAST_BUCKET
    ensures Placed(limit, live + {j}) && j !in live
  {
    assert j in live ==> Overlap(j, j);
    assert forall m | m in live :: m in live + {i};
  }

  lemma MergeStep(limit: nat, live: set<nat>, split: set<nat>, free: seq<seq<nat>>, i: nat)
    requires TreeInv(limit, live + {i}, split, free) && i !in live
    requires i > 0 && i != Root(limit) && Unused(live + {i}, Sibling(i))
    ensures Level(i) <= LAST_BUCKET && Sibling(i) in free[Level(i)] && Parent(i) !in live
    ensures TreeInv(limit, live + {Parent(i)}, Flip(split, Parent(i)), Remove(free, Level(i), Sibling(i)))
  {
    var p, s, b := Parent(i), Sibling(i), Level(i);
    MergeHalved(limit, live, i);
    SwapPlaced(limit, live, i, p);
    forall n: nat ensures n in Flip(split, p) <==> ShouldSplit(limit, live + {p}, n) {
      HalvedSplit(limit, live, i, n);
    }
    SiblingFacts(i);
    HalvedFree(limit, live, i, s);
    WithoutMembers(free[b], s);
    forall c, n: nat | 0 <= c < |free|
      ensures n in Remove(free, b, s)[c] <==> Level(n) == c && IsFree(limit, live + {p}, n)
    {
      HalvedFree(limit, live, i, n);
    }
  }

  lemma MergeHalved(limit: nat, live: set<nat>, i: nat)
    requires limit <= LAST_BUCKET && Placed(limit, live + {i}) && i !in live
    requires i > 0 && i != Root(limit) && Unused(live + {i}, Sibling(i))
    ensures Halved(limit, live, i)
  {
    assert i in live + {i};
    forall m | m in live ensures !Overlap(Parent(i), m) {
      assert m in live + {i};
      OverlapParent(m, i);
      assert Overlap(m, i) <==> Overlap(i, m);
      assert !Overlap(Sibling(i), m);
    }
  }

  /** A live block's parent bit tells whether its buddy is UNUSED. */
  lemma ParentBit(limit: nat, live: set<nat>, split: set<nat>, free: seq<seq<nat>>, i: nat)
    requires TreeInv(limit, live, split, free) && i in live && i > 0 && i != Root(limit)
    ensures Parent(i) in split <==> Unused(live, Sibling(i))
  {
    SiblingFacts(i);
    WithinLevel(Root(limit), i);
    WithinLevel(Root(limit), Parent(i));
    RootFacts(limit);
    assert Overlap(i, i);
  }
}
