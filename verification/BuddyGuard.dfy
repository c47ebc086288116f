/**
 * What a call may write: list entries and headers lie in the blocks' own memory, so every write has to
 * stay outside the blocks that are live throughout the call.
 */
module BuddyGuard {
  import opened Arithmetic
  import opened BuddyTree
  import opened BuddyModel
  import opened BuddyInvariant
  import opened BuddyProofs
  import opened FreeListRing

  /** The address of a node's block. */
  function Addr(n: nat): nat {
    if Level(n) <= LAST_BUCKET then Start(n) else 0
  }

  /** A list entry at address x lies outside every guarded block. */
  ghost predicate Off(guard: set<nat>, x: nat) {
    forall m | m in guard :: Level(m) <= LAST_BUCKET && (x + LIST_ENTRY <= Start(m) || End(m) <= x)
  }

  ghost predicate ListsOff(guard: set<nat>, free: seq<seq<nat>>) {
    forall b, n | 0 <= b < |free| && n in free[b] :: Off(guard, Addr(n))
  }

  /** No link of an entry that touches a guarded block has been written. */
  ghost predicate Spared(guard: set<nat>, before: Links, after: Links) {
    forall x: nat | !Off(guard, x) ::
      (Entry(x) in after <==> Entry(x) in before) && (Entry(x) in before ==> after[Entry(x)] == before[Entry(x)])
  }

  /** No header that touches a guarded block has been written. */
  ghost predicate HeadersSpared(guard: set<nat>, before: map<nat, Word>, after: map<nat, Word>) {
    forall x: nat | !Off(guard, x) :: (x in after <==> x in before) && (x in before ==> after[x] == before[x])
  }

  /** What the memory of the guarded blocks was at the start of the call, and still is. */
  datatype Snapshot = Snapshot(prev: Links, next: Links, header: map<nat, Word>)

  ghost predicate Guarded(guard: set<nat>, live: set<nat>, free: seq<seq<nat>>, was: Snapshot, now: Snapshot) {
    && guard <= live && ListsOff(guard, free)
    && Spared(guard, was.prev, now.prev) && Spared(guard, was.next, now.next)
    && HeadersSpared(guard, was.header, now.header)
  }

  // ---------------------------------------------------------------- one list operation

  lemma SparedRing(guard: set<nat>, was: Links, before: Links, after: Links, b: nat, l: seq<nat>)
    requires Spared(guard, was, before) && OnlyRing(before, after, b, l)
    requires forall k | 0 <= k < |l| :: Off(guard, l[k])
    ensures Spared(guard, was, after)
  {
    forall x: nat | !Off(guard, x)
      ensures (Entry(x) in after <==> Entry(x) in was) && (Entry(x) in was ==> after[Entry(x)] == was[Entry(x)])
    {
      assert !InRing(b, l, Entry(x));
    }
  }

  /** An operation on one ring whose entries are all off keeps the guard, whatever list it leaves. */
  lemma GuardRing(guard: set<nat>, live: set<nat>, free: seq<seq<nat>>, free': seq<seq<nat>>,
                  was: Snapshot, now: Snapshot, after: Snapshot, b: nat, l: seq<nat>)
    requires Guarded(guard, live, free, was, now) && ListsOff(guard, free') && after.header == now.header
    requires OnlyRing(now.prev, after.prev, b, l) && OnlyRing(now.next, after.next, b, l)
    requires forall k | 0 <= k < |l| :: Off(guard, l[k])
    ensures Guarded(guard, live, free', was, after)
  {
    hide Spared, HeadersSpared, OnlyRing, ListsOff, Off;
    SparedRing(guard, was.prev, now.prev, after.prev, b, l);
    SparedRing(guard, was.next, now.next, after.next, b, l);
  }

  lemma PushOff(guard: set<nat>, free: seq<seq<nat>>, b: nat, i: nat)
    requires ListsOff(guard, free) && b < |free| && Off(guard, Addr(i))
    ensures ListsOff(guard, Push(free, b, i))
  {
    hide Off;
    var free' := Push(free, b, i);
    forall c, n | 0 <= c < |free'| && n in free'[c] ensures Off(guard, Addr(n)) {
      if c != b || n != i { assert n in free[c]; }
    }
  }

  /** A list of which nodes are taken away stays off. */
  lemma FewerOff(guard: set<nat>, free: seq<seq<nat>>, free': seq<seq<nat>>)
    requires ListsOff(guard, free) && |free'| == |free|
    requires forall c, n | 0 <= c < |free'| && n in free'[c] :: n in free[c]
    ensures ListsOff(guard, free')
  {
    hide Off;
  }

  /** The start of a call: the guard is set to live blocks and nothing has been written yet. */
  lemma GuardStarts(guard: set<nat>, live: set<nat>, free: seq<seq<nat>>, now: Snapshot)
    requires guard <= live && ListsOff(guard, free)
    ensures Guarded(guard, live, free, now, now)
  {
  }

  // ---------------------------------------------------------------- which entries are off

  lemma SmallestBlock(b: nat)
    requires b <= LAST_BUCKET
    ensures Size(b) >= LIST_ENTRY
  {
    var least := MAX_ALLOC_LOG2 - LAST_BUCKET;
    Pow2Mono(least, MAX_ALLOC_LOG2 - b);
    assert least == 4 && Pow2(4) == 16;
  }

  /** A block that no guarded block overlaps is off, with all blocks inside it. */
  lemma UnusedOff(guard: set<nat>, n: nat, j: nat)
    requires Unused(guard, n) && Within(n, j) && Level(n) <= LAST_BUCKET && Level(j) <= LAST_BUCKET
    requires forall m | m in guard :: Level(m) <= LAST_BUCKET
    ensures Off(guard, Addr(j))
  {
    hide Start, Within, Level, Size;
    SmallestBlock(Level(j));
    WithinBlocks(n, j);
    forall m | m in guard ensures Start(j) + LIST_ENTRY <= Start(m) || End(m) <= Start(j) {
      DisjointBlocks(n, m);
    }
  }

  /** The entry of every listed block lies outside all live blocks. */
  lemma ListedOff(guard: set<nat>, limit: nat, live: set<nat>, split: set<nat>, free: seq<seq<nat>>)
    requires TreeInv(limit, live, split, free) && guard <= live
    ensures ListsOff(guard, free)
  {
    hide Start, Within, Level, Off, Overlap;
    forall b, n | 0 <= b < |free| && n in free[b] ensures Off(guard, Addr(n)) {
      assert IsFree(limit, live, n);
      WithinItself(n);
      UnusedOff(guard, n, n);
    }
  }

  lemma WithinItself(n: nat)
    ensures Within(n, n)
  {
  }

  /** So do all blocks inside a block that is counted as live besides the guarded ones. */
  lemma HeldOff(guard: set<nat>, limit: nat, live: set<nat>, i: nat, j: nat)
    requires Placed(limit, live) && i in live && guard <= live - {i} && Within(i, j) && Level(j) <= LAST_BUCKET
    ensures Off(guard, Addr(j))
  {
    hide Start, Within, Level, Off;
    assert Unused(guard, i);
    UnusedOff(guard, i, j);
  }

  /** And so does the right child that growth adds. */
  lemma RightOff(guard: set<nat>, limit: nat, live: set<nat>)
    requires 0 < limit <= LAST_BUCKET && Placed(limit, live) && guard <= live
    ensures Off(guard, Addr(Root(limit) + 1))
  {
    hide Start, Within, Level, Off, Overlap, Root;
    RootFacts(limit);
    SiblingFacts(Root(limit));
    RightOfRootUnused(limit, live);
    WithinItself(Root(limit) + 1);
    assert Unused(guard, Root(limit) + 1);
    UnusedOff(guard, Root(limit) + 1, Root(limit) + 1);
  }
}
