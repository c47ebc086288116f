/**
 * The buddy allocator as functions on its whole state. Every function follows one loop or
 * one straight-line piece of the C code, in the same order and with the same branches;
 * the class in BuddyAllocator.dfy is proved to compute exactly these functions.
 */
module BuddyModel {
  import opened Arithmetic
  import opened BuddyTree

  const HEADER_SIZE := 8
  /** sizeof(list_t): two pointers */
  const LIST_ENTRY := 16

  /** size_t */
  type Word = n: nat | n < 0x1_0000_0000_0000_0000

  /** Whether the kernel grants a program break at the given offset from base_ptr. */
  type Brk = nat -> bool

  /**
   * limit is bucket_limit, split the set of nodes whose "is split" bit is on, free[b] the
   * free list of bucket b from the list head's next to its prev, maxPtr is max_ptr as an
   * offset from base_ptr, and live maps every block handed out to the request it serves.
   */
  datatype State = State(
    booted: bool,
    limit: nat,
    split: set<nat>,
    free: seq<seq<nat>>,
    maxPtr: nat,
    live: map<nat, Word>)

  /** The globals before the first call: base_ptr is NULL. */
  const FRESH := State(false, 0, {}, [], 0, map[])

  /** Fault is a use of the NULL that list_pop returned; it is proved never to arise. */
  datatype Outcome = Null | Fault | Block(node: nat)

  // ---------------------------------------------------------------- requests

  /** request + HEADER_SIZE in size_t arithmetic. */
  function Need(request: Word): nat {
    if request + HEADER_SIZE < 0x1_0000_0000_0000_0000 then request + HEADER_SIZE
    else request + HEADER_SIZE - 0x1_0000_0000_0000_0000
  }

  /** bucket_for_request, started from a given bucket. */
  function FitFrom(bucket: nat, need: nat): (b: nat)
    requires bucket <= LAST_BUCKET && need <= Size(0)
    ensures b <= bucket && need <= Size(b)
    ensures b < bucket ==> Size(b + 1) < need
  {
    if Size(bucket) < need then FitFrom(bucket - 1, need) else bucket
  }

  function BucketFor(need: nat): (b: nat)
    requires need <= Size(0)
    ensures b <= LAST_BUCKET && need <= Size(b)
    ensures b < LAST_BUCKET ==> Size(b + 1) < need
  {
    FitFrom(LAST_BUCKET, need)
  }

  // ---------------------------------------------------------------- bits and lists

  function Flip(split: set<nat>, n: nat): set<nat> {
    if n in split then split - {n} else split + {n}
  }

  /** flip_parent_is_split behind the guard "index is not 0" */
  function FlipParent(split: set<nat>, i: nat): set<nat> {
    if i == 0 then split else Flip(split, Parent(i))
  }

  function Without(s: seq<nat>, x: nat): seq<nat> {
    if s == [] then [] else if s[0] == x then s[1..] else [s[0]] + Without(s[1..], x)
  }

  function Push(free: seq<seq<nat>>, b: nat, i: nat): seq<seq<nat>>
    requires b < |free|
  {
    free[b := free[b] + [i]]
  }

  function Remove(free: seq<seq<nat>>, b: nat, i: nat): seq<seq<nat>>
    requires b < |free|
  {
    free[b := Without(free[b], i)]
  }

  predicate Shaped(s: State) {
    s.limit <= LAST_BUCKET && |s.free| == LAST_BUCKET + 1
  }

  // ---------------------------------------------------------------- start-up and growth

  /** One block, the root at bucket limit, and no other. */
  function OneBlock(limit: nat): seq<seq<nat>> {
    seq(LAST_BUCKET + 1, b => if b == limit then [Root(limit)] else [])
  }

  /** The state after the first call has initialised the globals. */
  function Initial(brk: Brk): State {
    State(true, LAST_BUCKET, {}, OneBlock(LAST_BUCKET),
          if brk(LIST_ENTRY) then LIST_ENTRY else 0,
          map[])
  }

  function Boot(s: State, brk: Brk): State {
    if s.booted then s else Initial(brk)
  }

  /** update_max_ptr: whether it succeeds and the new value of max_ptr. */
  function Reserve(maxPtr: nat, value: nat, brk: Brk): (bool, nat) {
    if value <= maxPtr then (true, maxPtr)
    else if brk(value) then (true, value)
    else (false, maxPtr)
  }

  predicate RootInUse(s: State) {
    s.limit > 0 && Parent(Root(s.limit)) in s.split
  }

  /** The offset that must be reserved before the tree can grow by one level. */
  function GrowthNeeds(s: State): nat
    requires Shaped(s)
  {
    RootLevel(s.limit);
    PtrForNode(Root(s.limit) + 1, s.limit) + LIST_ENTRY
  }

  /** The bit above the root's parent, if there is one, starts to record that the new root is in use. */
  function FlipGrandparent(split: set<nat>, limit: nat): (r: set<nat>)
    requires limit > 0
  {
    FlipParent(split, Parent(Root(limit)))
  }

  /** One iteration of lower_bucket_limit's loop; m is max_ptr once the reservation is granted. */
  function GrowOne(s: State, m: nat): State
    requires Shaped(s) && s.limit > 0
  {
    var root, up := Root(s.limit), s.limit - 1;
    if !RootInUse(s) then
      s.(limit := up,
         free := Remove(s.free, s.limit, root)[up := [Root(up)]])
    else
      s.(limit := up,
         split := FlipGrandparent(s.split, s.limit),
         free := Push(s.free, s.limit, root + 1)[up := []],
         maxPtr := m)
  }

  /** lower_bucket_limit: the new state and whether every reservation was granted. */
  function Lower(s: State, bucket: nat, brk: Brk): (State, bool)
    requires Shaped(s)
    decreases s.limit
  {
    if s.limit <= bucket then (s, true)
    else
      var (ok, m) := Reserve(s.maxPtr, GrowthNeeds(s), brk);
      if RootInUse(s) && !ok then (s, false)
      else Lower(GrowOne(s, m), bucket, brk)
  }

  // ---------------------------------------------------------------- allocation

  /** Where bmalloc's search ends; a block found is still on its list in state. */
  datatype Found = Found(state: State, outcome: Outcome, bucket: nat)

  function Last(s: seq<nat>): nat
    requires s != []
  {
    s[|s| - 1]
  }

  /**
   * bmalloc's search loop: grow the tree, look for a block, or go on to the next larger
   * bucket. The state returned differs from s by tree growth alone.
   */
  function Locate(s: State, bucket: nat, brk: Brk): Found
    requires Shaped(s) && bucket <= LAST_BUCKET
    decreases bucket
  {
    LowerShape(s, bucket, brk);
    var (s1, ok) := Lower(s, bucket, brk);
    if !ok then Found(s1, Null, bucket)
    else if s1.free[bucket] != [] then Found(s1, Block(Last(s1.free[bucket])), bucket)
    else if bucket == 0 then Found(s1, Null, bucket)
    else if bucket != s1.limit then Locate(s1, bucket - 1, brk)
    else LocateAtRoot(s1, bucket, brk)
  }

  /** The search when the list of the root itself is empty: grow by one more level and look again. */
  function LocateAtRoot(s: State, bucket: nat, brk: Brk): Found
    requires Shaped(s) && 0 < bucket <= LAST_BUCKET
  {
    LowerShape(s, bucket - 1, brk);
    var (t, ok) := Lower(s, bucket - 1, brk);
    if !ok then Found(t, Null, bucket)
    else if t.free[bucket] == [] then Found(t, Fault, bucket)
    else Found(t, Block(Last(t.free[bucket])), bucket)
  }

  /** list_pop of a non-empty list: the entry before the list head goes. */
  function Pop(free: seq<seq<nat>>, b: nat): seq<seq<nat>>
    requires b < |free| && free[b] != []
  {
    free[b := free[b][..|free[b]| - 1]]
  }

  /** The node reached by moving to the left child until bucket ob. */
  function Leftmost(i: nat, b: nat, ob: nat): nat
    decreases ob - b
  {
    if b >= ob then i else Leftmost(Left(i), b + 1, ob)
  }

  /** bmalloc's splitting loop: put the right halves on their lists on the way down. */
  function Carve(s: State, i: nat, b: nat, ob: nat): State
    requires Shaped(s) && b <= ob <= LAST_BUCKET
    decreases ob - b
  {
    if b == ob then s
    else
      Carve(s.(split := Flip(s.split, i), free := Push(s.free, b + 1, Right(i))), Left(i), b + 1, ob)
  }

  function BytesNeeded(b: nat, ob: nat): nat
    requires b <= ob <= LAST_BUCKET
  {
    if b < ob then Size(b) / 2 + LIST_ENTRY else Size(b)
  }

  /** The state once the last block of list b is taken and carved down to bucket ob, max_ptr being m. */
  function Taken(s: State, b: nat, ob: nat, request: Word, m: nat): State
    requires Shaped(s) && b <= ob <= LAST_BUCKET && s.free[b] != []
  {
    var i := Last(s.free[b]);
    Carve(s.(free := Pop(s.free, b), maxPtr := m, split := FlipParent(s.split, i),
             live := s.live[Leftmost(i, b, ob) := request]), i, b, ob)
  }

  /** The rest of bmalloc once list b is known not to be empty. */
  function Take(s: State, b: nat, ob: nat, request: Word, brk: Brk): (State, Outcome)
    requires Shaped(s) && b <= ob <= LAST_BUCKET && s.free[b] != [] && Pow2(b) <= Last(s.free[b]) + 1
  {
    var i := Last(s.free[b]);
    var (ok, m) := Reserve(s.maxPtr, PtrForNode(i, b) + BytesNeeded(b, ob), brk);
    if !ok then (s.(free := Push(Pop(s.free, b), b, i)), Null)
    else (Taken(s, b, ob, request, m), Block(Leftmost(i, b, ob)))
  }

  /** bmalloc from the search loop on: a block of bucket ob for the request. */
  function Allocate(s: State, request: Word, ob: nat, brk: Brk): (State, Outcome)
    requires Shaped(s) && ob <= LAST_BUCKET
  {
    LocateShape(s, ob, brk);
    var Found(t, outcome, b) := Locate(s, ob, brk);
    if outcome.Block? && Pow2(b) <= outcome.node + 1 then
      Take(t, b, ob, request, brk)
    else (t, if outcome.Block? then Fault else outcome)
  }

  /** bmalloc */
  function Malloc(s: State, request: Word, brk: Brk): (State, Outcome)
    requires s.booted ==> Shaped(s)
  {
    if Need(request) > Size(0) then (s, Null)
    else Allocate(Boot(s, brk), request, BucketFor(Need(request)), brk)
  }

  // ---------------------------------------------------------------- release

  /** bfree's loop and the final push: block i of bucket b becomes unused. */
  function Release(s: State, i: nat, b: nat): State
    requires Shaped(s) && b == Level(i) <= LAST_BUCKET
    decreases b
  {
    var split := FlipParent(s.split, i);
    if i == 0 || Parent(i) in split || b == s.limit then
      s.(split := split, free := Push(s.free, b, i))
    else
      Release(s.(split := split, free := Remove(s.free, b, Sibling(i))), Parent(i), b - 1)
  }

  /** bfree of a block that is live. */
  function Free(s: State, i: nat): State
    requires Shaped(s) && Level(i) <= LAST_BUCKET
  {
    Release(s.(live := s.live - {i}), i, Level(i))
  }

  // ---------------------------------------------------------------- shapes

  lemma {:induction false} LowerShape(s: State, bucket: nat, brk: Brk)
    requires Shaped(s)
    ensures var (t, ok) := Lower(s, bucket, brk);
            && Shaped(t) && t.live == s.live && t.booted == s.booted
            && t.limit <= s.limit && (ok ==> t.limit <= bucket)
            && (s.limit <= bucket ==> t == s && ok)
            && (bucket < s.limit ==> bucket <= t.limit)
    decreases s.limit
  {
    if bucket < s.limit {
      var (ok, m) := Reserve(s.maxPtr, GrowthNeeds(s), brk);
      if ok || !RootInUse(s) { LowerShape(GrowOne(s, m), bucket, brk); }
    }
  }

  /** A search result grown from s that says where its block is. */
  predicate FoundFrom(s: State, bucket: nat, f: Found) {
    && Shaped(f.state) && f.state.live == s.live && f.state.booted == s.booted
    && f.bucket <= bucket <= LAST_BUCKET
    && (f.outcome.Block? ==> f.state.free[f.bucket] != [] && f.outcome.node == Last(f.state.free[f.bucket]))
  }

  lemma LocateAtRootShape(s: State, bucket: nat, brk: Brk)
    requires Shaped(s) && 0 < bucket <= LAST_BUCKET
    ensures FoundFrom(s, bucket, LocateAtRoot(s, bucket, brk))
  {
    LowerShape(s, bucket - 1, brk);
  }

  lemma {:induction false} LocateShape(s: State, bucket: nat, brk: Brk)
    requires Shaped(s) && bucket <= LAST_BUCKET
    ensures FoundFrom(s, bucket, Locate(s, bucket, brk))
    decreases bucket
  {
    LowerShape(s, bucket, brk);
    var (s1, ok) := Lower(s, bucket, brk);
    if ok && s1.free[bucket] == [] && bucket != 0 {
      if bucket != s1.limit {
        LocateShape(s1, bucket - 1, brk);
      } else {
        LocateAtRootShape(s1, bucket, brk);
      }
    }
  }
}
