/**
 * The circular doubly-linked free lists: list heads and free blocks point at each other
 * through prev and next fields, and no operation branches on where an entry sits.
 */
module FreeListRing {

  /** What a list_t pointer may point at: a bucket's list head or the start of a free block. */
  datatype Link = Head(bucket: nat) | Entry(offset: nat)

  type Links = map<Link, Link>

  /** The k-th stop when bucket b's ring is walked along next, with the head at both ends. */
  function At(b: nat, l: seq<nat>, k: nat): Link {
    if 0 < k <= |l| then Entry(l[k - 1]) else Head(b)
  }

  predicate InRing(b: nat, l: seq<nat>, x: Link) {
    x == Head(b) || (x.Entry? && x.offset in l)
  }

  /** Stops k and k + 1 of the ring point at each other. */
  ghost predicate JoinedAt(prev: Links, next: Links, b: nat, l: seq<nat>, k: nat) {
    var x, y := At(b, l, k), At(b, l, k + 1);
    x in next && next[x] == y && y in prev && prev[y] == x
  }

  /** Each element of the ring points at its neighbours, in both directions. */
  ghost predicate Linked(prev: Links, next: Links, b: nat, l: seq<nat>) {
    forall k: nat | k <= |l| :: JoinedAt(prev, next, b, l, k)
  }

  ghost predicate NoRepeat(l: seq<nat>) {
    forall j, k | 0 <= j < k < |l| :: l[j] != l[k]
  }

  /** No block is on two lists or twice on one. */
  ghost predicate Disjoint(lists: map<nat, seq<nat>>) {
    forall b, c, j, k | b in lists && c in lists && 0 <= j < |lists[b]| && 0 <= k < |lists[c]| ::
      lists[b][j] == lists[c][k] ==> b == c && j == k
  }

  ghost predicate OnList(lists: map<nat, seq<nat>>, x: nat) {
    exists b | b in lists :: x in lists[b]
  }

  /** Only the head and the entries of one ring have other links. */
  ghost predicate OnlyRing(before: Links, after: Links, b: nat, l: seq<nat>) {
    forall x | !InRing(b, l, x) :: (x in after <==> x in before) && (x in before ==> after[x] == before[x])
  }

  ghost function Cut(l: seq<nat>, k: nat): seq<nat>
    requires k < |l|
  {
    l[..k] + l[k + 1..]
  }

  // ---------------------------------------------------------------- what pointer updates do to a ring

  /** A ring none of whose links are written stays a ring. */
  lemma RingUntouched(prev: Links, next: Links, prev': Links, next': Links, b: nat, l: seq<nat>)
    requires Linked(prev, next, b, l)
    requires forall x | InRing(b, l, x) ::
               && (x in next ==> x in next' && next'[x] == next[x])
               && (x in prev ==> x in prev' && prev'[x] == prev[x])
    ensures Linked(prev', next', b, l)
  {
    forall k: nat | k <= |l| ensures JoinedAt(prev', next', b, l, k) {
      assert JoinedAt(prev, next, b, l, k);
      assert InRing(b, l, At(b, l, k)) && InRing(b, l, At(b, l, k + 1));
    }
  }

  /** The stops of a ring other than its closing head are distinct. */
  lemma AtDistinct(b: nat, l: seq<nat>, j: nat, k: nat)
    requires NoRepeat(l) && j <= |l| && k <= |l| && j != k
    ensures At(b, l, j) != At(b, l, k)
  {
  }

  /** The stops of a ring other than its opening head are distinct. */
  lemma AtDistinctTail(b: nat, l: seq<nat>, j: nat, k: nat)
    requires NoRepeat(l) && 0 < j <= |l| + 1 && 0 < k <= |l| + 1 && j != k
    ensures At(b, l, j) != At(b, l, k)
  {
  }

  lemma RingPushed(prev: Links, next: Links, b: nat, l: seq<nat>, x: nat)
    requires Linked(prev, next, b, l) && x !in l && NoRepeat(l)
    ensures var last := At(b, l, |l|);
            && Head(b) in prev && prev[Head(b)] == last
            && Linked(prev[Entry(x) := last][Head(b) := Entry(x)],
                      next[Entry(x) := Head(b)][last := Entry(x)], b, l + [x])
  {
    var last, l' := At(b, l, |l|), l + [x];
    var prev', next' := prev[Entry(x) := last][Head(b) := Entry(x)], next[Entry(x) := Head(b)][last := Entry(x)];
    assert JoinedAt(prev, next, b, l, |l|);
    forall k: nat | k <= |l'| ensures JoinedAt(prev', next', b, l', k) {
      if k < |l| {
        assert JoinedAt(prev, next, b, l, k);
        AtDistinct(b, l, k, |l|);
        assert At(b, l', k) == At(b, l, k) && At(b, l', k + 1) == At(b, l, k + 1);
      }
    }
  }

  lemma RingRemoved(prev: Links, next: Links, b: nat, l: seq<nat>, j: nat)
    requires Linked(prev, next, b, l) && NoRepeat(l) && j < |l|
    ensures var p, n, x := At(b, l, j), At(b, l, j + 2), Entry(l[j]);
            && x in prev && x in next && prev[x] == p && next[x] == n
            && Linked(prev[n := p], next[p := n], b, Cut(l, j))
  {
    var p, n, l' := At(b, l, j), At(b, l, j + 2), Cut(l, j);
    assert JoinedAt(prev, next, b, l, j) && JoinedAt(prev, next, b, l, j + 1);
    var prev', next' := prev[n := p], next[p := n];
    forall k: nat | k <= |l'| ensures JoinedAt(prev', next', b, l', k) {
      CutAt(b, l, j, k);
      CutAt(b, l, j, k + 1);
      if k != j { RingRemovedAt(prev, next, b, l, j, if k < j then k else k + 1); }
    }
  }

  lemma CutAt(b: nat, l: seq<nat>, j: nat, k: nat)
    requires j < |l| && k <= |l|
    ensures At(b, Cut(l, j), k) == if k <= j then At(b, l, k) else At(b, l, k + 1)
  {
  }

  /** A pair of neighbours away from the removed entry keeps its links. */
  lemma RingRemovedAt(prev: Links, next: Links, b: nat, l: seq<nat>, j: nat, k: nat)
    requires Linked(prev, next, b, l) && NoRepeat(l) && j < |l| && k <= |l| && k != j && k != j + 1
    ensures JoinedAt(prev[At(b, l, j + 2) := At(b, l, j)], next[At(b, l, j) := At(b, l, j + 2)], b, l, k)
  {
    assert JoinedAt(prev, next, b, l, k);
    AtDistinct(b, l, j, k);
    AtDistinctTail(b, l, j + 2, k + 1);
  }

  // ---------------------------------------------------------------- the lists

  class FreeLists {
    var prev: Links
    var next: Links
    ghost var lists: map<nat, seq<nat>>

    ghost predicate Valid()
      reads this
    {
      Disjoint(lists) && forall b | b in lists :: Linked(prev, next, b, lists[b])
    }

    constructor ()
      ensures Valid() && lists == map[]
    {
      prev, next, lists := map[], map[], map[];
    }

    /** list_init */
    method Init(b: nat)
      requires Valid() && b !in lists
      modifies this
      ensures Valid() && lists == old(lists)[b := []]
      ensures OnlyRing(old(prev), prev, b, []) && OnlyRing(old(next), next, b, [])
    {
      prev := prev[Head(b) := Head(b)];
      next := next[Head(b) := Head(b)];
      lists := lists[b := []];
      forall c | c in lists ensures Linked(prev, next, c, lists[c]) {
        if c != b {
          OtherRing(old(lists), b, c, Head(b));
          RingUntouched(old(prev), old(next), prev, next, c, lists[c]);
        }
      }
    }

    /** list_push: append the entry at the back of the list. */
    method Push(b: nat, x: nat)
      requires Valid() && b in lists && !OnList(lists, x)
      modifies this
      ensures Valid() && lists == old(lists)[b := old(lists)[b] + [x]]
      ensures OnlyRing(old(prev), prev, b, lists[b]) && OnlyRing(old(next), next, b, lists[b])
    {
      ghost var l := lists[b];
      RingPushed(prev, next, b, l, x);
      var entry, back := Entry(x), prev[Head(b)];
      prev := prev[entry := back];
      next := next[entry := Head(b)];
      next := next[back := entry];
      prev := prev[Head(b) := entry];
      lists := lists[b := l + [x]];
      forall c | c in lists && c != b ensures Linked(prev, next, c, lists[c]) {
        OthersPushed(old(prev), old(next), old(lists), b, c, x);
      }
      PushDisjoint(old(lists), b, x);
    }

    /** list_remove: unlink the entry from whichever list it is on. */
    method Remove(x: nat, ghost b: nat, ghost j: nat)
      requires Valid() && b in lists && j < |lists[b]| && lists[b][j] == x
      modifies this
      ensures Valid() && lists == old(lists)[b := Cut(old(lists)[b], j)]
      ensures OnlyRing(old(prev), prev, b, old(lists)[b]) && OnlyRing(old(next), next, b, old(lists)[b])
    {
      ghost var l := lists[b];
      RingRemoved(prev, next, b, l, j);
      var p, n := prev[Entry(x)], next[Entry(x)];
      next := next[p := n];
      prev := prev[n := p];
      lists := lists[b := Cut(l, j)];
      forall c | c in lists && c != b ensures Linked(prev, next, c, lists[c]) {
        OtherRing(old(lists), b, c, p);
        OtherRing(old(lists), b, c, n);
        RingUntouched(old(prev), old(next), prev, next, c, lists[c]);
      }
      CutDisjoint(old(lists), b, j);
    }

    /** list_pop: unlink and return the entry at the back, or report an empty list. */
    method Pop(b: nat) returns (found: bool, x: nat)
      requires Valid() && b in lists
      modifies this
      ensures Valid()
      ensures found == (old(lists)[b] != [])
      ensures OnlyRing(old(prev), prev, b, old(lists)[b]) && OnlyRing(old(next), next, b, old(lists)[b])
      ensures !found ==> lists == old(lists)
      ensures found ==> var l := old(lists)[b]; x == l[|l| - 1] && lists == old(lists)[b := l[..|l| - 1]]
    {
      ghost var l := lists[b];
      assert JoinedAt(prev, next, b, l, |l|);
      var back := prev[Head(b)];
      if back == Head(b) {
        return false, 0;
      }
      assert l != [];
      x := back.offset;
      Remove(x, b, |l| - 1);
      assert Cut(l, |l| - 1) == l[..|l| - 1];
      found := true;
    }
  }

  /** Rings of different buckets share no link. */
  lemma OtherRing(lists: map<nat, seq<nat>>, b: nat, c: nat, x: Link)
    requires Disjoint(lists) && c in lists && c != b
    requires x == Head(b) || (b in lists && InRing(b, lists[b], x))
    ensures !InRing(c, lists[c], x)
  {
  }

  lemma OthersPushed(prev: Links, next: Links, lists: map<nat, seq<nat>>, b: nat, c: nat, x: nat)
    requires Disjoint(lists) && b in lists && c in lists && c != b && !OnList(lists, x)
    requires Linked(prev, next, c, lists[c])
    ensures var last := At(b, lists[b], |lists[b]|);
            Linked(prev[Entry(x) := last][Head(b) := Entry(x)],
                   next[Entry(x) := Head(b)][last := Entry(x)], c, lists[c])
  {
    var last := At(b, lists[b], |lists[b]|);
    OtherRing(lists, b, c, last);
    OtherRing(lists, b, c, Head(b));
    RingUntouched(prev, next, prev[Entry(x) := last][Head(b) := Entry(x)],
                  next[Entry(x) := Head(b)][last := Entry(x)], c, lists[c]);
  }

  lemma PushDisjoint(lists: map<nat, seq<nat>>, b: nat, x: nat)
    requires Disjoint(lists) && b in lists && !OnList(lists, x)
    ensures Disjoint(lists[b := lists[b] + [x]])
  {
    assert forall c, k | c in lists && 0 <= k < |lists[c]| :: lists[c][k] != x;
  }

  lemma CutDisjoint(lists: map<nat, seq<nat>>, b: nat, j: nat)
    requires Disjoint(lists) && b in lists && j < |lists[b]|
    ensures Disjoint(lists[b := Cut(lists[b], j)])
  {
    var l, l' := lists[b], Cut(lists[b], j);
    assert forall k | 0 <= k < |l'| :: l'[k] == if k < j then l[k] else l[k + 1];
  }
}
