/**
 * The circular doubly linked lists of list.h. A list is its ring of nodes, head first; every
 * operation comes down to joining nodes: a's next and b's prev.
 */
module IntrusiveList {

  datatype Node = Reap | Task(id: nat)

  datatype Links = Links(next: map<Node, Node>, prev: map<Node, Node>)

  predicate Distinct(ring: seq<Node>) {
    forall i, j | 0 <= i < j < |ring| :: ring[i] != ring[j]
  }

  /** The node after position i; the last one is followed by the head. */
  function Succ(ring: seq<Node>, i: nat): Node
    requires i < |ring|
  {
    if i + 1 < |ring| then ring[i + 1] else ring[0]
  }

  predicate Joined(l: Links, a: Node, b: Node) {
    a in l.next && b in l.prev && l.next[a] == b && l.prev[b] == a
  }

  predicate Link(l: Links, ring: seq<Node>, i: nat)
    requires i < |ring|
  {
    Joined(l, ring[i], Succ(ring, i))
  }

  ghost predicate Ring(l: Links, ring: seq<Node>) {
    && ring != [] && Distinct(ring)
    && forall i | 0 <= i < |ring| :: Link(l, ring, i)
  }

  predicate Disjoint(a: seq<Node>, b: seq<Node>) {
    forall x | x in a :: x !in b
  }

  function Join(l: Links, a: Node, b: Node): Links {
    Links(l.next[a := b], l.prev[b := a])
  }

  /** Only nodes of touched get other links. */
  predicate Frame(l: Links, k: Links, touched: seq<Node>) {
    && (forall x | x in l.next && x !in touched :: x in k.next && k.next[x] == l.next[x])
    && (forall x | x in l.prev && x !in touched :: x in k.prev && k.prev[x] == l.prev[x])
  }

  /** A ring that an operation does not touch stays as it is. */
  lemma FrameRing(l: Links, k: Links, touched: seq<Node>, ring: seq<Node>)
    requires Frame(l, k, touched) && Ring(l, ring) && Disjoint(ring, touched)
    ensures Ring(k, ring)
  {
    forall i | 0 <= i < |ring| ensures Link(k, ring, i) {
      assert Link(l, ring, i);
      assert ring[i] in ring && Succ(ring, i) in ring;
    }
  }

  // ---------------------------------------------------------------- insertion and removal

  function Inserted(ring: seq<Node>, k: nat, x: Node): seq<Node>
    requires k < |ring|
  {
    ring[..k + 1] + [x] + ring[k + 1..]
  }

  function Removed(ring: seq<Node>, k: nat): seq<Node>
    requires k < |ring|
  {
    ring[..k] + ring[k + 1..]
  }

  lemma InsertedAt(ring: seq<Node>, k: nat, x: Node)
    requires k < |ring| && x !in ring && Distinct(ring)
    ensures var r := Inserted(ring, k, x);
      && |r| == |ring| + 1 && Distinct(r)
      && (forall i | 0 <= i <= k :: r[i] == ring[i]) && r[k + 1] == x
      && (forall i | k + 1 < i < |r| :: r[i] == ring[i - 1])
  {
    var r := Inserted(ring, k, x);
    forall i, j | 0 <= i < j < |r| ensures r[i] != r[j] {
      assert i != k + 1 ==> r[i] in ring;
      assert j != k + 1 ==> r[j] in ring;
    }
  }

  lemma InsertKeepsRing(l: Links, ring: seq<Node>, k: nat, x: Node)
    requires Ring(l, ring) && k < |ring| && x !in ring
    ensures Ring(Join(Join(l, x, Succ(ring, k)), ring[k], x), Inserted(ring, k, x))
    ensures Frame(l, Join(Join(l, x, Succ(ring, k)), ring[k], x), ring + [x])
  {
    hide Inserted;
    var m := Join(Join(l, x, Succ(ring, k)), ring[k], x);
    var r := Inserted(ring, k, x);
    InsertedAt(ring, k, x);
    forall i | 0 <= i < |r| ensures Link(m, r, i) {
      InsertLink(l, ring, k, x, r, i);
    }
    assert ring[k] in ring && Succ(ring, k) in ring;
  }

  lemma InsertLink(l: Links, ring: seq<Node>, k: nat, x: Node, r: seq<Node>, i: nat)
    requires Ring(l, ring) && k < |ring| && x !in ring && |r| == |ring| + 1 && Distinct(r) && i < |r|
    requires (forall j | 0 <= j <= k :: r[j] == ring[j]) && r[k + 1] == x
    requires forall j | k + 1 < j < |r| :: r[j] == ring[j - 1]
    ensures Link(Join(Join(l, x, Succ(ring, k)), ring[k], x), r, i)
  {
    if i < k { assert Link(l, ring, i); }
    if i > k + 1 { assert Link(l, ring, i - 1); }
  }

  lemma RemoveKeepsRing(l: Links, ring: seq<Node>, k: nat)
    requires Ring(l, ring) && 0 < k < |ring|
    ensures Joined(l, ring[k - 1], ring[k]) && Joined(l, ring[k], Succ(ring, k))
    ensures Ring(Join(l, ring[k - 1], Succ(ring, k)), Removed(ring, k))
    ensures ring[k] !in Removed(ring, k)
  {
    var m := Join(l, ring[k - 1], Succ(ring, k));
    var r := Removed(ring, k);
    assert Link(l, ring, k - 1) && Link(l, ring, k);
    assert forall i | 0 <= i < |r| :: r[i] == ring[if i < k then i else i + 1];
    forall i | 0 <= i < |r| ensures Link(m, r, i) {
      if i < k - 1 { assert Link(l, ring, i); }
      if i >= k { assert Link(l, ring, i + 1); }
    }
  }

  // ---------------------------------------------------------------- splice and cut

  /** Two rings [h] + hs and [g] + gs become [h] + gs + hs. */
  lemma SpliceKeepsRing(l: Links, to: seq<Node>, from: seq<Node>)
    requires Ring(l, to) && Ring(l, from) && Disjoint(to, from) && |from| > 1
    ensures Ring(Join(Join(l, to[0], from[1]), from[|from| - 1], Succ(to, 0)), [to[0]] + from[1..] + to[1..])
  {
    var g := |from| - 1;
    var m := Join(Join(l, to[0], from[1]), from[g], Succ(to, 0));
    var r := [to[0]] + from[1..] + to[1..];
    assert forall i | 1 <= i <= g :: r[i] == from[i];
    assert forall i | g < i < |r| :: r[i] == to[i - g];
    assert forall x | x in from :: x !in to;
    assert from[1] in from && from[g] in from && to[0] in to && Succ(to, 0) in to;
    forall i, j | 0 <= i < j < |r| ensures r[i] != r[j] {
      assert 1 <= i <= g ==> r[i] in from;
      assert 1 <= j <= g ==> r[j] in from;
    }
    forall i | 0 <= i < |r| ensures Link(m, r, i) {
      if 0 < i < g { assert Link(l, from, i); assert from[i] in from && from[i + 1] in from; }
      if i > g { assert Link(l, to, i - g); }
    }
  }

  /** The nodes up to position k move to their own ring behind another head. */
  lemma CutKeepsRings(l: Links, from: seq<Node>, to: Node, k: nat)
    requires Ring(l, from) && 0 < k < |from| && to !in from
    ensures var m := Join(Join(Join(l, from[0], Succ(from, k)), from[k], to), to, from[1]);
      Ring(m, [from[0]] + from[k + 1..]) && Ring(m, [to] + from[1..k + 1])
  {
    var m := Join(Join(Join(l, from[0], Succ(from, k)), from[k], to), to, from[1]);
    var r, t := [from[0]] + from[k + 1..], [to] + from[1..k + 1];
    assert forall i | 1 <= i < |r| :: r[i] == from[i + k];
    assert forall i | 1 <= i < |t| :: t[i] == from[i];
    forall i | 0 <= i < |r| ensures Link(m, r, i) {
      if i > 0 { assert Link(l, from, i + k); }
    }
    forall i | 0 <= i < |t| ensures Link(m, t, i) {
      if 0 < i < k { assert Link(l, from, i); }
    }
  }
}
