/**
 * The singly linked list of link-list.c, rewritten through pointers to pointers: pairwise swap,
 * recursive reversal and the Fisher-Yates shuffle. Nodes are named by nonzero addresses; 0 is NULL.
 */
module Shuffle {

  type Node = nat

  /** What a node_t ** can point at: the head variable or the next field of a node. */
  datatype Slot = Head | NextOf(node: Node)

  predicate Distinct(ids: seq<Node>) {
    forall i, j | 0 <= i < j < |ids| :: ids[i] != ids[j]
  }

  /** The address stored in front of position i. */
  function At(ids: seq<Node>, i: nat): Node {
    if i < |ids| then ids[i] else 0
  }

  function SlotAt(ids: seq<Node>, i: nat): Slot
    requires i <= |ids|
  {
    if i == 0 then Head else NextOf(ids[i - 1])
  }

  /** From start, following next reads off exactly ids and then NULL: an acyclic list. */
  predicate Chain(next: map<Node, Node>, start: Node, ids: seq<Node>) {
    && Distinct(ids)
    && start == At(ids, 0)
    && forall i | 0 <= i < |ids| :: Link(next, ids, i)
  }

  /** The i-th node is there and points at the one after it. */
  predicate Link(next: map<Node, Node>, ids: seq<Node>, i: nat)
    requires i < |ids|
  {
    ids[i] != 0 && ids[i] in next && next[ids[i]] == At(ids, i + 1)
  }

  /** Nodes outside ids keep their links. */
  predicate Frame(before: map<Node, Node>, after: map<Node, Node>, ids: seq<Node>) {
    && after.Keys == before.Keys
    && forall x | x in before && x !in ids :: after[x] == before[x]
  }

  // ---------------------------------------------------------------- what the list becomes

  function Swap(s: seq<Node>, i: nat, j: nat): (r: seq<Node>)
    requires i < |s| && j < |s|
    ensures |r| == |s|
  {
    s[i := s[j]][j := s[i]]
  }

  function PairsSwapped(s: seq<Node>): seq<Node> {
    if |s| < 2 then s else [s[1], s[0]] + PairsSwapped(s[2..])
  }

  function Reversed(s: seq<Node>): (r: seq<Node>)
    ensures |r| == |s|
  {
    if s == [] then [] else Reversed(s[1..]) + [s[0]]
  }

  /** One choice for each position but the last: how far ahead the partner lies. */
  predicate Choices(n: nat, js: seq<nat>) {
    |js| == (if n == 0 then 0 else n - 1) && forall c | 0 <= c < |js| :: js[c] < n - c
  }

  lemma ChoicesTail(n: nat, js: seq<nat>)
    requires n >= 2 && Choices(n, js)
    ensures js[0] < n && Choices(n - 1, js[1..])
  {
  }

  function Shuffled(s: seq<Node>, js: seq<nat>): (r: seq<Node>)
    requires Choices(|s|, js)
    ensures |r| == |s|
    decreases |s|
  {
    if |s| < 2 then s
    else
      ChoicesTail(|s|, js);
      var t := Swap(s, 0, js[0]);
      [t[0]] + Shuffled(t[1..], js[1..])
  }

  // ---------------------------------------------------------------- permutations

  lemma SwapPermutes(s: seq<Node>, i: nat, j: nat)
    requires i < |s| && j < |s|
    ensures multiset(Swap(s, i, j)) == multiset(s)
  {
  }

  lemma SameFront(x: Node, a: seq<Node>, b: seq<Node>)
    requires multiset(a) == multiset(b)
    ensures multiset([x] + a) == multiset([x] + b)
  {
  }

  lemma {:induction false} ShuffledPermutes(s: seq<Node>, js: seq<nat>)
    requires Choices(|s|, js)
    ensures multiset(Shuffled(s, js)) == multiset(s)
    decreases |s|
  {
    if |s| < 2 {
      assert Shuffled(s, js) == s;
    } else {
      ChoicesTail(|s|, js);
      var t := Swap(s, 0, js[0]);
      SwapPermutes(s, 0, js[0]);
      ShuffledPermutes(t[1..], js[1..]);
      SameFront(t[0], Shuffled(t[1..], js[1..]), t[1..]);
      assert t == [t[0]] + t[1..];
    }
  }

  lemma SwapDistinct(s: seq<Node>, i: nat, j: nat)
    requires i < |s| && j < |s| && Distinct(s)
    ensures Distinct(Swap(s, i, j))
  {
  }

  /** Different choice sequences give different orders. */
  lemma {:induction false} ShuffledInjective(s: seq<Node>, js: seq<nat>, ks: seq<nat>)
    requires Distinct(s) && Choices(|s|, js) && Choices(|s|, ks)
    requires Shuffled(s, js) == Shuffled(s, ks)
    ensures js == ks
    decreases |s|
  {
    if |s| >= 2 {
      ChoicesTail(|s|, js);
      ChoicesTail(|s|, ks);
      var t, u := Swap(s, 0, js[0]), Swap(s, 0, ks[0]);
      assert Shuffled(s, js)[0] == s[js[0]] && Shuffled(s, ks)[0] == s[ks[0]];
      assert js[0] == ks[0];
      assert Shuffled(s, js)[1..] == Shuffled(t[1..], js[1..]);
      assert Shuffled(s, ks)[1..] == Shuffled(u[1..], ks[1..]);
      SwapDistinct(s, 0, js[0]);
      ShuffledInjective(t[1..], js[1..], ks[1..]);
      assert js == [js[0]] + js[1..] && ks == [ks[0]] + ks[1..];
    }
  }

  /** The choices that produce the order p. */
  function ChoicesFor(s: seq<Node>, p: seq<Node>): (js: seq<nat>)
    requires multiset(s) == multiset(p)
    ensures Choices(|s|, js)
    ensures Shuffled(s, js) == p
    decreases |s|
  {
    assert |multiset(s)| == |s| && |multiset(p)| == |p|;
    if |s| < 2 then
      SmallPermutation(s, p);
      []
    else
      var k := IndexOf(s, p);
      var t := Swap(s, 0, k);
      SwapPermutes(s, 0, k);
      TailPermutes(t, p);
      var rest := ChoicesFor(t[1..], p[1..]);
      FirstChoice(s, p, k, rest);
      [k] + rest
  }

  lemma FirstChoice(s: seq<Node>, p: seq<Node>, k: nat, rest: seq<nat>)
    requires |s| == |p| >= 2 && k < |s| && s[k] == p[0] && Choices(|s| - 1, rest)
    requires Shuffled(Swap(s, 0, k)[1..], rest) == p[1..]
    ensures Choices(|s|, [k] + rest) && Shuffled(s, [k] + rest) == p
  {
    assert ([k] + rest)[1..] == rest;
    assert p == [p[0]] + p[1..];
  }

  lemma SmallPermutation(s: seq<Node>, p: seq<Node>)
    requires |s| == |p| < 2 && multiset(s) == multiset(p)
    ensures s == p
  {
    if |s| == 1 {
      assert p[0] in multiset(p);
      assert p[0] in multiset(s);
    }
  }

  function IndexOf(s: seq<Node>, p: seq<Node>): (k: nat)
    requires p != [] && multiset(s) == multiset(p)
    ensures k < |s| && s[k] == p[0]
  {
    assert p[0] in multiset(p);
    assert p[0] in multiset(s);
    FirstIndex(s, p[0])
  }

  function FirstIndex(s: seq<Node>, x: Node): (k: nat)
    requires x in s
    ensures k < |s| && s[k] == x
  {
    if s[0] == x then 0 else 1 + FirstIndex(s[1..], x)
  }

  lemma TailPermutes(t: seq<Node>, p: seq<Node>)
    requires t != [] && p != [] && t[0] == p[0] && multiset(t) == multiset(p)
    ensures multiset(t[1..]) == multiset(p[1..])
  {
    assert t == [t[0]] + t[1..] && p == [p[0]] + p[1..];
    assert multiset(t[1..]) == multiset(t) - multiset{t[0]};
    assert multiset(p[1..]) == multiset(p) - multiset{p[0]};
  }

  /**
   * Choice sequences and orders of the list correspond one to one: every order comes from some
   * choices, and from no others.
   */
  lemma ChoicesArePermutations(s: seq<Node>, p: seq<Node>)
    requires Distinct(s)
    ensures multiset(p) == multiset(s) <==> exists js :: Choices(|s|, js) && Shuffled(s, js) == p
    ensures forall js, ks | Choices(|s|, js) && Choices(|s|, ks) && Shuffled(s, js) == Shuffled(s, ks) ::
      js == ks
  {
    if multiset(p) == multiset(s) {
      var js := ChoicesFor(s, p);
      assert Choices(|s|, js) && Shuffled(s, js) == p;
    }
    forall js | Choices(|s|, js) ensures multiset(Shuffled(s, js)) == multiset(s) {
      ShuffledPermutes(s, js);
    }
    forall js, ks | Choices(|s|, js) && Choices(|s|, ks) && Shuffled(s, js) == Shuffled(s, ks)
      ensures js == ks
    {
      ShuffledInjective(s, js, ks);
    }
  }

  /** Swapping pairs twice gives the list back. */
  lemma {:induction false} PairsSwappedTwice(s: seq<Node>)
    ensures PairsSwapped(PairsSwapped(s)) == s
  {
    if |s| < 2 {
      assert PairsSwapped(s) == s;
    } else {
      PairsSwappedTwice(s[2..]);
      var r := PairsSwapped(s);
      assert r[2..] == PairsSwapped(s[2..]);
      assert s == [s[0], s[1]] + s[2..];
    }
  }

  lemma {:induction false} ReversedAt(s: seq<Node>, i: nat)
    requires i < |s|
    ensures Reversed(s)[i] == s[|s| - 1 - i]
  {
    if i < |s| - 1 { ReversedAt(s[1..], i); }
  }

  /** And so does reversing twice. */
  lemma ReversedTwice(s: seq<Node>)
    ensures Reversed(Reversed(s)) == s
  {
    var r := Reversed(Reversed(s));
    forall i | 0 <= i < |s| ensures r[i] == s[i] {
      ReversedAt(Reversed(s), i);
      ReversedAt(s, |s| - 1 - i);
    }
  }
}
