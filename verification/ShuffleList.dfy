/** The list operations of link-list.c, in place on the heap, proved against Shuffle's functions. */
module ShuffleList {
  import opened Shuffle

  /** The words the operations read and write. */
  datatype Memory = Memory(head: Node, next: map<Node, Node>)

  predicate Allocated(mem: Memory, s: Slot) {
    s.NextOf? ==> s.node in mem.next
  }

  function Load(mem: Memory, s: Slot): Node
    requires Allocated(mem, s)
  {
    match s
    case Head => mem.head
    case NextOf(node) => mem.next[node]
  }

  function Store(mem: Memory, s: Slot, v: Node): Memory
    requires Allocated(mem, s)
  {
    match s
    case Head => mem.(head := v)
    case NextOf(node) => mem.(next := mem.next[node := v])
  }

  predicate Listed(mem: Memory, ids: seq<Node>) {
    Chain(mem.next, mem.head, ids)
  }

  lemma SlotLoads(mem: Memory, ids: seq<Node>, i: nat)
    requires Listed(mem, ids) && i <= |ids|
    ensures Allocated(mem, SlotAt(ids, i)) && Load(mem, SlotAt(ids, i)) == At(ids, i)
    ensures i < |ids| ==> ids[i] != 0 && ids[i] in mem.next && mem.next[ids[i]] == At(ids, i + 1)
  {
    if i > 0 { assert Link(mem.next, ids, i - 1); }
    if i < |ids| { assert Link(mem.next, ids, i); }
  }

  /** The five stores of one exchange, in the order the source makes them. */
  predicate Exchanged(m0: Memory, m4: Memory, cur: Slot, target: Slot) {
    && Allocated(m0, cur) && Allocated(m0, target)
    && var m1 := Store(m0, target, Load(m0, cur));
    && var m2 := Store(m1, cur, Load(m0, target));
    && Load(m2, target) in m2.next && Load(m2, cur) in m2.next
    && var tmp := m2.next[Load(m2, target)];
    && var m3 := Store(m2, NextOf(Load(m2, target)), m2.next[Load(m2, cur)]);
    && Load(m3, cur) in m3.next
    && m4 == Store(m3, NextOf(Load(m3, cur)), tmp)
  }

  /** The partner is the node itself: every store writes back what was there. */
  lemma ExchangeSelf(m0: Memory, m4: Memory, cur: Slot)
    requires Exchanged(m0, m4, cur, cur) && cur != NextOf(Load(m0, cur))
    ensures m4 == m0
  {
    assert m4.next == m0.next;
  }

  /** The partner comes next: the first store ties a knot that the last two undo. */
  lemma ExchangeNeighbours(m0: Memory, m4: Memory, cur: Slot, a: Node, b: Node)
    requires a in m0.next && b in m0.next && a != b && Allocated(m0, cur)
    requires Load(m0, cur) == a && m0.next[a] == b && cur != NextOf(a) && cur != NextOf(b)
    requires Exchanged(m0, m4, cur, NextOf(a))
    ensures m4 == Store(Memory(m0.head, m0.next[a := m0.next[b]][b := a]), cur, b)
  {
    var m := Store(Memory(m0.head, m0.next[a := m0.next[b]][b := a]), cur, b);
    assert m4.next == m.next;
  }

  lemma ExchangeApart(m0: Memory, m4: Memory, cur: Slot, target: Slot, a: Node, b: Node)
    requires a in m0.next && b in m0.next && a != b && Allocated(m0, cur) && Allocated(m0, target)
    requires Load(m0, cur) == a && Load(m0, target) == b && cur != target
    requires cur != NextOf(a) && cur != NextOf(b) && target != NextOf(a) && target != NextOf(b)
    requires Exchanged(m0, m4, cur, target)
    ensures m4 == Store(Store(Memory(m0.head, m0.next[a := m0.next[b]][b := m0.next[a]]), target, a), cur, b)
  {
    var m := Store(Store(Memory(m0.head, m0.next[a := m0.next[b]][b := m0.next[a]]), target, a), cur, b);
    assert m4.next == m.next;
  }

  lemma NeighboursSwap(m0: Memory, m: Memory, ids: seq<Node>, c: nat)
    requires Listed(m0, ids) && c + 1 < |ids| && Allocated(m0, SlotAt(ids, c))
    requires m == Store(Memory(m0.head, m0.next[ids[c] := At(ids, c + 2)][ids[c + 1] := ids[c]]), SlotAt(ids, c),
      ids[c + 1])
    ensures Listed(m, Swap(ids, c, c + 1)) && Frame(m0.next, m.next, ids)
  {
    var r := Swap(ids, c, c + 1);
    SwapDistinct(ids, c, c + 1);
    assert Link(m0.next, ids, c) && Link(m0.next, ids, c + 1);
    forall i | 0 <= i < |r| ensures Link(m.next, r, i) {
      assert Link(m0.next, ids, i);
    }
  }

  lemma ApartSwap(m0: Memory, m: Memory, ids: seq<Node>, c: nat, t: nat)
    requires Listed(m0, ids) && c + 1 < t < |ids|
    requires Allocated(m0, SlotAt(ids, c)) && Allocated(m0, SlotAt(ids, t))
    requires var crossed := Memory(m0.head, m0.next[ids[c] := At(ids, t + 1)][ids[t] := ids[c + 1]]);
      m == Store(Store(crossed, SlotAt(ids, t), ids[c]), SlotAt(ids, c), ids[t])
    ensures Listed(m, Swap(ids, c, t)) && Frame(m0.next, m.next, ids)
  {
    var r := Swap(ids, c, t);
    SwapDistinct(ids, c, t);
    assert Link(m0.next, ids, c) && Link(m0.next, ids, t);
    forall i | 0 <= i < |r| ensures Link(m.next, r, i) {
      assert Link(m0.next, ids, i);
    }
  }

  lemma ExchangeSwaps(m0: Memory, m4: Memory, ids: seq<Node>, c: nat, t: nat)
    requires Listed(m0, ids) && c <= t < |ids|
    requires Exchanged(m0, m4, SlotAt(ids, c), SlotAt(ids, t))
    ensures Listed(m4, Swap(ids, c, t))
    ensures Frame(m0.next, m4.next, ids)
  {
    hide Exchanged, Store;
    var cur, target := SlotAt(ids, c), SlotAt(ids, t);
    SlotLoads(m0, ids, c);
    SlotLoads(m0, ids, t);
    if c == t {
      ExchangeSelf(m0, m4, cur);
      assert Swap(ids, c, t) == ids;
    } else if t == c + 1 {
      ExchangeNeighbours(m0, m4, cur, ids[c], ids[t]);
      NeighboursSwap(m0, m4, ids, c);
    } else {
      ExchangeApart(m0, m4, cur, target, ids[c], ids[t]);
      ApartSwap(m0, m4, ids, c, t);
    }
  }

  // ---------------------------------------------------------------- the rounds of the shuffle

  /** The choices drawn from rand(): in round c, rand() modulo the number of nodes still open. */
  function Draws(n: nat, rand: nat -> nat): (js: seq<nat>)
    ensures |js| == if n == 0 then 0 else n - 1
  {
    seq(if n == 0 then 0 else n - 1, c requires 0 <= c < n => rand(c) % (n - c))
  }

  lemma DrawsAreChoices(n: nat, rand: nat -> nat)
    ensures Choices(n, Draws(n, rand))
  {
  }

  /** One exchange fixes position c of the final order and leaves the rest to the later choices. */
  lemma Round(now: seq<Node>, js: seq<nat>, c: nat, after: seq<Node>)
    requires c + 2 <= |now| && c < |js| && Choices(|now| - c, js[c..])
    requires js[c] < |now| - c && after == Swap(now, c, c + js[c])
    ensures Choices(|now| - c - 1, js[c + 1..])
    ensures after[..c + 1] + Shuffled(after[c + 1..], js[c + 1..]) == now[..c] + Shuffled(now[c..], js[c..])
    ensures multiset(after) == multiset(now)
  {
    var s, ks := now[c..], js[c..];
    ChoicesTail(|s|, ks);
    SwapPermutes(now, c, c + js[c]);
    var t := Swap(s, 0, ks[0]);
    assert ks[1..] == js[c + 1..];
    assert after[c + 1..] == t[1..];
    assert after[..c + 1] == now[..c] + [t[0]];
    assert Shuffled(s, ks) == [t[0]] + Shuffled(t[1..], ks[1..]);
  }

  lemma DrawAt(n: nat, rand: nat -> nat, c: nat)
    requires c + 2 <= n
    ensures c < |Draws(n, rand)| && Draws(n, rand)[c] == rand(c) % (n - c) < n - c
  {
  }

  lemma LastRound(s: seq<Node>, js: seq<nat>, c: nat)
    requires c <= |s| < c + 2 && c <= |js| && Choices(|s| - c, js[c..])
    ensures s[..c] + Shuffled(s[c..], js[c..]) == s
  {
  }

  lemma FrameTrans(a: map<Node, Node>, b: map<Node, Node>, c: map<Node, Node>, ids: seq<Node>, now: seq<Node>)
    requires Frame(a, b, ids) && Frame(b, c, now) && multiset(now) == multiset(ids)
    ensures Frame(a, c, ids)
  {
    forall x | x in a && x !in ids ensures c[x] == a[x] {
      assert x !in multiset(ids);
      assert x !in multiset(now);
    }
  }

  class LinkedList {
    var head: Node
    var next: map<Node, Node>

    function Mem(): Memory
      reads this
    {
      Memory(head, next)
    }

    method Write(s: Slot, v: Node)
      requires Allocated(Mem(), s)
      modifies this
      ensures Mem() == Store(old(Mem()), s, v)
    {
      match s
      case Head => head := v;
      case NextOf(node) => next := next[node := v];
    }

    method Length(ghost ids: seq<Node>) returns (len: nat)
      requires Listed(Mem(), ids)
      ensures len == |ids|
    {
      len := 0;
      var cur := head;
      while cur != 0
        invariant len <= |ids| && cur == At(ids, len)
        decreases |ids| - len
      {
        SlotLoads(Mem(), ids, len);
        len := len + 1;
        cur := next[cur];
      }
      SlotLoads(Mem(), ids, len);
    }

    /** Walks j links ahead of the slot at position c. */
    method Ahead(cur: Slot, j: nat, ghost ids: seq<Node>, ghost c: nat) returns (target: Slot)
      requires Listed(Mem(), ids) && c + j <= |ids| && cur == SlotAt(ids, c)
      ensures target == SlotAt(ids, c + j)
    {
      target := cur;
      var k := 0;
      while k < j
        invariant k <= j && target == SlotAt(ids, c + k)
      {
        SlotLoads(Mem(), ids, c + k);
        target := NextOf(Load(Mem(), target));
        k := k + 1;
      }
    }

    method Exchange(cur: Slot, target: Slot, ghost ids: seq<Node>, ghost c: nat, ghost t: nat)
      requires Listed(Mem(), ids) && c <= t < |ids| && cur == SlotAt(ids, c) && target == SlotAt(ids, t)
      modifies this
      ensures Listed(Mem(), Swap(ids, c, t))
      ensures Frame(old(next), next, ids)
    {
      ghost var m0 := Mem();
      SlotLoads(m0, ids, c);
      SlotLoads(m0, ids, t);
      var tmp := Load(Mem(), target);
      Write(target, Load(Mem(), cur));
      Write(cur, tmp);
      tmp := next[Load(Mem(), target)];
      Write(NextOf(Load(Mem(), target)), next[Load(Mem(), cur)]);
      Write(NextOf(Load(Mem(), cur)), tmp);
      ExchangeSwaps(m0, Mem(), ids, c, t);
    }

    /** One round: the exchange, and the step to the next slot. */
    method ShuffleRound(cur: Slot, j: nat, ghost ids: seq<Node>, ghost c: nat) returns (following: Slot)
      requires Listed(Mem(), ids) && c + j < |ids| && cur == SlotAt(ids, c)
      modifies this
      ensures Listed(Mem(), Swap(ids, c, c + j)) && following == SlotAt(Swap(ids, c, c + j), c + 1)
      ensures Frame(old(next), next, ids)
    {
      hide Listed, Frame;
      var target := Ahead(cur, j, ids, c);
      Exchange(cur, target, ids, c, c + j);
      ghost var after := Swap(ids, c, c + j);
      SwapKeepsPrefix(ids, c, c + j);
      SlotLoads(Mem(), after, c);
      following := NextOf(Load(Mem(), cur));
    }

    /** rand() is read once per round; its c-th value is rand(c). */
    method FisherYates(rand: nat -> nat, ghost ids: seq<Node>)
      requires Listed(Mem(), ids)
      modifies this
      ensures Choices(|ids|, Draws(|ids|, rand))
      ensures Listed(Mem(), Shuffled(ids, Draws(|ids|, rand)))
      ensures Frame(old(next), next, ids)
    {
      hide Listed, Choices, Shuffled, Swap, Draws, Frame, SlotAt;
      assert SlotAt(ids, 0) == Head && Frame(next, next, ids) by { StartOfRounds(next, ids); }
      var len := Length(ids);
      ghost var js := Draws(len, rand);
      DrawsAreChoices(len, rand);
      ghost var now := ids;
      ghost var c := 0;
      var cur := Head;
      var i := len - 1;
      assert ids[0..] == ids && js[0..] == js;
      while i > 0
        invariant c <= |js| && c <= len && -1 <= i == len - 1 - c
        invariant |now| == len && Listed(Mem(), now) && cur == SlotAt(now, c)
        invariant Choices(len - c, js[c..])
        invariant now[..c] + Shuffled(now[c..], js[c..]) == Shuffled(ids, js)
        invariant multiset(now) == multiset(ids) && Frame(old(next), next, ids)
        decreases i
      {
        DrawAt(len, rand, c);
        var j := rand(len - 1 - i) % (i + 1);
        ghost var before := next;
        cur := ShuffleRound(cur, j, now, c);
        Round(now, js, c, Swap(now, c, c + j));
        FrameTrans(old(next), before, next, ids, now);
        now := Swap(now, c, c + j);
        c := c + 1;
        i := i - 1;
      }
      LastRound(now, js, c);
    }

    /** Exchanges neighbours two by two. */
    method SwapPairs(ghost ids: seq<Node>)
      requires Listed(Mem(), ids)
      modifies this
      ensures Listed(Mem(), PairsSwapped(ids))
      ensures Frame(old(next), next, ids)
    {
      hide Listed, PairsSwapped, Swap;
      ghost var now := ids;
      ghost var c := 0;
      var node := Head;
      PairSlots(Mem(), now, c);
      assert ids[0..] == ids;
      while Load(Mem(), node) != 0 && next[Load(Mem(), node)] != 0
        invariant c <= |ids| == |now| && Listed(Mem(), now) && node == SlotAt(now, c)
        invariant PairReady(Mem(), now, c)
        invariant now[..c] + PairsSwapped(now[c..]) == PairsSwapped(ids)
        invariant multiset(now) == multiset(ids) && Frame(old(next), next, ids)
        decreases |ids| - c
      {
        ghost var before := next;
        PairSwap(node, now, c);
        ghost var after := Swap(now, c, c + 1);
        FrameTrans(old(next), before, next, ids, now);
        PairRound(now, c);
        SwapKeepsPrefix(now, c, c + 1);
        SlotLoads(Mem(), after, c);
        node := NextOf(next[Load(Mem(), node)]);
        now := after;
        c := c + 2;
        PairSlots(Mem(), now, c);
      }
      PairsDone(now, c);
    }

    method PairSwap(node: Slot, ghost ids: seq<Node>, ghost c: nat)
      requires Listed(Mem(), ids) && c + 1 < |ids| && node == SlotAt(ids, c)
      modifies this
      ensures Listed(Mem(), Swap(ids, c, c + 1))
      ensures Frame(old(next), next, ids)
    {
      hide Listed, Swap, Frame;
      ghost var m0 := Mem();
      PairSlots(m0, ids, c);
      SlotLoads(m0, ids, c + 1);
      assert ids[c] != ids[c + 1] && node != NextOf(ids[c]) && node != NextOf(ids[c + 1]) by { SlotApart(m0, ids, c); }
      var tmp := Load(Mem(), node);
      Write(node, next[Load(Mem(), node)]);
      Write(NextOf(tmp), next[Load(Mem(), node)]);
      Write(NextOf(Load(Mem(), node)), tmp);
      assert Mem().next == Store(Memory(m0.head, m0.next[ids[c] := At(ids, c + 2)][ids[c + 1] := ids[c]]), node,
        ids[c + 1]).next;
      NeighboursSwap(m0, Mem(), ids, c);
    }

    /** Reverses the chain that starts at cur and returns its new first node. */
    method ReverseFrom(cur: Node, ghost ids: seq<Node>) returns (first: Node)
      requires Chain(next, cur, ids)
      modifies this`next
      ensures Chain(next, first, Reversed(ids))
      ensures Frame(old(next), next, ids)
      decreases |ids|
    {
      if ids != [] { assert Link(next, ids, 0); }
      if cur == 0 || next[cur] == 0 {
        assert |ids| >= 2 ==> Link(next, ids, 1);
        assert Reversed(ids) == ids;
        return cur;
      }
      var second := next[cur];
      ChainTail(next, cur, ids);
      first := ReverseFrom(second, ids[1..]);
      ghost var middle := next;
      assert next[cur] == second by { assert cur !in ids[1..]; }
      next := next[next[cur] := cur];
      next := next[cur := 0];
      ReverseLinks(old(next), middle, next, cur, first, ids);
    }

    method Reverse(ghost ids: seq<Node>)
      requires Listed(Mem(), ids)
      modifies this
      ensures Listed(Mem(), Reversed(ids))
      ensures Frame(old(next), next, ids)
    {
      var first := ReverseFrom(head, ids);
      head := first;
    }
  }

  // ---------------------------------------------------------------- the steps of the other two

  lemma StartOfRounds(next: map<Node, Node>, ids: seq<Node>)
    ensures SlotAt(ids, 0) == Head && Frame(next, next, ids)
  {
  }

  lemma SwapKeepsPrefix(s: seq<Node>, c: nat, t: nat)
    requires c <= t < |s|
    ensures SlotAt(Swap(s, c, t), c) == SlotAt(s, c)
  {
  }

  /** What the loop head reads at position i. */
  predicate PairReady(mem: Memory, ids: seq<Node>, i: nat)
    requires i <= |ids|
  {
    && Allocated(mem, SlotAt(ids, i))
    && Load(mem, SlotAt(ids, i)) == At(ids, i)
    && (At(ids, i) != 0 <==> i < |ids|)
    && (i < |ids| ==> ids[i] in mem.next && mem.next[ids[i]] == At(ids, i + 1))
    && (At(ids, i + 1) != 0 <==> i + 1 < |ids|)
  }

  lemma PairSlots(mem: Memory, ids: seq<Node>, i: nat)
    requires Listed(mem, ids) && i <= |ids|
    ensures PairReady(mem, ids, i)
  {
    hide Listed;
    SlotLoads(mem, ids, i);
    if i < |ids| { SlotLoads(mem, ids, i + 1); }
  }

  lemma SlotApart(mem: Memory, ids: seq<Node>, c: nat)
    requires Listed(mem, ids) && c + 1 < |ids|
    ensures ids[c] != ids[c + 1] && SlotAt(ids, c) != NextOf(ids[c]) && SlotAt(ids, c) != NextOf(ids[c + 1])
  {
  }

  lemma PairRound(s: seq<Node>, c: nat)
    requires c + 1 < |s|
    ensures var r := Swap(s, c, c + 1);
            && r[..c + 2] + PairsSwapped(r[c + 2..]) == s[..c] + PairsSwapped(s[c..])
            && multiset(r) == multiset(s)
  {
    hide PairsSwapped;
    var r := Swap(s, c, c + 1);
    SwapPermutes(s, c, c + 1);
    var two, rest := [s[c + 1], s[c]], PairsSwapped(s[c + 2..]);
    assert s[c + 2..] == r[c + 2..];
    assert r[..c + 2] == s[..c] + two;
    PairFirst(s[c..]);
    assert s[c..][2..] == s[c + 2..];
    assert (s[..c] + two) + rest == s[..c] + (two + rest);
  }

  lemma PairFirst(s: seq<Node>)
    requires |s| >= 2
    ensures PairsSwapped(s) == [s[1], s[0]] + PairsSwapped(s[2..])
  {
  }

  lemma PairsDone(s: seq<Node>, c: nat)
    requires c <= |s| < c + 2
    ensures s[..c] + PairsSwapped(s[c..]) == s
  {
  }

  lemma ChainTail(next: map<Node, Node>, cur: Node, ids: seq<Node>)
    requires ids != [] && Chain(next, cur, ids)
    ensures cur in next && Chain(next, next[cur], ids[1..]) && cur !in ids[1..]
  {
    assert Link(next, ids, 0);
    forall i | 0 <= i < |ids[1..]| ensures Link(next, ids[1..], i) {
      assert Link(next, ids, i + 1);
    }
  }

  /** The reversed tail ends in the second node; hanging cur behind it reverses the whole. */
  lemma ReverseLinks(n0: map<Node, Node>, n1: map<Node, Node>, n2: map<Node, Node>, cur: Node, first: Node,
    ids: seq<Node>)
    requires |ids| >= 2 && Chain(n0, cur, ids)
    requires Chain(n1, first, Reversed(ids[1..])) && Frame(n0, n1, ids[1..])
    requires n2 == n1[ids[1] := cur][cur := 0]
    ensures Chain(n2, first, Reversed(ids)) && Frame(n0, n2, ids)
  {
    var tail, r := Reversed(ids[1..]), Reversed(ids);
    var last := |tail| - 1;
    forall i | 0 <= i < |tail| ensures tail[i] == ids[|ids| - 1 - i] && tail[i] != cur { ReversedAt(ids[1..], i); }
    assert tail[last] == ids[1];
    assert Link(n0, ids, 0) && Link(n0, ids, 1);
    forall i | 0 <= i < |r| ensures Link(n2, r, i) {
      if i <= last { assert Link(n1, tail, i); }
    }
  }
}
