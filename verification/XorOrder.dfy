/** Sortedness and stability of sequences of list nodes. */
module XorOrder {
  import opened XorList

  type Keys = map<Addr, int>

  ghost predicate Keyed(data: Keys, ns: seq<Addr>) {
    forall x | x in ns :: x in data
  }

  /** The first n nodes are in nondecreasing order. */
  ghost predicate SortedUpTo(data: Keys, ns: seq<Addr>, n: int)
    requires Keyed(data, ns) && n <= |ns|
  {
    forall i, j | 0 <= i < j < n :: data[ns[i]] <= data[ns[j]]
  }

  ghost predicate Sorted(data: Keys, ns: seq<Addr>)
    requires Keyed(data, ns)
  {
    SortedUpTo(data, ns, |ns|)
  }

  /** The nodes holding value v, in list order. */
  ghost function WithValue(data: Keys, ns: seq<Addr>, v: int): seq<Addr>
    requires Keyed(data, ns)
  {
    if ns == [] then []
    else (if data[ns[0]] == v then [ns[0]] else []) + WithValue(data, ns[1..], v)
  }

  /** rs is ns rearranged so that nodes of equal value keep their order. */
  ghost predicate StableRearrangement(data: Keys, ns: seq<Addr>, rs: seq<Addr>) {
    Keyed(data, ns) && Keyed(data, rs) && forall v :: WithValue(data, rs, v) == WithValue(data, ns, v)
  }

  lemma {:induction false} WithValueConcat(data: Keys, a: seq<Addr>, b: seq<Addr>, v: int)
    requires Keyed(data, a + b)
    ensures Keyed(data, a) && Keyed(data, b)
    ensures WithValue(data, a + b, v) == WithValue(data, a, v) + WithValue(data, b, v)
  {
    assert forall x | x in a || x in b :: x in a + b;
    if a == [] {
      assert a + b == b;
    } else {
      assert (a + b)[1..] == a[1..] + b;
      WithValueConcat(data, a[1..], b, v);
    }
  }

  lemma {:induction false} NoneWithValue(data: Keys, ns: seq<Addr>, v: int)
    requires Keyed(data, ns) && forall k | 0 <= k < |ns| :: data[ns[k]] != v
    ensures WithValue(data, ns, v) == []
  {
    if ns != [] {
      assert forall k | 0 <= k < |ns[1..]| :: ns[1..][k] == ns[k + 1];
      NoneWithValue(data, ns[1..], v);
    }
  }

  // ---------------------------------------------------------------- merging

  /** The order in which the merge loop takes nodes: on ties the right list goes first. */
  ghost function Merge(data: Keys, l: seq<Addr>, r: seq<Addr>): seq<Addr>
    requires Keyed(data, l) && Keyed(data, r)
    decreases |l| + |r|
  {
    if l == [] && r == [] then []
    else if r == [] || (l != [] && data[l[0]] < data[r[0]]) then [l[0]] + Merge(data, l[1..], r)
    else [r[0]] + Merge(data, l, r[1..])
  }

  lemma {:induction false} MergeMembers(data: Keys, l: seq<Addr>, r: seq<Addr>)
    requires Keyed(data, l) && Keyed(data, r)
    ensures |Merge(data, l, r)| == |l| + |r|
    ensures forall x :: x in Merge(data, l, r) <==> x in l || x in r
    ensures Keyed(data, Merge(data, l, r))
    decreases |l| + |r|
  {
    if l == [] && r == [] {
    } else if r == [] || (l != [] && data[l[0]] < data[r[0]]) {
      MergeMembers(data, l[1..], r);
      assert l == [l[0]] + l[1..];
    } else {
      MergeMembers(data, l, r[1..]);
      assert r == [r[0]] + r[1..];
    }
  }

  lemma SortedCons(data: Keys, x: Addr, s: seq<Addr>)
    requires Keyed(data, [x] + s) && Keyed(data, s) && Sorted(data, s)
    requires forall y | y in s :: data[x] <= data[y]
    ensures Sorted(data, [x] + s)
  {
    var c := [x] + s;
    forall i, j | 0 <= i < j < |c| ensures data[c[i]] <= data[c[j]] {
      assert c[j] == s[j - 1] && s[j - 1] in s;
      if i > 0 { assert c[i] == s[i - 1]; }
    }
  }

  lemma SortedTail(data: Keys, s: seq<Addr>)
    requires Keyed(data, s) && Sorted(data, s) && s != []
    ensures Keyed(data, s[1..]) && Sorted(data, s[1..])
    ensures forall y | y in s :: data[s[0]] <= data[y]
  {
    forall y | y in s ensures data[s[0]] <= data[y] {
      var k :| 0 <= k < |s| && s[k] == y;
    }
  }

  lemma {:induction false} MergeSorted(data: Keys, l: seq<Addr>, r: seq<Addr>)
    requires Keyed(data, l) && Keyed(data, r) && Sorted(data, l) && Sorted(data, r)
    ensures Keyed(data, Merge(data, l, r)) && Sorted(data, Merge(data, l, r))
    decreases |l| + |r|
  {
    hide SortedUpTo;
    MergeMembers(data, l, r);
    if l != [] { SortedTail(data, l); }
    if r != [] { SortedTail(data, r); }
    if l == [] && r == [] {
      SortedEmpty(data);
    } else if r == [] || (l != [] && data[l[0]] < data[r[0]]) {
      MergeSorted(data, l[1..], r);
      MergeMembers(data, l[1..], r);
      SortedCons(data, l[0], Merge(data, l[1..], r));
    } else {
      MergeSorted(data, l, r[1..]);
      MergeMembers(data, l, r[1..]);
      SortedCons(data, r[0], Merge(data, l, r[1..]));
    }
  }

  lemma SortedEmpty(data: Keys)
    ensures Sorted(data, [])
  {
  }

  // ---------------------------------------------------------------- stability of the merge

  lemma {:induction false} WithValueMembers(data: Keys, ns: seq<Addr>, v: int)
    requires Keyed(data, ns)
    ensures forall x :: x in WithValue(data, ns, v) <==> x in ns && data[x] == v
  {
    if ns == [] {
      assert WithValue(data, ns, v) == [];
    } else {
      WithValueMembers(data, ns[1..], v);
      assert ns == [ns[0]] + ns[1..];
    }
  }

  lemma NoneBelow(data: Keys, ns: seq<Addr>, v: int)
    requires Keyed(data, ns) && Sorted(data, ns) && (ns == [] || v < data[ns[0]])
    ensures WithValue(data, ns, v) == []
  {
    if ns != [] { SortedTail(data, ns); }
    NoneWithValue(data, ns, v);
  }

  /** On ties all nodes of the right list come first. */
  lemma {:induction false} MergeWithValue(data: Keys, l: seq<Addr>, r: seq<Addr>, v: int)
    requires Keyed(data, l) && Keyed(data, r) && Sorted(data, l) && Sorted(data, r)
    ensures Keyed(data, Merge(data, l, r))
    ensures WithValue(data, Merge(data, l, r), v) == WithValue(data, r, v) + WithValue(data, l, v)
    decreases |l| + |r|
  {
    hide SortedUpTo, WithValue;
    MergeMembers(data, l, r);
    if l != [] { SortedTail(data, l); }
    if r != [] { SortedTail(data, r); }
    if l == [] && r == [] {
      NoneWithValue(data, l, v);
      assert Merge(data, l, r) == l;
    } else if r == [] || (l != [] && data[l[0]] < data[r[0]]) {
      var m := Merge(data, l[1..], r);
      MergeMembers(data, l[1..], r);
      MergeWithValue(data, l[1..], r, v);
      WithValueCons(data, l[0], m, v);
      WithValueCons(data, l[0], l[1..], v);
      assert l == [l[0]] + l[1..];
      if data[l[0]] == v { NoneBelow(data, r, v); }
    } else {
      var m := Merge(data, l, r[1..]);
      MergeMembers(data, l, r[1..]);
      MergeWithValue(data, l, r[1..], v);
      WithValueCons(data, r[0], m, v);
      WithValueCons(data, r[0], r[1..], v);
      assert r == [r[0]] + r[1..];
    }
  }

  lemma WithValueCons(data: Keys, x: Addr, ns: seq<Addr>, v: int)
    requires x in data && Keyed(data, ns)
    ensures Keyed(data, [x] + ns)
    ensures WithValue(data, [x] + ns, v) == (if data[x] == v then [x] else []) + WithValue(data, ns, v)
  {
    assert ([x] + ns)[1..] == ns;
  }

  ghost predicate Apart(a: seq<Addr>, b: seq<Addr>) {
    forall x | x in a :: x !in b
  }

  /** No value occurs on both sides. */
  ghost predicate NoTies(data: Keys, l: seq<Addr>, r: seq<Addr>)
    requires Keyed(data, l) && Keyed(data, r)
  {
    forall x, y | x in l && y in r :: data[x] != data[y]
  }

  ghost predicate OneSided(data: Keys, l: seq<Addr>, r: seq<Addr>, v: int)
    requires Keyed(data, l) && Keyed(data, r)
  {
    WithValue(data, l, v) == [] || WithValue(data, r, v) == []
  }

  ghost predicate SameNodes(a: seq<Addr>, b: seq<Addr>) {
    forall x :: x in a <==> x in b
  }

  /** Two sorted halves, one value: where it occurs on one side only, the merge keeps that side's order. */
  lemma MergeOneValue(data: Keys, l: seq<Addr>, r: seq<Addr>, ls: seq<Addr>, rs: seq<Addr>, v: int)
    requires Keyed(data, l) && Keyed(data, r) && Keyed(data, ls) && Keyed(data, rs) && Keyed(data, l + r)
    requires Sorted(data, ls) && Sorted(data, rs) && SameNodes(l, ls) && SameNodes(r, rs) && Apart(l, r)
    ensures Keyed(data, Merge(data, ls, rs))
    ensures WithValue(data, Merge(data, ls, rs), v) == WithValue(data, l + r, v) <==>
      && OneSided(data, l, r, v)
      && WithValue(data, ls, v) == WithValue(data, l, v) && WithValue(data, rs, v) == WithValue(data, r, v)
  {
    hide WithValue, Merge, SortedUpTo;
    MergeWithValue(data, ls, rs, v);
    WithValueConcat(data, l, r, v);
    SameEmpty(data, l, ls, v);
    SameEmpty(data, r, rs, v);
    WithValueMembers(data, l, v);
    WithValueMembers(data, rs, v);
    var a, c := WithValue(data, rs, v), WithValue(data, l, v);
    assert a != [] && c != [] ==> a[0] in a && c[0] in c;
    SwappedEqual(a, WithValue(data, ls, v), c, WithValue(data, r, v));
  }

  lemma SameEmpty(data: Keys, ns: seq<Addr>, ms: seq<Addr>, v: int)
    requires Keyed(data, ns) && Keyed(data, ms) && SameNodes(ns, ms)
    ensures WithValue(data, ns, v) == [] <==> WithValue(data, ms, v) == []
  {
    hide WithValue;
    WithValueMembers(data, ns, v);
    WithValueMembers(data, ms, v);
    var a, b := WithValue(data, ns, v), WithValue(data, ms, v);
    if a != [] { assert a[0] in a && a[0] in b; }
    if b != [] { assert b[0] in b && b[0] in a; }
  }

  lemma SwappedEqual(a: seq<Addr>, b: seq<Addr>, c: seq<Addr>, d: seq<Addr>)
    requires (a == [] <==> d == []) && (b == [] <==> c == [])
    requires a != [] && c != [] ==> a[0] != c[0]
    ensures a + b == c + d <==> (c == [] || d == []) && b == c && a == d
  {
    if c == [] {
      assert a + b == a && c + d == d;
    } else if d == [] {
      assert a + b == b && c + d == c;
    } else {
      assert (a + b)[0] == a[0] && (c + d)[0] == c[0];
    }
  }

  /**
   * The merge keeps the order of equal nodes exactly when both halves were sorted stably and no
   * value occurs on both sides.
   */
  lemma MergeStable(data: Keys, l: seq<Addr>, r: seq<Addr>, ls: seq<Addr>, rs: seq<Addr>)
    requires Keyed(data, l) && Keyed(data, r) && Keyed(data, ls) && Keyed(data, rs)
    requires Sorted(data, ls) && Sorted(data, rs) && SameNodes(l, ls) && SameNodes(r, rs) && Apart(l, r)
    ensures StableRearrangement(data, l + r, Merge(data, ls, rs)) <==>
      NoTies(data, l, r) && StableRearrangement(data, l, ls) && StableRearrangement(data, r, rs)
  {
    hide WithValue, Merge, SortedUpTo;
    MergeMembers(data, ls, rs);
    assert Keyed(data, l + r);
    var m := Merge(data, ls, rs);
    TiesByValue(data, l, r);
    if StableRearrangement(data, l + r, m) {
      forall v
        ensures OneSided(data, l, r, v)
        ensures WithValue(data, ls, v) == WithValue(data, l, v) && WithValue(data, rs, v) == WithValue(data, r, v)
      {
        MergeOneValue(data, l, r, ls, rs, v);
      }
    }
    if NoTies(data, l, r) && StableRearrangement(data, l, ls) && StableRearrangement(data, r, rs) {
      forall v ensures WithValue(data, m, v) == WithValue(data, l + r, v) {
        assert OneSided(data, l, r, v);
        MergeOneValue(data, l, r, ls, rs, v);
      }
    }
  }

  lemma TiesByValue(data: Keys, l: seq<Addr>, r: seq<Addr>)
    requires Keyed(data, l) && Keyed(data, r)
    ensures NoTies(data, l, r) <==> forall v :: OneSided(data, l, r, v)
  {
    hide WithValue;
    forall v
      ensures forall x :: x in WithValue(data, l, v) <==> x in l && data[x] == v
      ensures forall x :: x in WithValue(data, r, v) <==> x in r && data[x] == v
    {
      WithValueMembers(data, l, v);
      WithValueMembers(data, r, v);
    }
    if NoTies(data, l, r) {
      forall v ensures OneSided(data, l, r, v) {
        var a, b := WithValue(data, l, v), WithValue(data, r, v);
        assert a != [] ==> a[0] in a;
        assert b != [] ==> b[0] in b;
      }
    } else {
      var x, y :| x in l && y in r && data[x] == data[y];
      var a, b := WithValue(data, l, data[x]), WithValue(data, r, data[x]);
      assert x in a && y in b;
      assert !OneSided(data, l, r, data[x]);
    }
  }

  /** For sorted lists themselves: the merge is stable exactly when no value occurs in both. */
  lemma MergeStableSorted(data: Keys, l: seq<Addr>, r: seq<Addr>)
    requires Keyed(data, l) && Keyed(data, r) && Sorted(data, l) && Sorted(data, r) && Apart(l, r)
    ensures StableRearrangement(data, l + r, Merge(data, l, r)) <==> NoTies(data, l, r)
  {
    hide WithValue, Merge, SortedUpTo;
    MergeStable(data, l, r, l, r);
  }

  /** Of two equal nodes the right one comes first. */
  lemma MergeUnstable(data: Keys, x: Addr, y: Addr)
    requires x in data && y in data && x != y && data[x] == data[y]
    ensures Merge(data, [x], [y]) == [y, x] && !StableRearrangement(data, [x] + [y], Merge(data, [x], [y]))
  {
    assert Merge(data, [x], []) == [x] + Merge(data, [], []);
    MergeStableSorted(data, [x], [y]);
    assert x in [x] && y in [y];
  }

  /** The splits that __merge_sort makes of ns separate no two equal nodes. */
  ghost predicate TiesUncut(data: Keys, ns: seq<Addr>, minSplitSize: int)
    requires Keyed(data, ns)
    decreases |ns|
  {
    |ns| < 2 || minSplitSize == 0 ||
    var m := |ns| / 2;
    var min := if m <= minSplitSize then 0 else minSplitSize;
    NoTies(data, ns[..m], ns[m..]) && TiesUncut(data, ns[..m], min) && TiesUncut(data, ns[m..], min)
  }

  /** Two equal nodes are exchanged by every threshold but 0. */
  lemma EqualPairCut(data: Keys, x: Addr, y: Addr, minSplitSize: int)
    requires x in data && y in data && data[x] == data[y]
    ensures TiesUncut(data, [x, y], minSplitSize) <==> minSplitSize == 0
  {
    var ns := [x, y];
    assert ns[..1] == [x] && ns[1..] == [y];
    assert x in [x] && y in [y];
  }
}
