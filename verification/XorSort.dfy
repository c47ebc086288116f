/** Building, splitting and sorting XOR lists in place. */
module XorSort {
  import opened XorList
  import opened XorOrder
  import opened XorInsertion

  /** Exactly the entries of the nodes ns are gone. */
  ghost predicate Kept<T>(before: map<Addr, T>, after: map<Addr, T>, ns: seq<Addr>) {
    forall y :: (y in after <==> y in before && y !in ns) && (y in after ==> after[y] == before[y])
  }

  /** Nodes in gone have been freed, and only nodes of ns have other links. */
  ghost predicate PartlyKept(before: Links, after: Links, gone: seq<Addr>, ns: seq<Addr>) {
    && (forall y :: y in after <==> y in before && y !in gone)
    && (forall y | y in after && y !in ns :: after[y] == before[y])
  }

  lemma NothingGone(addr: Links, data: Keys, ns: seq<Addr>)
    requires IsList(addr, ns)
    ensures PartlyKept(addr, addr, [], ns) && Kept(data, data, []) && Distinct(ns)
  {
  }

  lemma OneGone(start: Links, before: Links, detached: Links, gone: seq<Addr>, rest: seq<Addr>, ns: seq<Addr>)
    requires gone + rest == ns && rest != [] && PartlyKept(start, before, gone, ns)
    requires SameOutside(detached, before, rest[1..])
    ensures PartlyKept(start, detached - {rest[0]}, gone + [rest[0]], ns)
  {
    assert forall y | y in rest[1..] :: y in ns;
    assert forall y :: y in gone + [rest[0]] <==> y in gone || y == rest[0];
  }

  lemma OneLess(start: Keys, had: Keys, gone: seq<Addr>, l: Addr)
    requires Kept(start, had, gone)
    ensures Kept(start, had - {l}, gone + [l])
  {
    assert forall y :: y in gone + [l] <==> y in gone || y == l;
  }

  lemma AllGone(start: Links, after: Links, ns: seq<Addr>)
    requires PartlyKept(start, after, ns, ns)
    ensures Kept(start, after, ns)
  {
  }

  class Heap {
    var data: Keys
    var addr: Links

    /** insert_node: put a node allocated at address x in front of the list. */
    method InsertNode(l: Addr, d: int, x: Addr, ghost ns: seq<Addr>) returns (head: Addr)
      requires IsList(addr, ns) && l == At(ns, 0) && x != NULL && x !in addr && x !in ns
      modifies this
      ensures head == x && IsList(addr, [x] + ns)
      ensures data == old(data)[x := d] && addr.Keys == old(addr).Keys + {x}
      ensures forall y | y in old(addr) && y !in ns :: addr[y] == old(addr)[y]
    {
      data := data[x := d];
      if l == NULL {
        AtNull(addr, ns, 0);
        addr := addr[x := NULL];
        AppendNode(old(addr), [], x);
        assert [] + [x] == [x] + ns;
      } else {
        assert LinkedAt(addr, ns, 0);
        addr := addr[l := Xor(x, addr[l])];
        addr := addr[x := l];
        Prepended(old(addr), ns, x);
      }
      head := x;
    }

    /** Unlink the first node of a list from its successor, and return that successor. */
    method DetachFirst(l: Addr, ghost ns: seq<Addr>) returns (next: Addr)
      requires IsList(addr, ns) && ns != [] && l == ns[0]
      modifies this`addr
      ensures next == At(ns, 1) && addr == Detached(old(addr), ns)
      ensures IsList(addr, ns[1..]) && SameOutside(addr, old(addr), ns[1..])
    {
      hide Xor;
      StepForward(addr, ns, 0);
      DetachHead(addr, ns);
      AtNull(addr, ns, 1);
      next := addr[l];
      if next != NULL {
        assert LinkedAt(addr, ns, 1) && ns[1] == ns[1..][0];
        addr := addr[next := Xor(l, addr[next])];
      }
    }

    /** delete_list: free every node of the list, and nothing else. */
    method DeleteList(first: Addr, ghost ns: seq<Addr>)
      requires IsList(addr, ns) && first == At(ns, 0)
      modifies this
      ensures Kept(old(addr), addr, ns) && Kept(old(data), data, ns)
    {
      hide IsList, Kept, PartlyKept, Detached;
      var l := first;
      ghost var rest := ns;
      ghost var gone: seq<Addr> := [];
      NothingGone(addr, data, ns);
      while l != NULL
        invariant gone + rest == ns && Distinct(ns) && IsList(addr, rest) && l == At(rest, 0)
        invariant PartlyKept(old(addr), addr, gone, ns) && Kept(old(data), data, gone)
        decreases |rest|
      {
        AtNull(addr, rest, 0);
        FirstOnce(ns, gone, rest);
        ghost var rest', before := rest[1..], addr;
        var next := DetachFirst(l, rest);
        ghost var detached, had := addr, data;
        addr := addr - {l};
        data := data - {l};
        ListFrame(detached, addr, rest');
        OneGone(old(addr), before, detached, gone, rest, ns);
        OneLess(old(data), had, gone, l);
        l := next;
        gone := gone + [rest[0]];
        rest := rest';
      }
      AtNull(addr, rest, 0);
      assert gone == ns;
      AllGone(old(addr), addr, ns);
    }

    /** to_half: cut the list in the middle and return its second half. */
    method ToHalf(start: Addr, ghost ns: seq<Addr>) returns (right: Addr, size: int)
      requires IsList(addr, ns) && |ns| >= 2 && start == ns[0]
      modifies this`addr
      ensures size == |ns| / 2 && right == ns[size]
      ensures IsList(addr, ns[..size]) && IsList(addr, ns[size..])
      ensures SameOutside(addr, old(addr), ns)
    {
      hide Xor;
      StepForward(addr, ns, 0);
      var head, prev, fast := start, NULL, start;
      var fastNext := addr[head];
      size := 0;
      while fast != NULL && fastNext != NULL
        invariant addr == old(addr) && 0 <= size && 2 * size <= |ns|
        invariant head == At(ns, size) && prev == At(ns, size - 1)
        invariant fast == At(ns, 2 * size)
        invariant fast != NULL ==> fastNext == At(ns, 2 * size + 1)
        decreases |ns| - size
      {
        AtNull(addr, ns, 2 * size);
        AtNull(addr, ns, 2 * size + 1);
        StepForward(addr, ns, size);
        StepForward(addr, ns, 2 * size + 1);
        size := size + 1;
        var tmp := head;
        head := Xor(addr[head], prev);
        prev := tmp;
        fast := Xor(addr[fastNext], fast);
        if fast != NULL {
          AtNull(addr, ns, 2 * size);
          StepForward(addr, ns, 2 * size);
          fastNext := Xor(addr[fast], fastNext);
        }
      }
      AtNull(addr, ns, 2 * size);
      AtNull(addr, ns, 2 * size + 1);
      CutAt(addr, ns, size);
      assert ns[size - 1] in ns && ns[size] in ns;
      addr := addr[prev := Xor(addr[prev], head)];
      addr := addr[head := Xor(addr[head], prev)];
      right := head;
    }

    /** The inner loop of insertion_sort: walk back from the last sorted node. */
    method FindPosition(sorted: Addr, target: Addr, ghost c: seq<Addr>, ghost j: int)
      returns (pos: Addr, prev: Addr, ghost p: int)
      requires IsList(addr, c) && Keyed(data, c) && 0 <= j < |c| - 1 && sorted == c[j] && target == c[j + 1]
      ensures -1 <= p <= j && pos == At(c, p) && prev == c[p + 1]
      ensures (pos == NULL <==> p < 0) && (pos == sorted <==> p == j)
      ensures p == j ==> data[c[j]] <= data[target]
      ensures p < j ==> Insertion(data, c, p, j)
    {
      hide Xor;
      pos, prev, p := sorted, target, j;
      while pos != NULL && data[pos] > data[target]
        invariant -1 <= p <= j && pos == At(c, p) && prev == c[p + 1]
        invariant forall k | p < k <= j :: data[c[k]] > data[target]
        decreases p + 1
      {
        StepForward(addr, c, p);
        var tmp := pos;
        pos := Xor(addr[pos], prev);
        prev := tmp;
        p := p - 1;
        if p >= 0 { AtNull(addr, c, p); assert c[p] in c; }
      }
      if p >= 0 { AtNull(addr, c, p); }
      if p != j { AtOther(addr, c, j, p); }
    }

    /** The splice of insertion_sort: take the target out and put it back between pos and prev. */
    method Splice(sorted: Addr, target: Addr, pos: Addr, prev: Addr, ghost c: seq<Addr>, ghost p: int, ghost j: int)
      returns (next: Addr)
      requires IsList(addr, c) && -1 <= p < j < |c| - 1
      requires sorted == c[j] && target == c[j + 1] && pos == At(c, p) && prev == c[p + 1]
      modifies this`addr
      ensures next == At(c, j + 2) && (next == NULL <==> j + 2 == |c|)
      ensures addr == Spliced(old(addr), c, p, j)
    {
      hide Xor;
      assert LinkedAt(addr, c, p + 1);
      assert p >= 0 ==> LinkedAt(addr, c, p);
      StepForward(addr, c, j);
      StepForward(addr, c, j + 1);
      AtNull(addr, c, j + 2);
      assert j + 2 < |c| ==> LinkedAt(addr, c, j + 2);
      next := Xor(addr[target], sorted);
      addr := addr[sorted := Xor(Xor(addr[sorted], target), next)];
      if pos == NULL {
        addr := addr[target := prev];
        addr := addr[prev := Xor(addr[prev], target)];
      } else {
        addr := addr[pos := Xor(Xor(addr[pos], prev), target)];
        addr := addr[prev := Xor(Xor(addr[prev], pos), target)];
        addr := addr[target := Xor(pos, prev)];
      }
      if next != NULL {
        addr := addr[next := Xor(Xor(addr[next], target), sorted)];
      }
    }

    /** insertion_sort */
    method InsertionSort(first: Addr, ghost ns: seq<Addr>) returns (head: Addr, ghost rs: seq<Addr>)
      requires IsList(addr, ns) && Keyed(data, ns) && first == At(ns, 0)
      modifies this`addr
      ensures IsList(addr, rs) && head == At(rs, 0)
      ensures StableRearrangement(data, ns, rs) && Sorted(data, rs)
      ensures Rearranged(old(addr), addr, ns, rs)
    {
      hide Xor, Progress, Spliced, Moved, Insertion, StableRearrangement, SortedUpTo, Rearranged, IsList, LinkedAt;
      head, rs := first, ns;
      var sorted, sortedPrev := first, NULL;
      ghost var j := 0;
      AtNull(addr, ns, 0);
      StartProgress(data, addr, ns);
      if |ns| <= 1 { ProgressDone(data, addr, addr, ns, ns, head, 0); }
      if sorted == NULL { return; }
      StepForward(addr, ns, 0);
      if addr[sorted] == NULL { return; }
      while sorted != NULL
        invariant j <= |rs| && sorted == At(rs, j) && sortedPrev == At(rs, j - 1)
        invariant Progress(data, old(addr), addr, ns, rs, head, j)
        decreases |rs| - j
      {
        ProgressFacts(data, old(addr), addr, ns, rs, head, j);
        AtNull(addr, rs, j);
        StepForward(addr, rs, j);
        AtNull(addr, rs, j + 1);
        var target := Xor(addr[sorted], sortedPrev);
        var pos, prev, p := sorted, target, j;
        if target != NULL {
          pos, prev, p := FindPosition(sorted, target, rs, j);
        }
        if sorted != pos {
          SpliceProgress(data, old(addr), addr, ns, rs, head, p, j);
          var next := Splice(sorted, target, pos, prev, rs, p, j);
          if pos == NULL { head := target; }
          rs := Moved(rs, p, j);
          j := j + 1;
          ProgressFacts(data, old(addr), addr, ns, rs, head, j);
          if next == NULL {
            ProgressDone(data, old(addr), addr, ns, rs, head, j);
            return;
          }
          StepForward(addr, rs, j);
          sortedPrev := Xor(addr[sorted], next);
        } else {
          AdvanceProgress(data, old(addr), addr, ns, rs, head, j);
          sortedPrev := sorted;
          sorted := target;
          j := j + 1;
        }
      }
      ProgressFacts(data, old(addr), addr, ns, rs, head, j);
      AtNull(addr, rs, j);
      ProgressDone(data, old(addr), addr, ns, rs, head, j);
    }

    /** One round of the merge loop: the first node of list q goes behind the merged nodes ms. */
    method TakeFirst(x: Addr, merge: Addr, ghost q: seq<Addr>, ghost ms: seq<Addr>) returns (next: Addr)
      requires IsList(addr, q) && q != [] && x == q[0] && IsList(addr, ms) && Apart(q, ms)
      requires merge == At(ms, |ms| - 1)
      modifies this`addr
      ensures next == At(q, 1) && IsList(addr, q[1..]) && IsList(addr, ms + [x])
      ensures SameOutside(addr, old(addr), q + ms)
    {
      hide Xor, LinkedAt;
      HeadApart(addr, q, ms);
      ghost var before := addr;
      next := DetachFirst(x, q);
      ListFrame(before, addr, ms);
      ghost var detached := addr;
      LastInLinks(addr, ms);
      AppendNode(addr, ms, x);
      if merge == NULL {
        addr := addr[x := NULL];
      } else {
        addr := addr[merge := Xor(addr[merge], x)];
        addr := addr[x := merge];
      }
      assert addr == Appended(detached, ms, x);
      ListFrame(detached, addr, q[1..]);
    }

    /** The merge loop of __merge_sort. */
    method MergeLists(left0: Addr, right0: Addr, ghost ls: seq<Addr>, ghost rs: seq<Addr>)
      returns (start: Addr, ghost ms: seq<Addr>)
      requires IsList(addr, ls) && IsList(addr, rs) && Apart(ls, rs) && Keyed(data, ls) && Keyed(data, rs)
      requires left0 == At(ls, 0) && right0 == At(rs, 0)
      modifies this`addr
      ensures ms == Merge(data, ls, rs) && IsList(addr, ms) && start == At(ms, 0)
      ensures SameOutside(addr, old(addr), ls + rs)
    {
      hide Xor, LinkedAt, IsList, SameOutside, Merge;
      var left, right, merge := left0, right0, NULL;
      ghost var l, r := ls, rs;
      start, ms := NULL, [];
      StartMerge(data, addr, ls, rs);
      while left != NULL || right != NULL
        invariant left == At(l, 0) && right == At(r, 0) && merge == At(ms, |ms| - 1) && start == At(ms, 0)
        invariant Merging(data, old(addr), addr, ls, rs, l, r, ms)
        decreases |l| + |r|
      {
        MergingFacts(data, old(addr), addr, ls, rs, l, r, ms);
        AtNull(addr, l, 0);
        AtNull(addr, r, 0);
        var next;
        if right == NULL || (left != NULL && data[left] < data[right]) {
          ghost var before := addr;
          next := TakeFirst(left, merge, l, ms);
          MergeLeft(data, old(addr), before, addr, ls, rs, l, r, ms);
          if merge == NULL { start := left; }
          MergeHead(before, ms, left);
          merge := left;
          left := next;
          ms, l := ms + [l[0]], l[1..];
        } else {
          ghost var before := addr;
          next := TakeFirst(right, merge, r, ms);
          MergeRight(data, old(addr), before, addr, ls, rs, l, r, ms);
          if merge == NULL { start := right; }
          MergeHead(before, ms, right);
          merge := right;
          right := next;
          ms, r := ms + [r[0]], r[1..];
        }
      }
      MergingFacts(data, old(addr), addr, ls, rs, l, r, ms);
      AtNull(addr, l, 0);
      AtNull(addr, r, 0);
      MergeDone(data, old(addr), addr, ls, rs, l, r, ms);
    }

    /** __merge_sort, for every split threshold. */
    method MergeSort(start: Addr, minSplitSize: int, ghost ns: seq<Addr>) returns (head: Addr, ghost rs: seq<Addr>)
      requires IsList(addr, ns) && Keyed(data, ns) && start == At(ns, 0)
      modifies this`addr
      ensures IsList(addr, rs) && head == At(rs, 0)
      ensures Keyed(data, rs) && Sorted(data, rs) && Rearranged(old(addr), addr, ns, rs)
      ensures StableRearrangement(data, ns, rs) <==> TiesUncut(data, ns, minSplitSize)
      decreases |ns|
    {
      hide Xor, LinkedAt, SortedUpTo, WithValue, Distinct, Merge, StableRearrangement, TiesUncut;
      AtNull(addr, ns, 0);
      ShortSorted(data, ns);
      ShortStable(data, ns, minSplitSize);
      if start == NULL { return start, ns; }
      StepForward(addr, ns, 0);
      if addr[start] == NULL { return start, ns; }
      if minSplitSize == 0 {
        head, rs := InsertionSort(start, ns);
        return;
      }
      var right, size := ToHalf(start, ns);
      ghost var l, r := ns[..size], ns[size..];
      var min := if size <= minSplitSize then 0 else minSplitSize;
      ghost var a0 := addr;
      Halves(data, a0, ns, size);
      var left, ls := MergeSort(start, min, l);
      ghost var a1 := addr;
      RightKept(a0, a1, l, ls, r);
      var right', rs' := MergeSort(right, min, r);
      ghost var a2 := addr;
      RightKept(a1, a2, r, rs', ls);
      MergeMembers(data, ls, rs');
      MergeSorted(data, ls, rs');
      head, rs := MergeLists(left, right', ls, rs');
      AllRearranged(old(addr), a0, a1, a2, addr, ns, size, ls, rs', rs);
      MergeStable(data, l, r, ls, rs');
      LongStable(data, ns, minSplitSize);
    }
  }

  // ---------------------------------------------------------------- merging

  lemma HeadApart(addr: Links, q: seq<Addr>, ms: seq<Addr>)
    requires IsList(addr, q) && q != [] && Apart(q, ms)
    ensures q[0] != NULL && q[0] in addr && q[0] !in ms && q[0] !in q[1..] && q[0] in q
    ensures forall x | x in q[1..] :: x in q && x !in ms
  {
    assert LinkedAt(addr, q, 0);
    assert q == [q[0]] + q[1..];
  }

  lemma LastInLinks(addr: Links, ms: seq<Addr>)
    requires IsList(addr, ms)
    ensures ms == [] <==> At(ms, |ms| - 1) == NULL
    ensures ms != [] ==> ms[|ms| - 1] in addr && ms[|ms| - 1] in ms
  {
    if ms != [] { assert LinkedAt(addr, ms, |ms| - 1); }
  }

  /** The state of the merge: what is merged, followed by the merge of what is left, is the whole merge. */
  ghost predicate Merging(data: Keys, before: Links, addr: Links, ls: seq<Addr>, rs: seq<Addr>,
                          l: seq<Addr>, r: seq<Addr>, ms: seq<Addr>)
  {
    && IsList(addr, l) && IsList(addr, r) && IsList(addr, ms)
    && Apart(l, r) && Apart(l, ms) && Apart(r, ms)
    && Keyed(data, l) && Keyed(data, r) && Keyed(data, ls) && Keyed(data, rs)
    && ms + Merge(data, l, r) == Merge(data, ls, rs)
    && (forall x | x in l || x in r || x in ms :: x in ls + rs)
    && SameOutside(addr, before, ls + rs)
  }

  lemma StartMerge(data: Keys, addr: Links, ls: seq<Addr>, rs: seq<Addr>)
    requires IsList(addr, ls) && IsList(addr, rs) && Apart(ls, rs) && Keyed(data, ls) && Keyed(data, rs)
    ensures Merging(data, addr, addr, ls, rs, ls, rs, [])
  {
    assert [] + Merge(data, ls, rs) == Merge(data, ls, rs);
  }

  lemma MergingFacts(data: Keys, before: Links, addr: Links, ls: seq<Addr>, rs: seq<Addr>,
                     l: seq<Addr>, r: seq<Addr>, ms: seq<Addr>)
    requires Merging(data, before, addr, ls, rs, l, r, ms)
    ensures IsList(addr, l) && IsList(addr, r) && IsList(addr, ms) && Keyed(data, l) && Keyed(data, r)
    ensures Apart(l, ms) && Apart(r, ms)
  {
  }

  lemma MergeDone(data: Keys, before: Links, addr: Links, ls: seq<Addr>, rs: seq<Addr>,
                  l: seq<Addr>, r: seq<Addr>, ms: seq<Addr>)
    requires Merging(data, before, addr, ls, rs, l, r, ms) && l == [] && r == []
    ensures ms == Merge(data, ls, rs) && IsList(addr, ms) && SameOutside(addr, before, ls + rs)
  {
    assert ms + [] == ms;
  }

  lemma MergeHead(addr: Links, ms: seq<Addr>, x: Addr)
    requires IsList(addr, ms)
    ensures At(ms + [x], 0) == (if At(ms, |ms| - 1) == NULL then x else At(ms, 0))
    ensures At(ms + [x], |ms|) == x
  {
    LastInLinks(addr, ms);
  }

  /** A list none of whose nodes the step touches is still a list. */
  lemma Untouched(a: Links, b: Links, q: seq<Addr>, ms: seq<Addr>, other: seq<Addr>)
    requires IsList(a, other) && SameOutside(b, a, q + ms) && Apart(other, q) && Apart(other, ms)
    ensures IsList(b, other)
  {
    ListFrame(a, b, other);
  }

  lemma MergeLeft(data: Keys, before: Links, a: Links, b: Links, ls: seq<Addr>, rs: seq<Addr>,
                  l: seq<Addr>, r: seq<Addr>, ms: seq<Addr>)
    requires Merging(data, before, a, ls, rs, l, r, ms) && l != []
    requires r == [] || data[l[0]] < data[r[0]]
    requires IsList(b, l[1..]) && IsList(b, ms + [l[0]]) && SameOutside(b, a, l + ms)
    ensures Merging(data, before, b, ls, rs, l[1..], r, ms + [l[0]])
  {
    hide LinkedAt, Merge, Distinct, SameOutside;
    Untouched(a, b, l, ms, r);
    HeadApart(a, l, ms);
    MergeTakesLeft(data, l, r, ms);
    StillOutside(before, a, b, l, ms, ls + rs);
  }

  lemma MergeRight(data: Keys, before: Links, a: Links, b: Links, ls: seq<Addr>, rs: seq<Addr>,
                   l: seq<Addr>, r: seq<Addr>, ms: seq<Addr>)
    requires Merging(data, before, a, ls, rs, l, r, ms) && r != []
    requires l == [] || data[l[0]] >= data[r[0]]
    requires IsList(b, r[1..]) && IsList(b, ms + [r[0]]) && SameOutside(b, a, r + ms)
    ensures Merging(data, before, b, ls, rs, l, r[1..], ms + [r[0]])
  {
    hide LinkedAt, Merge, Distinct, SameOutside;
    Untouched(a, b, r, ms, l);
    HeadApart(a, r, ms);
    MergeTakesRight(data, l, r, ms);
    StillOutside(before, a, b, r, ms, ls + rs);
  }

  lemma MergeTakesLeft(data: Keys, l: seq<Addr>, r: seq<Addr>, ms: seq<Addr>)
    requires Keyed(data, l) && Keyed(data, r) && l != [] && (r == [] || data[l[0]] < data[r[0]])
    ensures Keyed(data, l[1..]) && ms + [l[0]] + Merge(data, l[1..], r) == ms + Merge(data, l, r)
  {
  }

  lemma MergeTakesRight(data: Keys, l: seq<Addr>, r: seq<Addr>, ms: seq<Addr>)
    requires Keyed(data, l) && Keyed(data, r) && r != [] && (l == [] || data[l[0]] >= data[r[0]])
    ensures Keyed(data, r[1..]) && ms + [r[0]] + Merge(data, l, r[1..]) == ms + Merge(data, l, r)
  {
  }

  lemma StillOutside(before: Links, a: Links, b: Links, q: seq<Addr>, ms: seq<Addr>, all: seq<Addr>)
    requires SameOutside(a, before, all) && SameOutside(b, a, q + ms)
    requires forall x | x in q || x in ms :: x in all
    ensures SameOutside(b, before, all)
  {
  }

  // ---------------------------------------------------------------- the recursion

  lemma ShortSorted(data: Keys, ns: seq<Addr>)
    requires Keyed(data, ns)
    ensures |ns| <= 1 ==> Sorted(data, ns)
  {
  }

  lemma ShortStable(data: Keys, ns: seq<Addr>, minSplitSize: int)
    requires Keyed(data, ns)
    ensures StableRearrangement(data, ns, ns)
    ensures |ns| < 2 || minSplitSize == 0 ==> TiesUncut(data, ns, minSplitSize)
  {
  }

  lemma LongStable(data: Keys, ns: seq<Addr>, minSplitSize: int)
    requires Keyed(data, ns) && |ns| >= 2 && minSplitSize != 0
    ensures var m := |ns| / 2;
      var min := if m <= minSplitSize then 0 else minSplitSize;
      && ns == ns[..m] + ns[m..] && Keyed(data, ns[..m]) && Keyed(data, ns[m..])
      && (TiesUncut(data, ns, minSplitSize) <==>
            NoTies(data, ns[..m], ns[m..]) && TiesUncut(data, ns[..m], min) && TiesUncut(data, ns[m..], min))
  {
  }

  lemma Halves(data: Keys, addr: Links, ns: seq<Addr>, m: int)
    requires Keyed(data, ns) && Distinct(ns) && 0 < m < |ns|
    ensures Keyed(data, ns[..m]) && Keyed(data, ns[m..]) && Apart(ns[..m], ns[m..])
    ensures At(ns[..m], 0) == ns[0] && At(ns[m..], 0) == ns[m]
  {
    assert forall k | 0 <= k < |ns| - m :: ns[m..][k] == ns[m + k];
  }

  /** Sorting one list leaves another alone. */
  lemma RightKept(a: Links, b: Links, ns: seq<Addr>, rs: seq<Addr>, other: seq<Addr>)
    requires Rearranged(a, b, ns, rs) && IsList(a, other) && (Apart(ns, other) || Apart(rs, other))
    ensures IsList(b, other) && Apart(rs, other)
  {
    ListFrame(a, b, other);
  }

  lemma AllRearranged(old0: Links, a0: Links, a1: Links, a2: Links, a3: Links,
                      ns: seq<Addr>, m: int, ls: seq<Addr>, rs: seq<Addr>, all: seq<Addr>)
    requires 0 < m < |ns| && SameOutside(a0, old0, ns)
    requires Rearranged(a0, a1, ns[..m], ls) && Rearranged(a1, a2, ns[m..], rs)
    requires SameOutside(a3, a2, ls + rs) && |all| == |ls| + |rs| && forall x :: x in all <==> x in ls || x in rs
    ensures Rearranged(old0, a3, ns, all)
  {
    assert ns == ns[..m] + ns[m..];
    assert forall x :: x in ns <==> x in ns[..m] || x in ns[m..];
  }

  /** The state of the insertion sort: the first j + 1 nodes (all, once j has run off the end) are sorted. */
  ghost predicate Progress(data: Keys, before: Links, addr: Links, ns: seq<Addr>, rs: seq<Addr>, head: Addr, j: int) {
    && IsList(addr, rs) && head == At(rs, 0) && Rearranged(before, addr, ns, rs)
    && StableRearrangement(data, ns, rs) && 0 <= j <= |rs|
    && SortedUpTo(data, rs, if j < |rs| then j + 1 else j)
  }

  lemma StartProgress(data: Keys, addr: Links, ns: seq<Addr>)
    requires IsList(addr, ns) && Keyed(data, ns)
    ensures Progress(data, addr, addr, ns, ns, At(ns, 0), 0)
  {
  }

  lemma ProgressFacts(data: Keys, before: Links, addr: Links, ns: seq<Addr>, rs: seq<Addr>, head: Addr, j: int)
    requires Progress(data, before, addr, ns, rs, head, j)
    ensures IsList(addr, rs) && head == At(rs, 0) && Keyed(data, rs) && 0 <= j <= |rs|
  {
  }

  lemma ProgressDone(data: Keys, before: Links, addr: Links, ns: seq<Addr>, rs: seq<Addr>, head: Addr, j: int)
    requires Progress(data, before, addr, ns, rs, head, j) && |rs| <= j + 1
    ensures StableRearrangement(data, ns, rs) && Sorted(data, rs) && Rearranged(before, addr, ns, rs)
  {
  }

  lemma AdvanceProgress(data: Keys, before: Links, addr: Links, ns: seq<Addr>, rs: seq<Addr>, head: Addr, j: int)
    requires Progress(data, before, addr, ns, rs, head, j) && j < |rs| && Keyed(data, rs)
    requires j + 1 < |rs| ==> data[rs[j]] <= data[rs[j + 1]]
    ensures Progress(data, before, addr, ns, rs, head, j + 1)
  {
  }

  lemma SpliceProgress(data: Keys, before: Links, addr: Links, ns: seq<Addr>, rs: seq<Addr>, head: Addr, p: int, j: int)
    requires Progress(data, before, addr, ns, rs, head, j) && IsList(addr, rs) && Keyed(data, rs)
    requires -1 <= p < j < |rs| - 1 && Insertion(data, rs, p, j)
    ensures var b, m := Spliced(addr, rs, p, j), Moved(rs, p, j);
            && Progress(data, before, b, ns, m, if p < 0 then rs[j + 1] else head, j + 1)
            && |m| == |rs| && m[j + 1] == rs[j] && At(m, j + 2) == At(rs, j + 2)
  {
    hide Spliced, Moved, Insertion, LinkedAt, WithValue, SortedUpTo;
    SpliceOrder(data, ns, rs, p, j);
    SpliceLinks(addr, rs, p, j);
  }

  /** Links changed only inside the list, whose nodes are the same as before. */
  ghost predicate Rearranged(before: Links, after: Links, ns: seq<Addr>, rs: seq<Addr>) {
    SameOutside(after, before, ns) && |rs| == |ns| && forall x :: x in rs <==> x in ns
  }

  /** What one splice does to the order of the nodes. */
  lemma SpliceOrder(data: Keys, ns: seq<Addr>, c: seq<Addr>, p: int, j: int)
    requires Distinct(c) && -1 <= p < j < |c| - 1 && StableRearrangement(data, ns, c)
    requires Insertion(data, c, p, j) && SortedUpTo(data, c, j + 1)
    ensures var m := Moved(c, p, j);
            && |m| == |c| && StableRearrangement(data, ns, m) && SortedUpTo(data, m, j + 2)
            && (forall x :: x in m <==> x in c)
            && m[j + 1] == c[j] && At(m, j + 2) == At(c, j + 2) && m[0] == (if p < 0 then c[j + 1] else c[0])
  {
    hide Moved, Insertion;
    MovedSame(c, p, j);
    MovedAt(c, p, j, j + 1);
    MovedAt(c, p, j, j + 2);
    MovedAt(c, p, j, 0);
    InsertionSorted(data, c, p, j);
    forall v ensures WithValue(data, Moved(c, p, j), v) == WithValue(data, ns, v) {
      InsertionStable(data, c, p, j, v);
    }
  }

  /** What one splice does to the links. */
  lemma SpliceLinks(addr: Links, c: seq<Addr>, p: int, j: int)
    requires IsList(addr, c) && -1 <= p < j < |c| - 1
    ensures IsList(Spliced(addr, c, p, j), Moved(c, p, j)) && SameOutside(Spliced(addr, c, p, j), addr, c)
  {
    hide Spliced, Xor;
    SpliceKeepsList(addr, c, p, j);
    SplicedValues(addr, c, p, j);
    forall x | x in addr && x !in c ensures Spliced(addr, c, p, j)[x] == addr[x] {
      SplicedOutside(addr, c, p, j, x);
    }
  }

  lemma SplicedOutside(addr: Links, c: seq<Addr>, p: int, j: int, x: Addr)
    requires IsList(addr, c) && -1 <= p < j < |c| - 1 && x in addr && x !in c
    ensures Spliced(addr, c, p, j)[x] == addr[x]
  {
    assert c[j + 1] in c && c[j] in c && c[p + 1] in c;
    assert p >= 0 ==> c[p] in c;
    assert j + 2 < |c| ==> c[j + 2] in c;
  }

  /** A position holds NULL exactly when it is outside the list. */
  lemma AtNull(addr: Links, ns: seq<Addr>, i: int)
    requires IsList(addr, ns) && i >= 0
    ensures At(ns, i) == NULL <==> i >= |ns|
  {
    if i < |ns| { assert LinkedAt(addr, ns, i); }
  }

  lemma FirstOnce(ns: seq<Addr>, gone: seq<Addr>, rest: seq<Addr>)
    requires gone + rest == ns && rest != [] && Distinct(ns)
    ensures rest[0] !in gone && rest[0] !in rest[1..] && rest[0] in ns
    ensures gone + [rest[0]] + rest[1..] == ns
  {
    assert ns[|gone|] == rest[0];
    assert forall k | 0 <= k < |gone| :: ns[k] == gone[k];
    assert forall k | 0 <= k < |rest[1..]| :: ns[|gone| + 1 + k] == rest[1..][k];
  }

  lemma Prepended(addr: Links, ns: seq<Addr>, x: Addr)
    requires IsList(addr, ns) && ns != [] && x != NULL && x !in ns && ns[0] in addr
    ensures IsList(addr[ns[0] := Xor(x, addr[ns[0]])][x := ns[0]], [x] + ns)
  {
    hide Xor;
    var b, all := addr[ns[0] := Xor(x, addr[ns[0]])][x := ns[0]], [x] + ns;
    forall i | 0 <= i < |all| ensures LinkedAt(b, all, i) {
      if i == 0 {
        XorZero(ns[0]);
      } else {
        assert LinkedAt(addr, ns, i - 1);
        assert all[i] == ns[i - 1] && ns[i - 1] in ns;
        assert At(all, i + 1) == At(ns, i);
        if i == 1 {
          XorZero(At(ns, 1));
        } else {
          assert At(all, i - 1) == At(ns, i - 2);
        }
      }
    }
  }

  /** Taking each other's address out of the two nodes at a cut leaves two lists. */
  lemma CutAt(addr: Links, ns: seq<Addr>, m: int)
    requires IsList(addr, ns) && 0 < m < |ns|
    ensures ns[m - 1] in addr && ns[m] in addr
    ensures var b := addr[ns[m - 1] := Xor(addr[ns[m - 1]], ns[m])];
            var c := b[ns[m] := Xor(b[ns[m]], ns[m - 1])];
            IsList(c, ns[..m]) && IsList(c, ns[m..])
  {
    hide Xor;
    assert LinkedAt(addr, ns, m - 1) && LinkedAt(addr, ns, m);
    var b := addr[ns[m - 1] := Xor(addr[ns[m - 1]], ns[m])];
    var c := b[ns[m] := Xor(b[ns[m]], ns[m - 1])];
    var l, r := ns[..m], ns[m..];
    XorLaws(At(ns, m - 2), ns[m]);
    XorLaws(ns[m - 1], At(ns, m + 1));
    forall i | 0 <= i < |l| ensures LinkedAt(c, l, i) {
      assert LinkedAt(addr, ns, i);
      assert At(l, i - 1) == At(ns, i - 1);
      if i == m - 1 { XorZero(At(ns, m - 2)); } else { assert At(l, i + 1) == At(ns, i + 1); }
    }
    forall i | 0 <= i < |r| ensures LinkedAt(c, r, i) {
      assert LinkedAt(addr, ns, m + i);
      assert At(r, i + 1) == At(ns, m + i + 1);
      if i == 0 { XorZero(At(ns, m + 1)); } else { assert At(r, i - 1) == At(ns, m + i - 1); }
    }
  }
}
