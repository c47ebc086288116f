/** What the insertion sort's splice does to the order of the nodes and to their links. */
module XorInsertion {
  import opened XorList
  import opened XorOrder

  /** The node at j + 1 taken out and put back in right after position p. */
  ghost function Moved(c: seq<Addr>, p: int, j: int): seq<Addr>
    requires -1 <= p < j < |c| - 1
  {
    c[..p + 1] + [c[j + 1]] + c[p + 1..j + 1] + c[j + 2..]
  }

  lemma MovedAt(c: seq<Addr>, p: int, j: int, k: int)
    requires -1 <= p < j < |c| - 1
    ensures |Moved(c, p, j)| == |c|
    ensures At(Moved(c, p, j), k) ==
            if k <= p || k >= j + 2 then At(c, k) else if k == p + 1 then c[j + 1] else c[k - 1]
  {
  }

  lemma MovedSame(c: seq<Addr>, p: int, j: int)
    requires -1 <= p < j < |c| - 1 && Distinct(c)
    ensures Distinct(Moved(c, p, j))
    ensures forall x :: x in Moved(c, p, j) <==> x in c
  {
    hide Moved;
    var m := Moved(c, p, j);
    forall k | 0 <= k < |c| ensures |m| == |c| && m[k] == c[Source(p, j, k)] { MovedAt(c, p, j, k); }
    MovedAt(c, p, j, 0);
    forall x | x in c ensures x in m {
      var k :| 0 <= k < |c| && c[k] == x;
      var t := if k == j + 1 then p + 1 else if p < k <= j then k + 1 else k;
      assert m[t] == c[Source(p, j, t)];
    }
  }

  /** Where the node at position k of the moved sequence came from. */
  ghost function Source(p: int, j: int, k: int): int {
    if k <= p || k >= j + 2 then k else if k == p + 1 then j + 1 else k - 1
  }

  /** The links after the splice, written in the order in which the code writes them. */
  ghost function Spliced(addr: Links, c: seq<Addr>, p: int, j: int): Links
    requires IsList(addr, c) && -1 <= p < j < |c| - 1
  {
    assert LinkedAt(addr, c, j) && LinkedAt(addr, c, p + 1) && LinkedAt(addr, c, j + 1);
    assert p >= 0 ==> LinkedAt(addr, c, p);
    assert j + 2 < |c| ==> LinkedAt(addr, c, j + 2);
    var t, sorted, pos, prev, next := c[j + 1], c[j], At(c, p), c[p + 1], At(c, j + 2);
    var a1 := addr[sorted := Xor(Xor(addr[sorted], t), next)];
    var a4 :=
      if p < 0 then
        var a2 := a1[t := prev];
        a2[prev := Xor(a2[prev], t)]
      else
        var a2 := a1[pos := Xor(Xor(a1[pos], prev), t)];
        var a3 := a2[prev := Xor(Xor(a2[prev], pos), t)];
        a3[t := Xor(pos, prev)];
    if j + 2 < |c| then a4[next := Xor(Xor(a4[next], t), sorted)] else a4
  }

  /** What the splice leaves in each of the nodes it writes. */
  lemma SplicedValues(addr: Links, c: seq<Addr>, p: int, j: int)
    requires IsList(addr, c) && -1 <= p < j < |c| - 1
    ensures var b := Spliced(addr, c, p, j);
            && b.Keys == addr.Keys && c[j + 1] in b && c[j] in b && c[p + 1] in b
            && b[c[j + 1]] == Xor(At(c, p), c[p + 1])
            && (p + 1 < j ==> b[c[j]] == Xor(c[j - 1], At(c, j + 2)) && b[c[p + 1]] == Xor(c[j + 1], c[p + 2]))
            && (p + 1 == j ==> b[c[j]] == Xor(c[j + 1], At(c, j + 2)))
            && (p >= 0 ==> c[p] in b && b[c[p]] == Xor(At(c, p - 1), c[j + 1]))
            && (j + 2 < |c| ==> c[j + 2] in b && b[c[j + 2]] == Xor(c[j], At(c, j + 3)))
  {
    hide Xor, Spliced;
    if p < 0 { SplicedAtHead(addr, c, j); } else { SplicedInside(addr, c, p, j); }
  }

  /** The target goes in front of all sorted nodes. */
  lemma SplicedAtHead(addr: Links, c: seq<Addr>, j: int)
    requires IsList(addr, c) && 0 <= j < |c| - 1
    ensures var b := Spliced(addr, c, -1, j);
            && b.Keys == addr.Keys && c[j + 1] in b && c[j] in b && c[0] in b
            && b[c[j + 1]] == Xor(NULL, c[0])
            && (0 < j ==> b[c[j]] == Xor(c[j - 1], At(c, j + 2)) && b[c[0]] == Xor(c[j + 1], c[1]))
            && (0 == j ==> b[c[j]] == Xor(c[j + 1], At(c, j + 2)))
            && (j + 2 < |c| ==> c[j + 2] in b && b[c[j + 2]] == Xor(c[j], At(c, j + 3)))
  {
    hide Xor;
    assert LinkedAt(addr, c, j) && LinkedAt(addr, c, 0) && LinkedAt(addr, c, j + 1);
    assert j + 2 < |c| ==> LinkedAt(addr, c, j + 2);
    var t, next := c[j + 1], At(c, j + 2);
    XorReplace(At(c, j - 1), t, next);
    XorReplace(At(c, j + 3), t, c[j]);
    XorReplace(At(c, 1), NULL, t);
    XorReplace(next, NULL, t);
    XorZero(c[0]);
    XorZero(At(c, 1));
    XorZero(next);
    XorComm(At(c, 1), t);
    XorComm(next, t);
  }

  /** The target goes between two sorted nodes. */
  lemma SplicedInside(addr: Links, c: seq<Addr>, p: int, j: int)
    requires IsList(addr, c) && 0 <= p < j < |c| - 1
    ensures var b := Spliced(addr, c, p, j);
            && b.Keys == addr.Keys && c[j + 1] in b && c[j] in b && c[p + 1] in b && c[p] in b
            && b[c[j + 1]] == Xor(c[p], c[p + 1])
            && (p + 1 < j ==> b[c[j]] == Xor(c[j - 1], At(c, j + 2)) && b[c[p + 1]] == Xor(c[j + 1], c[p + 2]))
            && (p + 1 == j ==> b[c[j]] == Xor(c[j + 1], At(c, j + 2)))
            && b[c[p]] == Xor(At(c, p - 1), c[j + 1])
            && (j + 2 < |c| ==> c[j + 2] in b && b[c[j + 2]] == Xor(c[j], At(c, j + 3)))
  {
    hide Xor;
    assert LinkedAt(addr, c, j) && LinkedAt(addr, c, p + 1) && LinkedAt(addr, c, j + 1) && LinkedAt(addr, c, p);
    assert j + 2 < |c| ==> LinkedAt(addr, c, j + 2);
    var t, next := c[j + 1], At(c, j + 2);
    XorReplace(At(c, j - 1), t, next);
    XorReplace(At(c, p - 1), c[p + 1], t);
    XorReplace(At(c, j + 3), t, c[j]);
    XorReplace(At(c, p + 2), At(c, p), t);
    XorReplace(next, At(c, p), t);
    XorComm(At(c, p + 2), t);
    XorComm(next, t);
  }

  lemma SplicedElsewhere(addr: Links, c: seq<Addr>, p: int, j: int, x: Addr)
    requires IsList(addr, c) && -1 <= p < j < |c| - 1 && x in addr
    requires x != c[j + 1] && x != c[j] && x != c[p + 1] && x != At(c, p) && x != At(c, j + 2)
    ensures Spliced(addr, c, p, j)[x] == addr[x]
  {
  }

  /** The splice turns the list of c into the list of the moved sequence. */
  lemma SpliceKeepsList(addr: Links, c: seq<Addr>, p: int, j: int)
    requires IsList(addr, c) && -1 <= p < j < |c| - 1
    ensures IsList(Spliced(addr, c, p, j), Moved(c, p, j))
  {
    MovedSame(c, p, j);
    var b, m := Spliced(addr, c, p, j), Moved(c, p, j);
    SplicedValues(addr, c, p, j);
    forall k | 0 <= k < |m| ensures LinkedAt(b, m, k) { SpliceAt(addr, c, p, j, k); }
  }

  lemma SpliceAt(addr: Links, c: seq<Addr>, p: int, j: int, k: int)
    requires IsList(addr, c) && -1 <= p < j < |c| - 1 && 0 <= k < |c|
    ensures |Moved(c, p, j)| == |c| && LinkedAt(Spliced(addr, c, p, j), Moved(c, p, j), k)
  {
    hide Xor, Spliced, Moved;
    SplicedValues(addr, c, p, j);
    MovedAt(c, p, j, k - 1);
    MovedAt(c, p, j, k);
    MovedAt(c, p, j, k + 1);
    if k == p + 1 {
      assert LinkedAt(addr, c, j + 1);
    } else {
      var i := if k <= p || k >= j + 2 then k else k - 1;
      assert LinkedAt(addr, c, i);
      if i != j && i != p + 1 && i != p && i != j + 2 {
        AtOther(addr, c, i, p);
        AtOther(addr, c, i, j + 2);
        SplicedElsewhere(addr, c, p, j, c[i]);
      }
    }
  }

  lemma AtOther(addr: Links, c: seq<Addr>, i: int, k: int)
    requires IsList(addr, c) && 0 <= i < |c| && i != k
    ensures c[i] != At(c, k)
  {
    assert LinkedAt(addr, c, i);
  }

  /** The position at which the walk back stops: everything behind it is larger than the target. */
  ghost predicate Insertion(data: Keys, c: seq<Addr>, p: int, j: int)
    requires Keyed(data, c) && -1 <= p < j < |c| - 1
  {
    && (p >= 0 ==> data[c[p]] <= data[c[j + 1]])
    && (forall k | p < k <= j :: data[c[k]] > data[c[j + 1]])
  }

  lemma MovedKeyed(data: Keys, c: seq<Addr>, p: int, j: int)
    requires Keyed(data, c) && -1 <= p < j < |c| - 1
    ensures |Moved(c, p, j)| == |c| && Keyed(data, Moved(c, p, j))
  {
    var m := Moved(c, p, j);
    forall x | x in m ensures x in data {
      var k :| 0 <= k < |m| && m[k] == x;
      MovedAt(c, p, j, k);
      assert m[k] in c;
    }
  }

  lemma InsertionSorted(data: Keys, c: seq<Addr>, p: int, j: int)
    requires Keyed(data, c) && -1 <= p < j < |c| - 1 && Insertion(data, c, p, j)
    requires SortedUpTo(data, c, j + 1)
    ensures |Moved(c, p, j)| == |c| && Keyed(data, Moved(c, p, j))
    ensures SortedUpTo(data, Moved(c, p, j), j + 2)
  {
    hide Moved;
    MovedKeyed(data, c, p, j);
    var m := Moved(c, p, j);
    forall i, k | 0 <= i < k < j + 2 ensures data[m[i]] <= data[m[k]] {
      MovedAt(c, p, j, i);
      MovedAt(c, p, j, k);
      assert p >= 0 && i < p ==> data[c[i]] <= data[c[p]];
    }
  }

  lemma MovedBlocks(c: seq<Addr>, p: int, j: int)
    requires -1 <= p < j < |c| - 1
    ensures Moved(c, p, j) == c[..p + 1] + ([c[j + 1]] + c[p + 1..j + 1]) + c[j + 2..]
    ensures c == c[..p + 1] + (c[p + 1..j + 1] + [c[j + 1]]) + c[j + 2..]
  {
  }

  /** Moving the target over strictly larger nodes keeps the order of equal nodes. */
  lemma InsertionStable(data: Keys, c: seq<Addr>, p: int, j: int, v: int)
    requires Keyed(data, c) && -1 <= p < j < |c| - 1 && Insertion(data, c, p, j)
    ensures Keyed(data, Moved(c, p, j))
    ensures WithValue(data, Moved(c, p, j), v) == WithValue(data, c, v)
  {
    hide Moved;
    MovedKeyed(data, c, p, j);
    MovedBlocks(c, p, j);
    var a, big, t, z := c[..p + 1], c[p + 1..j + 1], [c[j + 1]], c[j + 2..];
    if v == data[c[j + 1]] {
      KeyedParts(data, a, big, t, z);
      NoneWithValue(data, big, v);
    } else {
      KeyedParts(data, a, big, t, z);
      NoneWithValue(data, t, v);
    }
    SwapBlocks(data, a, big, t, z, v);
  }

  lemma KeyedParts(data: Keys, a: seq<Addr>, x: seq<Addr>, y: seq<Addr>, z: seq<Addr>)
    requires Keyed(data, a + (x + y) + z)
    ensures Keyed(data, a) && Keyed(data, x) && Keyed(data, y) && Keyed(data, z)
  {
    assert forall n | n in a || n in x || n in y || n in z :: n in a + (x + y) + z;
  }

  /** Exchanging two neighbouring blocks, one of which has no node of value v. */
  lemma SwapBlocks(data: Keys, a: seq<Addr>, x: seq<Addr>, y: seq<Addr>, z: seq<Addr>, v: int)
    requires Keyed(data, a + (x + y) + z) && Keyed(data, a + (y + x) + z)
    requires Keyed(data, x) && Keyed(data, y) && (WithValue(data, x, v) == [] || WithValue(data, y, v) == [])
    ensures WithValue(data, a + (x + y) + z, v) == WithValue(data, a + (y + x) + z, v)
  {
    ThreeBlocks(data, a, x, y, z, v);
    ThreeBlocks(data, a, y, x, z, v);
    var xv, yv := WithValue(data, x, v), WithValue(data, y, v);
    assert xv + yv == yv + xv;
  }

  lemma ThreeBlocks(data: Keys, a: seq<Addr>, x: seq<Addr>, y: seq<Addr>, z: seq<Addr>, v: int)
    requires Keyed(data, a + (x + y) + z)
    ensures Keyed(data, a) && Keyed(data, x) && Keyed(data, y) && Keyed(data, z)
    ensures WithValue(data, a + (x + y) + z, v) ==
            WithValue(data, a, v) + (WithValue(data, x, v) + WithValue(data, y, v)) + WithValue(data, z, v)
  {
    WithValueConcat(data, a + (x + y), z, v);
    WithValueConcat(data, a, x + y, v);
    WithValueConcat(data, x, y, v);
  }
}
