/**
 * The XOR linked list: a node stores the exclusive-or of its neighbours' addresses, so the
 * same list can be walked from either end. The order of the nodes is kept as a ghost
 * sequence; everything the methods do to links is proved against it.
 */
module XorList {

  /** A pointer, as the 64 bits of a uintptr_t. */
  datatype Addr = Addr(bits: bv64)

  const NULL := Addr(0)

  type Links = map<Addr, Addr>

  function Xor(a: Addr, b: Addr): Addr { Addr(a.bits ^ b.bits) }

  /** The node at position i, NULL outside the list. */
  function At(ns: seq<Addr>, i: int): Addr {
    if 0 <= i < |ns| then ns[i] else NULL
  }

  ghost predicate Distinct(ns: seq<Addr>) {
    forall i, j | 0 <= i < j < |ns| :: ns[i] != ns[j]
  }

  /** Position i's link is the exclusive-or of its neighbours. */
  ghost predicate LinkedAt(addr: Links, ns: seq<Addr>, i: int)
    requires 0 <= i < |ns|
  {
    ns[i] != NULL && ns[i] in addr && addr[ns[i]] == Xor(At(ns, i - 1), At(ns, i + 1))
  }

  /** The nodes ns, in this order, form a well-formed XOR list. */
  ghost predicate IsList(addr: Links, ns: seq<Addr>) {
    Distinct(ns) && forall i | 0 <= i < |ns| :: LinkedAt(addr, ns, i)
  }

  ghost predicate SameOutside(a: Links, b: Links, ns: seq<Addr>) {
    a.Keys == b.Keys && forall x | x in a && x !in ns :: a[x] == b[x]
  }

  // ---------------------------------------------------------------- exclusive-or

  lemma XorLaws(a: Addr, b: Addr)
    ensures Xor(a, b) == Xor(b, a)
    ensures Xor(a, NULL) == a && Xor(NULL, a) == a
    ensures Xor(Xor(a, b), b) == a && Xor(Xor(a, b), a) == b
    ensures Xor(a, Xor(a, b)) == b
  {
    hide Xor;
    XorCancel(a, b);
    XorCancel(b, a);
    XorComm(a, b);
    XorComm(a, Xor(a, b));
    XorZero(a);
  }

  lemma XorComm(a: Addr, b: Addr)
    ensures Xor(a, b) == Xor(b, a)
  {
  }

  lemma XorZero(a: Addr)
    ensures Xor(a, NULL) == a && Xor(NULL, a) == a
  {
  }

  lemma XorCancel(a: Addr, b: Addr)
    ensures Xor(Xor(a, b), b) == a
  {
  }

  /** Taking one neighbour out of a link and putting another in. */
  lemma XorReplace(keep: Addr, out: Addr, into: Addr)
    ensures Xor(Xor(Xor(keep, out), out), into) == Xor(keep, into)
    ensures Xor(Xor(Xor(out, keep), out), into) == Xor(into, keep)
  {
    hide Xor;
    XorLaws(keep, out);
    XorLaws(keep, into);
  }

  // ---------------------------------------------------------------- lists

  function Reverse(ns: seq<Addr>): (r: seq<Addr>)
    ensures |r| == |ns|
    ensures forall i | 0 <= i < |ns| :: r[i] == ns[|ns| - 1 - i]
  {
    if ns == [] then [] else Reverse(ns[1..]) + [ns[0]]
  }

  /** Read from the other end, a list is the reversed list. */
  lemma ListReversed(addr: Links, ns: seq<Addr>)
    requires IsList(addr, ns)
    ensures IsList(addr, Reverse(ns))
  {
    hide Xor;
    var r, n := Reverse(ns), |ns|;
    forall i | 0 <= i < |r| ensures LinkedAt(addr, r, i) {
      assert LinkedAt(addr, ns, n - 1 - i);
      assert At(r, i - 1) == At(ns, n - i) && At(r, i + 1) == At(ns, n - 2 - i);
      XorLaws(At(ns, n - 2 - i), At(ns, n - i));
    }
  }

  lemma ListFrame(a: Links, b: Links, ns: seq<Addr>)
    requires IsList(a, ns) && forall x | x in ns && x in a :: x in b && b[x] == a[x]
    ensures IsList(b, ns)
  {
    hide Xor;
    forall i | 0 <= i < |ns| ensures LinkedAt(b, ns, i) {
      assert LinkedAt(a, ns, i);
      assert ns[i] in ns;
    }
  }

  /** From node i, knowing where we came from, the link leads to the other neighbour. */
  lemma StepForward(addr: Links, ns: seq<Addr>, i: int)
    requires IsList(addr, ns) && 0 <= i < |ns|
    ensures ns[i] != NULL && ns[i] in addr
    ensures Xor(addr[ns[i]], At(ns, i - 1)) == At(ns, i + 1)
    ensures Xor(addr[ns[i]], At(ns, i + 1)) == At(ns, i - 1)
    ensures i == 0 ==> addr[ns[i]] == At(ns, 1)
    ensures |ns| > 1 && i == 0 ==> addr[ns[i]] != NULL
  {
    assert LinkedAt(addr, ns, i);
    XorLaws(At(ns, i - 1), At(ns, i + 1));
    if i == 0 && |ns| > 1 { assert LinkedAt(addr, ns, 1); }
  }

  /** Unlinking the first node: only the second node's link changes. */
  ghost function Detached(addr: Links, ns: seq<Addr>): Links
    requires |ns| > 0 && IsList(addr, ns)
  {
    if |ns| == 1 then addr
    else assert LinkedAt(addr, ns, 1); addr[ns[1] := Xor(ns[0], addr[ns[1]])]
  }

  lemma DetachHead(addr: Links, ns: seq<Addr>)
    requires |ns| > 0 && IsList(addr, ns)
    ensures IsList(Detached(addr, ns), ns[1..])
  {
    hide Xor;
    var b, rest := Detached(addr, ns), ns[1..];
    forall i | 0 <= i < |rest| ensures LinkedAt(b, rest, i) {
      assert LinkedAt(addr, ns, i + 1);
      assert At(rest, i + 1) == At(ns, i + 2);
      assert rest[i] == ns[i + 1];
      if i == 0 {
        XorLaws(ns[0], At(ns, 2));
        XorZero(At(ns, 2));
        assert b[ns[1]] == At(ns, 2);
      } else {
        assert At(rest, i - 1) == At(ns, i);
        assert b[rest[i]] == addr[ns[i + 1]];
      }
    }
  }

  /** Appending node x behind the last node of a list. */
  ghost function Appended(addr: Links, ms: seq<Addr>, x: Addr): Links
    requires IsList(addr, ms)
  {
    if ms == [] then addr[x := NULL]
    else
      var last := ms[|ms| - 1];
      assert LinkedAt(addr, ms, |ms| - 1);
      addr[last := Xor(addr[last], x)][x := last]
  }

  lemma AppendNode(addr: Links, ms: seq<Addr>, x: Addr)
    requires IsList(addr, ms) && x !in ms && x != NULL
    ensures IsList(Appended(addr, ms, x), ms + [x])
  {
    hide Xor;
    var b, all, n := Appended(addr, ms, x), ms + [x], |ms|;
    forall i | 0 <= i < |all| ensures LinkedAt(b, all, i) {
      if i == n {
        assert At(all, n - 1) == At(ms, n - 1);
        XorLaws(At(ms, n - 1), NULL);
      } else {
        assert LinkedAt(addr, ms, i);
        assert At(all, i - 1) == At(ms, i - 1);
        assert ms[i] in ms;
        if i == n - 1 {
          XorLaws(At(ms, n - 2), NULL);
        } else {
          assert At(all, i + 1) == At(ms, i + 1);
        }
      }
    }
  }
}
