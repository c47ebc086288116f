/** xs_new, xs_free, xs_copy, xs_concat and xs_trim in place, each proved to be the plain string operation. */
module CowOperations {
  import opened Arithmetic
  import opened CowStrings
  import opened CowBytes

  const WORD32 := 0x1_0000_0000

  // ---------------------------------------------------------------- trimming

  function Trimmed(t: Text, m: set<Byte>): Text {
    if t == [] then []
    else if t[0] in m then Trimmed(t[1..], m)
    else if t[|t| - 1] in m then Trimmed(t[..|t| - 1], m)
    else t
  }

  /** Where the two scans of xs_trim stop. */
  predicate ScansTo(t: Text, m: set<Byte>, i: nat, j: nat) {
    && i <= |t| && j <= |t|
    && (forall h | 0 <= h < i :: t[h] in m) && (i < |t| ==> t[i] !in m)
    && (forall h | j <= h < |t| :: t[h] in m) && (j > 0 ==> t[j - 1] !in m)
  }

  /** slen -= i does not wrap exactly when the string is empty or has a byte outside the set. */
  lemma ScansMeet(t: Text, m: set<Byte>, i: nat, j: nat)
    requires ScansTo(t, m, i, j)
    ensures i <= j <==> (t == [] || exists h :: 0 <= h < |t| && t[h] !in m)
  {
    if i <= j && t != [] { if i < |t| { assert t[i] !in m; } }
  }

  /** On a string of two blanks, trimmed of blanks, the scans pass each other. */
  lemma ScansPass(i: nat, j: nat)
    requires ScansTo([32, 32], {32}, i, j)
    ensures i == 2 && j == 0
  {
    var t: Text := [32, 32];
    assert t[0] == 32 && t[1] == 32;
  }

  lemma {:induction false} ScansTrim(t: Text, m: set<Byte>, i: nat, j: nat)
    requires ScansTo(t, m, i, j) && i <= j
    ensures t[i..j] == Trimmed(t, m)
    decreases |t|
  {
    if t == [] {
      assert t[i..j] == [];
    } else if t[0] in m {
      ScansTail(t, m, i, j);
      ScansTrim(t[1..], m, i - 1, j - 1);
      assert t[1..][i - 1..j - 1] == t[i..j];
    } else if t[|t| - 1] in m {
      ScansFront(t, m, i, j);
      ScansTrim(t[..|t| - 1], m, i, j);
      assert t[..|t| - 1][i..j] == t[i..j];
    } else {
      ScansNothing(t, m, i, j);
      assert t[0..|t|] == t;
    }
  }

  lemma ScansTail(t: Text, m: set<Byte>, i: nat, j: nat)
    requires ScansTo(t, m, i, j) && i <= j && t != [] && t[0] in m
    ensures i > 0 && j > 0 && ScansTo(t[1..], m, i - 1, j - 1)
  {
    assert t[1..][i - 1..] == t[i..];
    forall h | 0 <= h < i - 1 ensures t[1..][h] in m { assert t[1..][h] == t[h + 1]; }
  }

  lemma ScansFront(t: Text, m: set<Byte>, i: nat, j: nat)
    requires ScansTo(t, m, i, j) && i <= j && t != [] && t[|t| - 1] in m
    ensures j < |t| && ScansTo(t[..|t| - 1], m, i, j)
  {
  }

  lemma ScansNothing(t: Text, m: set<Byte>, i: nat, j: nat)
    requires ScansTo(t, m, i, j) && t != [] && t[0] !in m && t[|t| - 1] !in m
    ensures i == 0 && j == |t|
  {
  }

  /** Trimming removes bytes of the set at the two ends and stops at bytes outside it. */
  lemma {:induction false} TrimmedMeaning(t: Text, m: set<Byte>) returns (a: Text, b: Text)
    ensures t == a + Trimmed(t, m) + b
    ensures (forall x | x in a :: x in m) && forall x | x in b :: x in m
    ensures var r := Trimmed(t, m); r == [] || (r[0] !in m && r[|r| - 1] !in m)
    decreases |t|
  {
    if t == [] {
      a, b := [], [];
    } else if t[0] in m {
      a, b := TrimmedMeaning(t[1..], m);
      assert t == [t[0]] + t[1..] == ([t[0]] + a) + Trimmed(t, m) + b;
      a := [t[0]] + a;
    } else if t[|t| - 1] in m {
      a, b := TrimmedMeaning(t[..|t| - 1], m);
      assert t == t[..|t| - 1] + [t[|t| - 1]] == a + Trimmed(t, m) + (b + [t[|t| - 1]]);
      b := b + [t[|t| - 1]];
    } else {
      a, b := [], [];
      assert t == a + t + b;
    }
  }

  function Members(t: Text): set<Byte> {
    set x | x in t
  }

  method Scan(t: Text, trimset: Text) returns (i: nat, j: nat)
    ensures ScansTo(t, Members(trimset), i, j)
  {
    ghost var m := Members(trimset);
    var mask := new bool[256](_ => false);
    i := 0;
    while i < |trimset|
      invariant i <= |trimset|
      invariant forall x: Byte :: mask[x] == (x in trimset[..i])
    {
      mask[trimset[i]] := true;
      i := i + 1;
    }
    assert trimset[..i] == trimset;
    i, j := 0, |t|;
    while i < |t| && mask[t[i]]
      invariant i <= |t| && forall h | 0 <= h < i :: t[h] in m
    {
      i := i + 1;
    }
    while j > 0 && mask[t[j - 1]]
      invariant j <= |t| && forall h | j <= h < |t| :: t[h] in m
    {
      j := j - 1;
    }
  }

  // ---------------------------------------------------------------- the operations

  /** An inline string whose bytes are d up to its length n. */
  function InlineOf(d: seq<Byte>, n: nat): Xs
    requires |d| == 16 && n <= 15
  {
    Inline(d[15 := 15 - n])
  }

  /** What it takes for a handle to read as t. */
  ghost predicate ReadsAs(x: Xs, bufs: map<Ptr, Buffer>, t: Text) {
    Shape(x, bufs) && Terminated(x, bufs) && Content(x, bufs) == t
  }

  /** Bytes d of length n end right: byte 15 of an inline string ends it if it has no flag bits. */
  predicate EndsRight(inline: bool, n: nat, last: Byte) {
    if inline && n == 15 then last < 16 else last == 0
  }

  lemma InlineReads(d: seq<Byte>, n: nat, bufs: map<Ptr, Buffer>)
    requires |d| == 16 && n <= 15
    ensures var x := InlineOf(d, n);
      Shape(x, bufs) && Content(x, bufs) == d[..n] && (Terminated(x, bufs) <==> n == 15 || d[n] == 0)
  {
  }

  lemma HeapReads(p: Ptr, n: nat, log: nat, bufs: map<Ptr, Buffer>)
    requires p in bufs && 5 <= log <= 32 && |bufs[p].data| == Pow2(log) > n
    ensures var x := Heap(p, n, log);
      Shape(x, bufs) && Content(x, bufs) == bufs[p].data[..n] && (Terminated(x, bufs) <==> bufs[p].data[n] == 0)
  {
  }

  /** A handle whose buffer others refer to as well. */
  predicate Shared(s: State, v: Var)
    requires v in s.handles && Shape(s.handles[v], s.bufs)
  {
    s.handles[v].Heap? && s.bufs[s.handles[v].ptr].refs > 1
  }

  /** A heap string keeps its capacity, and its buffer unless others refer to it: then it moves to p. */
  predicate Stays(was: Xs, now: Xs, shared: bool, p: Ptr)
    requires was.Heap?
  {
    now.Heap? && now.log == was.log && now.ptr == if shared then p else was.ptr
  }

  // ---------------------------------------------------------------- pointers

  /** What xs_data returns: an address in the handle itself or in a buffer. */
  datatype Loc = InHandle(v: Var) | InBuffer(p: Ptr)

  function DataLoc(s: State, v: Var): Loc
    requires v in s.handles
  {
    if s.handles[v].Heap? then InBuffer(s.handles[v].ptr) else InHandle(v)
  }

  predicate LocThere(s: State, a: Loc) {
    match a
    case InHandle(v) => v in s.handles && s.handles[v].Inline?
    case InBuffer(p) => p in s.bufs
  }

  function ReadLoc(s: State, a: Loc): seq<Byte>
    requires LocThere(s, a)
  {
    match a
    case InHandle(v) => s.handles[v].data
    case InBuffer(p) => s.bufs[p].data
  }

  /** xs_cow: a shared buffer stays where it is, with what it holds, and v moves to a new one at p. */
  ghost predicate CowStep(s: State, t: State, v: Var, p: Ptr)
    requires v in s.handles && Shape(s.handles[v], s.bufs)
  {
    if Shared(s, v) then
      && p !in s.bufs && p in t.bufs && t.bufs[p].refs == 1
      && t.handles == s.handles[v := Heap(p, 0, s.handles[v].log)]
      && forall q | q in s.bufs :: q in t.bufs && t.bufs[q].data == s.bufs[q].data
    else t == s
  }

  /** A pointer taken before xs_cow still reads what it read, unless it points at the bytes about to change. */
  lemma PointerKept(s: State, t: State, v: Var, p: Ptr, w: Var)
    requires Counted(s) && v in s.handles && w in s.handles && Shape(s.handles[v], s.bufs) && CowStep(s, t, v, p)
    requires v in t.handles
    ensures Shape(s.handles[w], s.bufs) && LocThere(t, DataLoc(s, w))
    ensures ReadLoc(t, DataLoc(s, w)) == Bytes(s.handles[w], s.bufs)
    ensures DataLoc(s, w) == DataLoc(t, v) <==> w == v && !Shared(s, v)
  {
    hide Pow2, Holders;
    assert Shape(s.handles[w], s.bufs);
    if !Shared(s, v) && w != v && s.handles[v].Heap? {
      assert s.bufs[s.handles[v].ptr].refs == 1;
      OnlyHolder(s, v, w);
    }
  }

  // ---------------------------------------------------------------- when xs_concat works

  /**
   * The caller's condition: only a target that is its own suffix, is alone on its bytes and has room
   * for the result can go wrong; the copied tail must then happen to be the target, and end right.
   */
  predicate ConcatWorks(s: State, target: Var, prefix: Var, suffix: Var, forward: bool)
    requires Valid(s) && target in s.handles && prefix in s.handles && suffix in s.handles
  {
    var pre, mid := Texts(s)[prefix], Texts(s)[target];
    var n := |pre| + |mid| + |mid|;
    target == suffix && !Shared(s, target) && n <= Capacity(s.handles[target]) ==>
      TailCopied(pre, mid) == mid && EndsRight(s.handles[target].Inline?, n, LastCopied(pre, mid, forward))
  }

  predicate NoZero(t: Text) {
    forall i | 0 <= i < |t| :: t[i] != 0
  }

  /**
   * For strings without zero bytes, and apart from inline results of 15 characters, the condition is
   * that the suffix is another handle, or the buffer is shared or too small, or that there is nothing
   * in front of the copied tail: both strings empty, or an empty prefix and a copy that does not run forward.
   */
  lemma ConcatWorksPlain(s: State, target: Var, prefix: Var, suffix: Var, forward: bool)
    requires Valid(s) && target in s.handles && prefix in s.handles && suffix in s.handles
    requires NoZero(Texts(s)[prefix]) && NoZero(Texts(s)[target])
    requires !(s.handles[target].Inline? && |Texts(s)[prefix]| + 2 * |Texts(s)[target]| == 15)
    ensures var pre, mid := Texts(s)[prefix], Texts(s)[target];
      ConcatWorks(s, target, prefix, suffix, forward) <==>
        || suffix != target || Shared(s, target) || |pre| + 2 * |mid| > Capacity(s.handles[target])
        || (pre == [] && (mid == [] || !forward))
  {
    var pre, mid := Texts(s)[prefix], Texts(s)[target];
    if pre != [] {
      var c := (pre + mid)[|mid|];
      assert c == if |mid| < |pre| then pre[|mid|] else mid[|mid| - |pre|];
    }
  }

  /** "ab" in handle 0 and "x" in handle 1, both inline. */
  function TwoInline(): State {
    State(map[0 := InlineOf(AB, 2), 1 := InlineOf(X, 1)], map[])
  }

  const AB: seq<Byte> := [97, 98, 0, 0, 0, 0, 0, 0, 0, 0, 0, 0, 0, 0, 0, 15]
  const X: seq<Byte> := [120, 0, 0, 0, 0, 0, 0, 0, 0, 0, 0, 0, 0, 0, 0, 15]

  /** There, concatenating handle 1, handle 0 and handle 0 into handle 0 goes wrong. */
  lemma SelfSuffixFails(forward: bool)
    ensures Valid(TwoInline()) && Texts(TwoInline()) == map[0 := [97, 98], 1 := [120]]
    ensures !ConcatWorks(TwoInline(), 0, 1, 0, forward)
  {
    hide Content, Terminated, Shape, Holders, ConcatWorks;
    var s := TwoInline();
    var a: seq<Byte>, b: seq<Byte> := AB, X;
    InlineReads(a, 2, s.bufs);
    InlineReads(b, 1, s.bufs);
    assert a[..2] == [97, 98] && b[..1] == [120];
    assert Valid(s) && Texts(s)[0] == [97, 98] && Texts(s)[1] == [120];
    TwoInlineAlone();
    ConcatWorksPlain(s, 0, 1, 0, forward);
  }

  lemma TwoInlineAlone()
    ensures var s := TwoInline();
      s.handles[0].Inline? && Shape(s.handles[0], s.bufs) && !Shared(s, 0) && Capacity(s.handles[0]) == 15
    ensures NoZero([97, 98]) && NoZero([120])
  {
  }

  // ---------------------------------------------------------------- the heap of strings

  class Strings {
    var handles: map<Var, Xs>
    var bufs: map<Ptr, Buffer>

    function Abs(): State
      reads this
    {
      State(handles, bufs)
    }

    /** malloc's new block has address p and arbitrary contents. A buffer that x still held leaks. */
    method NewString(x: Var, s: Text, p: Ptr, junk: nat -> Byte)
      requires Valid(Abs()) && p !in bufs && |s| + 1 < WORD32
      modifies this
      ensures Valid(Abs()) && Texts(Abs()) == Texts(old(Abs()))[x := s]
      ensures OthersKeep(old(Abs()), Abs(), x) && x in handles && (handles[x].Heap? <==> |s| > 15)
      ensures handles[x].Heap? ==> handles[x].ptr == p && Capacity(handles[x]) < 2 * (|s| + 1)
      ensures Exact(Abs()) <==> Exact(old(Abs())) && Held(old(Abs()), x).Inline?
    {
      hide Valid, Counted, Texts, OthersKeep, Terminated, Content, Pow2, Ilog2, Exact;
      ghost var s0 := Abs();
      ValidCounted(s0);
      var len := |s| + 1;
      if len > 16 {
        var log := Ilog2(len) + 1;
        RoomFor(len);
        Snug(len);
        var data := Blit(seq(Pow2(log), i requires 0 <= i < Pow2(log) => junk(i)), 0, s + [0]);
        handles := handles[x := Heap(p, len - 1, log)];
        bufs := bufs[p := Buffer(1, data)];
        GetsFresh(s0, x, p, len - 1, log, data);
        HeapReads(p, len - 1, log, bufs);
        assert data[..|s|] == s;
      } else {
        var data := Blit(EMPTY, 0, s + [0]);
        handles := handles[x := InlineOf(data, len - 1)];
        assert data[|s|] == 0 && data[..|s|] == s;
        InlineReads(data, |s|, bufs);
        BecomesInline(s0, x, InlineOf(data, len - 1));
      }
      OneChanged(s0, Abs(), x);
    }

    /** refcount_decrement, and free at zero */
    method DropRef(x: Xs)
      requires x.Heap? ==> x.ptr in bufs && bufs[x.ptr].refs > 0
      modifies this`bufs
      ensures bufs == Dropped(old(bufs), x)
    {
      if x.Heap? {
        var b := bufs[x.ptr];
        bufs := bufs[x.ptr := Buffer(b.refs - 1, b.data)];
        if bufs[x.ptr].refs == 0 {
          bufs := bufs - {x.ptr};
          assert bufs == old(bufs) - {x.ptr};
        }
      }
    }

    method Release(x: Var)
      requires Counted(Abs()) && x in handles
      modifies this
      ensures Droppable(old(Abs()), x)
      ensures Abs() == State(old(handles)[x := Inline(EMPTY)], Dropped(old(bufs), Held(old(Abs()), x)))
      ensures Counted(Abs()) && OthersKeep(old(Abs()), Abs(), x) && (Exact(Abs()) <==> Exact(old(Abs())))
    {
      hide Counted, OthersKeep, Exact, Dropped;
      CountedDroppable(Abs(), x);
      Released(Abs(), x);
      DropRef(handles[x]);
      handles := handles[x := Inline(EMPTY)];
    }

    method FreeString(x: Var)
      requires Valid(Abs()) && x in handles
      modifies this
      ensures Valid(Abs()) && Texts(Abs()) == Texts(old(Abs()))[x := []]
      ensures handles == old(handles)[x := Inline(EMPTY)]
      ensures Droppable(old(Abs()), x) && bufs == Dropped(old(bufs), Held(old(Abs()), x))
      ensures Exact(Abs()) <==> Exact(old(Abs()))
    {
      hide Valid, Counted, Texts, OthersKeep, Terminated, Content, Exact, Dropped, Droppable;
      ghost var s0 := Abs();
      ValidCounted(s0);
      Release(x);
      InlineReads(EMPTY, 0, bufs);
      assert InlineOf(EMPTY, 0) == Inline(EMPTY);
      OneChanged(s0, Abs(), x);
    }

    /** A buffer that dest still held leaks. */
    method CopyString(src: Var, dest: Var)
      requires Valid(Abs()) && src in handles
      modifies this
      ensures Valid(Abs()) && Texts(Abs()) == Texts(old(Abs()))[dest := Texts(old(Abs()))[src]]
      ensures handles == old(handles)[dest := old(handles)[src]]
      ensures Exact(Abs()) <==> Exact(old(Abs())) && Held(old(Abs()), dest).Inline?
    {
      hide Valid, Counted, OthersKeep, Terminated, Content, Pow2, Exact;
      ghost var s0 := Abs();
      ValidCounted(s0);
      ValidAt(s0, src);
      handles := handles[dest := handles[src]];
      if handles[dest].Heap? {
        Shares(s0, src, dest);
        var p := handles[dest].ptr;
        bufs := bufs[p := Buffer(bufs[p].refs + 1, bufs[p].data)];
        SameBytes(s0.handles[src], s0.bufs, bufs);
      } else {
        BecomesInline(s0, dest, handles[dest]);
      }
      OneChanged(s0, Abs(), dest);
    }

    /** xs_grow on an empty temporary: the handle and the bytes it points at. */
    method GrowEmpty(len: nat, p: Ptr, junk: nat -> Byte) returns (tmps: Xs, data: seq<Byte>)
      requires len < WORD32
      ensures |data| == Capacity(tmps) + 1 && len <= Capacity(tmps) && !tmps.Broken?
      ensures tmps.Inline? ==> len <= 15 && tmps.data == data
      ensures tmps.Heap? ==> len > 15 && 5 <= Ilog2(len) + 1 <= 32 && tmps == Heap(p, 0, Ilog2(len) + 1)
    {
      if len <= Capacity(Inline(EMPTY)) {
        return Inline(EMPTY), EMPTY;
      }
      hide Pow2, Ilog2;
      RoomFor(len);
      var log := Ilog2(len) + 1;
      RoomInSmallest(log);
      data := Blit(seq(Pow2(log), i requires 0 <= i < Pow2(log) => junk(i)), 0, EMPTY);
      tmps := Heap(p, 0, log);
    }

    /** *x = tmps, after xs_free(x), for a temporary on the heap with the given bytes and size. */
    method MoveTo(x: Var, p: Ptr, size: nat, log: nat, data: seq<Byte>)
      requires Counted(Abs()) && x in handles && p !in bufs && 5 <= log <= 32 && |data| == Pow2(log) > size
      modifies this
      ensures Counted(Abs()) && OthersKeep(old(Abs()), Abs(), x) && (Exact(Abs()) <==> Exact(old(Abs())))
      ensures Droppable(old(Abs()), x) && handles == old(handles)[x := Heap(p, size, log)]
      ensures bufs == Dropped(old(bufs), Held(old(Abs()), x))[p := Buffer(1, data)]
    {
      hide Counted, OthersKeep, Exact, Pow2;
      ghost var s0 := Abs();
      Release(x);
      ghost var s1 := Abs();
      assert p !in bufs;
      GetsFresh(s1, x, p, size, log, data);
      handles := handles[x := Heap(p, size, log)];
      bufs := bufs[p := Buffer(1, data)];
      OthersKeepTwice(s0, s1, Abs(), x);
      assert handles == s0.handles[x := Heap(p, size, log)];
    }

    /** xs_cow: afterwards nobody else sees x's bytes. The size of a copy is left for the caller. */
    method Cow(x: Var, p: Ptr, junk: nat -> Byte)
      requires Counted(Abs()) && x in handles && Shape(handles[x], bufs) && p !in bufs
      modifies this
      ensures Counted(Abs()) && OthersKeep(old(Abs()), Abs(), x) && (Exact(Abs()) <==> Exact(old(Abs())))
      ensures x in handles && Shape(handles[x], bufs) && !Shared(Abs(), x) && CowStep(old(Abs()), Abs(), x, p)
      ensures Capacity(handles[x]) == Capacity(old(handles)[x])
      ensures handles[x].Inline? == old(handles)[x].Inline? && handles[x].Heap? == old(handles)[x].Heap?
      ensures handles[x].Heap? ==> Stays(old(handles)[x], handles[x], Shared(old(Abs()), x), p)
      ensures PrefixKept(Bytes(old(handles)[x], old(bufs)), Bytes(handles[x], bufs), Size(old(handles)[x], old(bufs)))
    {
      hide Counted, OthersKeep, Holders, Pow2, Ilog2, Exact;
      ghost var s0 := Abs();
      RoomInBytes(handles[x], bufs);
      CountedOwner(s0, x);
      if handles[x].Heap? && 1 < bufs[handles[x].ptr].refs {
        SameCapacity(handles[x].log);
        var tmps, data := GrowEmpty(Capacity(handles[x]), p, junk);
        data := Blit(data, 0, Bytes(handles[x], bufs)[..Size(handles[x], bufs) + 1]);
        MoveTo(x, p, 0, tmps.log, data);
      } else {
        OthersKeepSelf(s0, x);
      }
    }

    /** The bytes and the size of a handle that owns them; flag bits in byte 15 break an inline handle. */
    method WriteBack(x: Var, d: seq<Byte>, n: nat)
      requires Counted(Abs()) && x in handles && Shape(handles[x], bufs) && !Shared(Abs(), x)
      requires |d| == Capacity(handles[x]) + 1 && n <= Capacity(handles[x])
      requires handles[x].Inline? && n < 15 ==> d[15] < 16
      modifies this
      ensures x in handles && OthersKeep(old(Abs()), Abs(), x)
      ensures var ok := EndsRight(old(handles)[x].Inline?, n, d[n]);
        && (ok ==> Counted(Abs()) && ReadsAs(handles[x], bufs, d[..n]) && (Exact(Abs()) <==> Exact(old(Abs()))))
        && (ok ==> (handles[x].Heap? <==> old(handles)[x].Heap?))
        && (old(handles)[x].Heap? ==> Stays(old(handles)[x], handles[x], false, 0))
        && (!ok ==> !Shape(handles[x], bufs) || !Terminated(handles[x], bufs))
    {
      hide Counted, OthersKeep, Holders, Pow2, Terminated, Content, Exact;
      ghost var s0 := Abs();
      CountedOwner(s0, x);
      match handles[x] {
        case Heap(ptr, _, log) =>
          bufs := bufs[ptr := Buffer(bufs[ptr].refs, d)];
          handles := handles[x := Heap(ptr, n, log)];
          Rewritten(s0, x, n, d);
          HeapReads(ptr, n, log, bufs);
        case Inline(_) =>
          if d[15] >= 16 {
            handles := handles[x := Broken];
            OthersKeepBroken(s0, x);
          } else {
            handles := handles[x := InlineOf(d, n)];
            InlineReads(d, n, bufs);
            InlineRewritten(s0, x, InlineOf(d, n));
          }
      }
    }

    /** What the two halves of xs_concat are given. */
    ghost predicate Readable(v: Var)
      reads this
    {
      v in handles && Shape(handles[v], bufs) && Size(handles[v], bufs) < |Bytes(handles[v], bufs)|
      && Bytes(handles[v], bufs)[Size(handles[v], bufs)] == 0
    }

    ghost function Plain(v: Var): Text
      requires Readable(v)
      reads this
    {
      Bytes(handles[v], bufs)[..Size(handles[v], bufs)]
    }

    /**
     * The in-place branch. The pointers to prefix and suffix are taken first, then the target is made
     * alone on its bytes; a pointer to those bytes reads them as they are when its copy is made.
     */
    method ConcatInPlace(target: Var, prefix: Var, suffix: Var, p: Ptr, junk: nat -> Byte, forward: bool)
      requires Counted(Abs()) && Readable(target) && Readable(prefix) && Readable(suffix) && p !in bufs
      requires |Plain(prefix)| + |Plain(target)| + |Plain(suffix)| <= Capacity(handles[target])
      modifies this
      ensures target in handles && OthersKeep(old(Abs()), Abs(), target)
      ensures var pre, mid, suf := old(Plain(prefix)), old(Plain(target)), old(Plain(suffix));
        var alone := target == suffix && !Shared(old(Abs()), target);
        var ok := alone ==>
          && TailCopied(pre, mid) == mid
          && EndsRight(old(handles)[target].Inline?, |pre| + |mid| + |suf|, LastCopied(pre, mid, forward));
        && (ok ==> Counted(Abs()) && ReadsAs(handles[target], bufs, pre + mid + suf))
        && (ok ==> (Exact(Abs()) <==> Exact(old(Abs()))) && (handles[target].Heap? <==> old(handles)[target].Heap?))
        && (old(handles)[target].Heap? ==> Stays(old(handles)[target], handles[target], Shared(old(Abs()), target), p))
        && (!ok ==> !ReadsAs(handles[target], bufs, pre + mid + suf))
    {
      hide Counted, OthersKeep, Terminated, Content, Bytes, Size, Shape, Capacity, Blit, Memcpy, PrefixKept, Exact,
        CowStep;
      ghost var s0 := Abs();
      var pres, sufs, size := Size(handles[prefix], bufs), Size(handles[suffix], bufs), Size(handles[target], bufs);
      var pre, suf := DataLoc(Abs(), prefix), DataLoc(Abs(), suffix);
      Cow(target, p, junk);
      ghost var s1 := Abs();
      PointerKept(s0, s1, target, p, prefix);
      PointerKept(s0, s1, target, p, suffix);
      var data := DataLoc(Abs(), target);
      OwnBytes(s1, target);
      var d := ReadLoc(Abs(), data);
      var n := size + pres + sufs;
      KeptFront(Bytes(s0.handles[target], s0.bufs), d, size);
      ghost var was, preBytes, sufBytes := d, ReadLoc(Abs(), pre), ReadLoc(Abs(), suf);
      assert was[..size] == old(Plain(target)) && was[size] == 0;
      assert preBytes[..pres] == old(Plain(prefix)) && sufBytes[..sufs] == old(Plain(suffix)) && sufBytes[sufs] == 0;
      InPlaceOutcome(was, size, preBytes, pres, pre == data, sufBytes, sufs, suf == data, forward);
      if n < 15 && handles[target].Inline? {
        InPlaceBeyond(was, size, preBytes, pres, pre == data, sufBytes, sufs, suf == data, forward, 15);
      }
      d := Blit(d, pres, d[..size]);
      d := Memcpy(d, 0, ReadLoc(Abs(), pre), pres, pre == data, forward);
      d := Memcpy(d, pres + size, ReadLoc(Abs(), suf), sufs + 1, suf == data, forward);
      assert d == InPlace(was, size, preBytes, pres, pre == data, sufBytes, sufs, suf == data, forward);
      WriteBack(target, d, n);
      OthersKeepTwice(s0, s1, Abs(), target);
    }

    method ConcatFresh(target: Var, prefix: Var, suffix: Var, p: Ptr, junk: nat -> Byte)
      requires Counted(Abs()) && Readable(target) && Readable(prefix) && Readable(suffix) && p !in bufs
      requires 15 < |Plain(prefix)| + |Plain(target)| + |Plain(suffix)| < WORD32
      modifies this
      ensures Counted(Abs()) && OthersKeep(old(Abs()), Abs(), target) && (Exact(Abs()) <==> Exact(old(Abs())))
      ensures target in handles && handles[target].Heap? && handles[target].ptr == p
      ensures Capacity(handles[target]) <
        2 * (|old(Plain(prefix))| + |old(Plain(target))| + |old(Plain(suffix))|)
      ensures ReadsAs(handles[target], bufs, old(Plain(prefix)) + old(Plain(target)) + old(Plain(suffix)))
    {
      hide Counted, OthersKeep, Terminated, Content, Bytes, Size, Shape, Blit, Pow2, Ilog2, Dropped, Held,
        Droppable, Exact;
      ghost var s0 := Abs();
      var pres, sufs, size := Size(handles[prefix], bufs), Size(handles[suffix], bufs), Size(handles[target], bufs);
      var total := size + pres + sufs;
      var tmps, d := GrowEmpty(total, p, junk);
      Snug(total);
      var data, pre, suf := Bytes(handles[target], bufs), Bytes(handles[prefix], bufs), Bytes(handles[suffix], bufs);
      BlitThree(d, pre[..pres], data[..size], suf[..sufs]);
      SuffixWithEnd(suf, sufs);
      d := Blit(d, pres, data[..size]);
      d := Blit(d, 0, pre[..pres]);
      d := Blit(d, pres + size, suf[..sufs + 1]);
      MoveTo(target, p, total, tmps.log, d);
      HeapReads(p, total, tmps.log, bufs);
    }

    /**
     * target becomes prefix + target + suffix, in every case but one that the caller can tell. forward
     * says in which order memcpy copies bytes that overlap.
     */
    method Concat(target: Var, prefix: Var, suffix: Var, p: Ptr, junk: nat -> Byte, forward: bool)
      requires Valid(Abs()) && target in handles && prefix in handles && suffix in handles && p !in bufs
      requires |Texts(Abs())[prefix]| + |Texts(Abs())[target]| + |Texts(Abs())[suffix]| < WORD32
      modifies this
      ensures target in handles && OthersKeep(old(Abs()), Abs(), target)
      ensures var was := Texts(old(Abs()));
        var all := was[prefix] + was[target] + was[suffix];
        var works := ConcatWorks(old(Abs()), target, prefix, suffix, forward);
        && (works <==> ReadsAs(handles[target], bufs, all))
        && (works ==> Valid(Abs()) && Texts(Abs()) == was[target := all] && (Exact(Abs()) <==> Exact(old(Abs()))))
        && (works ==> (handles[target].Heap? <==> old(handles)[target].Heap? || |all| > 15))
        && (|all| <= Capacity(old(handles)[target]) && old(handles)[target].Heap? ==>
              Stays(old(handles)[target], handles[target], Shared(old(Abs()), target), p))
        && (|all| > Capacity(old(handles)[target]) ==>
              handles[target].Heap? && handles[target].ptr == p && Capacity(handles[target]) < 2 * |all|)
    {
      hide Valid, Counted, Texts, OthersKeep, Terminated, Content, Bytes, Size, Shape, Exact, EndsRight;
      ghost var s0 := Abs();
      ValidCounted(s0);
      Reads(s0, target);
      Reads(s0, prefix);
      Reads(s0, suffix);
      var pres, sufs, size := Size(handles[prefix], bufs), Size(handles[suffix], bufs), Size(handles[target], bufs);
      if size + pres + sufs <= Capacity(handles[target]) {
        ConcatInPlace(target, prefix, suffix, p, junk, forward);
      } else {
        ConcatFresh(target, prefix, suffix, p, junk);
      }
      if ConcatWorks(s0, target, prefix, suffix, forward) { OneChanged(s0, Abs(), target); }
    }

    /** x loses the bytes of trimset at its two ends. */
    method Trim(x: Var, trimset: Text, p: Ptr, junk: nat -> Byte)
      requires Valid(Abs()) && x in handles && p !in bufs
      requires trimset == [] || Texts(Abs())[x] == [] ||
        exists h :: 0 <= h < |Texts(Abs())[x]| && Texts(Abs())[x][h] !in Members(trimset)
      modifies this
      ensures Valid(Abs()) && (Exact(Abs()) <==> Exact(old(Abs())))
      ensures OthersKeep(old(Abs()), Abs(), x) && x in handles && (handles[x].Heap? <==> old(handles)[x].Heap?)
      ensures handles[x].Heap? ==>
        Stays(old(handles)[x], handles[x], trimset != [] && Shared(old(Abs()), x), p)
      ensures Texts(Abs()) == Texts(old(Abs()))[x := Trimmed(Texts(old(Abs()))[x], Members(trimset))]
    {
      hide Valid, Counted, Texts, OthersKeep, Terminated, Content, Bytes, Size, Shape, Capacity, Trimmed, Members,
        ScansTo, Exact, CowStep, EndsRight;
      ghost var s0 := Abs();
      ValidCounted(s0);
      Reads(s0, x);
      if trimset == [] {
        TrimNothing(s0, x);
        OthersKeepSelf(s0, x);
        return;
      }
      var data, size := Bytes(handles[x], bufs), Size(handles[x], bufs);
      var i, j := Scan(data[..size], trimset);
      ScansMeet(data[..size], Members(trimset), i, j);
      ScansTrim(data[..size], Members(trimset), i, j);
      ScansInside(data[..size], Members(trimset), i, j);
      var slen := j - i;
      Cow(x, p, junk);
      ghost var s1 := Abs();
      RoomInBytes(handles[x], bufs);
      var d := Blit(Bytes(handles[x], bufs), 0, data[i..j]);
      if d[slen] != 0 {
        d := d[slen := 0];
      }
      assert d[..slen] == data[i..j] == data[..size][i..j];
      TrimEnds(s1, x, d, slen);
      OwnBytes(s1, x);
      WriteBack(x, d, slen);
      OthersKeepTwice(s0, s1, Abs(), x);
      OneChanged(s0, Abs(), x);
    }
  }

  // ---------------------------------------------------------------- steps of the operations

  predicate PrefixKept(was: seq<Byte>, now: seq<Byte>, size: nat) {
    size < |was| && size < |now| && now[..size + 1] == was[..size + 1]
  }

  lemma KeptFront(was: seq<Byte>, now: seq<Byte>, size: nat)
    requires PrefixKept(was, now, size)
    ensures size < |was| && size < |now| && now[..size] == was[..size] && now[size] == was[size]
  {
    assert now[..size + 1][..size] == now[..size] && was[..size + 1][..size] == was[..size];
    assert now[..size + 1][size] == now[size] && was[..size + 1][size] == was[size];
  }

  lemma SuffixWithEnd(suf: seq<Byte>, n: nat)
    requires n < |suf| && suf[n] == 0
    ensures suf[..n + 1] == suf[..n] + [0]
  {
  }

  lemma RoomInSmallest(log: nat)
    requires log >= 5
    ensures Pow2(log) >= 32
  {
    assert Pow2(5) == 32;
    Pow2Mono(5, log);
  }

  lemma CountedOwner(s: State, v: Var)
    requires Counted(s) && v in s.handles && Shape(s.handles[v], s.bufs)
    ensures s.handles[v].Heap? ==> s.bufs[s.handles[v].ptr].refs > 0
  {
  }

  lemma OthersKeepSelf(s: State, v: Var)
    requires Counted(s) && v in s.handles
    ensures OthersKeep(s, s, v)
  {
  }

  lemma InlineRewritten(s: State, v: Var, x: Xs)
    requires Counted(s) && v in s.handles && s.handles[v].Inline? && x.Inline? && Shape(x, s.bufs)
    ensures var t := State(s.handles[v := x], s.bufs); Counted(t) && OthersKeep(s, t, v) && (Exact(t) <==> Exact(s))
  {
    BecomesInline(s, v, x);
  }

  lemma OthersKeepBroken(s: State, v: Var)
    requires Counted(s) && v in s.handles
    ensures OthersKeep(s, State(s.handles[v := Broken], s.bufs), v)
  {
  }

  lemma OwnBytes(s: State, v: Var)
    requires v in s.handles && Shape(s.handles[v], s.bufs)
    ensures LocThere(s, DataLoc(s, v)) && ReadLoc(s, DataLoc(s, v)) == Bytes(s.handles[v], s.bufs)
    ensures |Bytes(s.handles[v], s.bufs)| == Capacity(s.handles[v]) + 1
    ensures s.handles[v].Inline? ==> |Bytes(s.handles[v], s.bufs)| == 16 && Bytes(s.handles[v], s.bufs)[15] < 16
  {
    RoomInBytes(s.handles[v], s.bufs);
  }

  /** What a valid handle offers the copying functions. */
  lemma Reads(s: State, v: Var)
    requires Valid(s) && Counted(s) && v in s.handles
    ensures Shape(s.handles[v], s.bufs)
    ensures var bytes, size := Bytes(s.handles[v], s.bufs), Size(s.handles[v], s.bufs);
      && 16 <= |bytes| == Capacity(s.handles[v]) + 1 && size < |bytes|
      && bytes[size] == 0
      && v in Texts(s) && Texts(s)[v] == bytes[..size]
  {
    assert Shape(s.handles[v], s.bufs) && Terminated(s.handles[v], s.bufs);
    RoomInBytes(s.handles[v], s.bufs);
  }

  lemma TrimEnds(s: State, v: Var, d: seq<Byte>, n: nat)
    requires v in s.handles && |d| > n && d[n] == 0
    ensures EndsRight(s.handles[v].Inline?, n, d[n])
  {
  }

  lemma ScansInside(t: Text, m: set<Byte>, i: nat, j: nat)
    requires ScansTo(t, m, i, j)
    ensures i <= |t| && j <= |t|
  {
  }

  lemma {:induction false} TrimmedByNothing(t: Text)
    ensures Trimmed(t, {}) == t
  {
  }

  lemma TrimNothing(s: State, x: Var)
    requires Counted(s) && x in Texts(s)
    ensures Texts(s) == Texts(s)[x := Trimmed(Texts(s)[x], Members([]))]
  {
    hide Texts;
    assert Members([]) == {};
    TrimmedByNothing(Texts(s)[x]);
  }

  lemma ValidCounted(s: State)
    requires Valid(s)
    ensures Counted(s)
  {
  }

  lemma ValidAt(s: State, v: Var)
    requires Valid(s) && v in s.handles
    ensures Shape(s.handles[v], s.bufs) && Terminated(s.handles[v], s.bufs)
  {
  }
}
