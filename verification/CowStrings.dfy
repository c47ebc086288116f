/**
 * Strings that share their heap buffer until one of them is changed. A handle is the 16-byte xs
 * union: short strings live in it, long ones in a reference-counted buffer.
 */
module CowStrings {
  import opened Arithmetic

  type Byte = x: int | 0 <= x < 256
  type Text = seq<Byte>
  type Var = nat
  type Ptr = nat

  /**
   * The union: 16 bytes of which the last is space_left, or pointer, size and log2 of the capacity.
   * In a broken handle the flag bits behind space_left have been overwritten.
   */
  datatype Xs = Inline(data: seq<Byte>) | Heap(ptr: Ptr, size: nat, log: nat) | Broken

  datatype Buffer = Buffer(refs: nat, data: seq<Byte>)

  datatype State = State(handles: map<Var, Xs>, bufs: map<Ptr, Buffer>)

  // ---------------------------------------------------------------- capacities

  function Ilog2(n: nat): nat
    requires n > 0
  {
    if n == 1 then 0 else 1 + Ilog2(n / 2)
  }

  lemma {:induction false} Ilog2Bounds(n: nat)
    requires n > 0
    ensures Pow2(Ilog2(n)) <= n < 2 * Pow2(Ilog2(n))
  {
    if n > 1 { Ilog2Bounds(n / 2); }
  }

  /** The buffer made for n characters is less than twice what they need. */
  lemma Snug(n: nat)
    requires n > 0
    ensures Pow2(Ilog2(n) + 1) <= 2 * n
  {
    hide Ilog2;
    Ilog2Bounds(n);
  }

  lemma Pow2Of32()
    ensures Pow2(32) == 0x1_0000_0000
  {
    assert Pow2(6) == 0x40;
    assert Pow2(12) == 0x1000;
    assert Pow2(18) == 0x4_0000;
    assert Pow2(24) == 0x100_0000;
    assert Pow2(30) == 0x4000_0000;
  }

  /** A buffer for n > 15 characters has room for them and their terminator, and at least 32 bytes. */
  lemma RoomFor(n: nat)
    requires 15 < n < 0x1_0000_0000
    ensures 5 <= Ilog2(n) + 1 <= 32 && n < Pow2(Ilog2(n) + 1)
  {
    hide Ilog2;
    Ilog2Bounds(n);
    assert Pow2(3) == 8;
    Pow2Of32();
    if Ilog2(n) < 4 { Pow2Mono(Ilog2(n), 3); }
    if Ilog2(n) >= 32 { Pow2Mono(32, Ilog2(n)); }
  }

  /**
   * ilog2 takes 32 bits of its argument: for a length that is not a multiple of 2^32 the buffer it sizes
   * holds n characters with a terminator, or n bytes in all, exactly when n is below 2^32.
   */
  lemma RoomExact(n: nat)
    requires n > 15 && n % 0x1_0000_0000 != 0
    ensures n < Pow2(Ilog2(n % 0x1_0000_0000) + 1) <==> n < 0x1_0000_0000
    ensures n <= Pow2(Ilog2(n % 0x1_0000_0000) + 1) <==> n < 0x1_0000_0000
  {
    hide Ilog2, Pow2;
    if n < 0x1_0000_0000 {
      RoomFor(n);
    } else {
      CutLog(n % 0x1_0000_0000);
    }
  }

  /** For 2^32 + 16 bytes it makes a buffer of 32, and the copy of xs_new runs past its end. */
  lemma RoomMissing()
    ensures var len := 0x1_0000_0010; Pow2(Ilog2(len % 0x1_0000_0000) + 1) == 32 < len
  {
    RoomExact(0x1_0000_0010);
    assert 0x1_0000_0010 % 0x1_0000_0000 == 16;
    assert Ilog2(16) == 4 && Pow2(5) == 32;
  }

  lemma CutLog(m: nat)
    requires 0 < m < 0x1_0000_0000
    ensures Pow2(Ilog2(m) + 1) <= 0x1_0000_0000
  {
    hide Ilog2;
    Ilog2Bounds(m);
    Pow2Of32();
    if Ilog2(m) >= 32 { Pow2Mono(32, Ilog2(m)); }
    Pow2Mono(Ilog2(m) + 1, 32);
  }

  /** Growing an empty string to the capacity of a heap string gives the same capacity. */
  lemma SameCapacity(log: nat)
    requires 5 <= log <= 32
    ensures 15 < Pow2(log) - 1 < 0x1_0000_0000 && Ilog2(Pow2(log) - 1) + 1 == log
  {
    hide Ilog2;
    assert Pow2(5) == 32;
    Pow2Of32();
    Pow2Mono(5, log);
    Pow2Mono(log, 32);
    var n := Pow2(log) - 1;
    Ilog2Bounds(n);
    if Ilog2(n) < log - 1 { Pow2Mono(Ilog2(n) + 1, log - 1); }
    if Ilog2(n) > log - 1 { Pow2Mono(log, Ilog2(n)); }
  }

  // ---------------------------------------------------------------- reading a handle

  predicate Shape(x: Xs, bufs: map<Ptr, Buffer>) {
    match x
    case Inline(data) => |data| == 16 && data[15] <= 15
    case Broken => false
    case Heap(ptr, size, log) => ptr in bufs && 5 <= log <= 32 && |bufs[ptr].data| == Pow2(log) && size < Pow2(log)
  }

  function Size(x: Xs, bufs: map<Ptr, Buffer>): nat
    requires Shape(x, bufs)
  {
    match x
    case Inline(data) => 15 - data[15]
    case Heap(_, size, _) => size
  }

  function Bytes(x: Xs, bufs: map<Ptr, Buffer>): seq<Byte>
    requires Shape(x, bufs)
  {
    match x
    case Inline(data) => data
    case Heap(ptr, _, _) => bufs[ptr].data
  }

  function Capacity(x: Xs): int {
    match x
    case Inline(_) => 15
    case Heap(_, _, log) => Pow2(log) - 1
    case Broken => 15
  }

  lemma RoomInBytes(x: Xs, bufs: map<Ptr, Buffer>)
    requires Shape(x, bufs)
    ensures Size(x, bufs) <= Capacity(x) && |Bytes(x, bufs)| == Capacity(x) + 1 >= 16
  {
    if x.Heap? { assert Pow2(x.log) >= 16 by { Pow2Mono(5, x.log); assert Pow2(5) == 32; } }
  }

  function Content(x: Xs, bufs: map<Ptr, Buffer>): Text
    requires Shape(x, bufs)
  {
    RoomInBytes(x, bufs);
    Bytes(x, bufs)[..Size(x, bufs)]
  }

  predicate Terminated(x: Xs, bufs: map<Ptr, Buffer>)
    requires Shape(x, bufs)
  {
    RoomInBytes(x, bufs);
    Bytes(x, bufs)[Size(x, bufs)] == 0
  }

  // ---------------------------------------------------------------- the invariant

  predicate PointsTo(x: Xs, p: Ptr) {
    x.Heap? && x.ptr == p
  }

  function Holders(handles: map<Var, Xs>, p: Ptr): set<Var> {
    set v | v in handles && PointsTo(handles[v], p)
  }

  /** Every handle is well formed, and no buffer has fewer references than handles that point at it. */
  ghost predicate Counted(s: State) {
    && (forall v | v in s.handles :: Shape(s.handles[v], s.bufs))
    && forall p | p in s.bufs :: s.bufs[p].refs > 0 && s.bufs[p].refs >= |Holders(s.handles, p)|
  }

  /** Nothing has leaked: every reference count is the number of handles that point at the buffer. */
  ghost predicate Exact(s: State) {
    forall p | p in s.bufs :: s.bufs[p].refs == |Holders(s.handles, p)|
  }

  ghost predicate Valid(s: State) {
    Counted(s) && forall v | v in s.handles :: Terminated(s.handles[v], s.bufs)
  }

  /** What each handle reads as. */
  function Texts(s: State): map<Var, Text>
    requires Counted(s)
  {
    map v | v in s.handles :: Content(s.handles[v], s.bufs)
  }

  /** A buffer is on the heap exactly as long as some handle points at it. */
  lemma HeldBuffers(s: State, p: Ptr)
    requires Counted(s) && Exact(s)
    ensures p in s.bufs <==> exists v :: v in s.handles && PointsTo(s.handles[v], p)
  {
    if p in s.bufs {
      assert Holders(s.handles, p) != {};
      var v :| v in Holders(s.handles, p);
      assert v in s.handles && PointsTo(s.handles[v], p);
    }
  }

  // ---------------------------------------------------------------- what one step does to the counts

  /** The buffers after xs_free of a handle that holds x. */
  function Dropped(bufs: map<Ptr, Buffer>, x: Xs): map<Ptr, Buffer>
    requires x.Heap? ==> x.ptr in bufs && bufs[x.ptr].refs > 0
  {
    if !x.Heap? then bufs
    else
      var b := bufs[x.ptr];
      if b.refs == 1 then bufs - {x.ptr} else bufs[x.ptr := Buffer(b.refs - 1, b.data)]
  }

  lemma HoldersUpdate(handles: map<Var, Xs>, v: Var, x: Xs, p: Ptr)
    ensures Holders(handles[v := x], p) ==
      if PointsTo(x, p) then Holders(handles, p) + {v} else Holders(handles, p) - {v}
    ensures v in Holders(handles, p) <==> v in handles && PointsTo(handles[v], p)
  {
  }

  /** The values that are not v, unchanged. */
  ghost predicate OthersKeep(s: State, t: State, v: Var) {
    && t.handles.Keys == s.handles.Keys + {v}
    && (forall w | w in s.handles && w != v :: t.handles[w] == s.handles[w])
    && forall w | w in s.handles && w != v ::
      Shape(s.handles[w], s.bufs) && Shape(t.handles[w], t.bufs)
        && Bytes(t.handles[w], t.bufs) == Bytes(s.handles[w], s.bufs)
  }

  /** What v holds; a variable that is not yet an xs counts as empty. */
  function Held(s: State, v: Var): Xs {
    if v in s.handles then s.handles[v] else Inline(EMPTY)
  }

  const EMPTY: seq<Byte> := [0, 0, 0, 0, 0, 0, 0, 0, 0, 0, 0, 0, 0, 0, 0, 15]

  /** Another handle's buffer survives the drop: the count was at least two. */
  lemma StillThere(s: State, v: Var, w: Var)
    requires Counted(s) && Droppable(s, v) && w in s.handles && v != w
    ensures Shape(s.handles[w], s.bufs) && Shape(s.handles[w], Dropped(s.bufs, Held(s, v)))
    ensures Bytes(s.handles[w], Dropped(s.bufs, Held(s, v))) == Bytes(s.handles[w], s.bufs)
  {
    assert Shape(s.handles[w], s.bufs);
    if s.handles[w].Heap? && PointsTo(Held(s, v), s.handles[w].ptr) {
      var p := s.handles[w].ptr;
      assert {v, w} <= Holders(s.handles, p);
      SubsetSize({v, w}, Holders(s.handles, p));
    }
  }

  lemma {:induction false} SubsetSize(a: set<Var>, b: set<Var>)
    requires a <= b
    ensures |a| <= |b|
  {
    if a != {} {
      var x :| x in a;
      SubsetSize(a - {x}, b - {x});
    }
  }

  predicate Droppable(s: State, v: Var) {
    var x := Held(s, v);
    x.Heap? ==> x.ptr in s.bufs && s.bufs[x.ptr].refs > 0
  }

  lemma CountedDroppable(s: State, v: Var)
    requires Counted(s)
    ensures Droppable(s, v)
  {
    if v in s.handles { assert Shape(s.handles[v], s.bufs); }
  }

  lemma HoldersSize(handles: map<Var, Xs>, v: Var, x: Xs, p: Ptr)
    ensures |Holders(handles[v := x], p)| ==
      |Holders(handles, p)|
      - (if v in handles && PointsTo(handles[v], p) then 1 else 0) + (if PointsTo(x, p) then 1 else 0)
  {
    HoldersUpdate(handles, v, x, p);
    var h := Holders(handles, p);
    if PointsTo(x, p) && v in h { assert h + {v} == h; }
    if !PointsTo(x, p) && v !in h { assert h - {v} == h; }
  }

  /** xs_free: v gives up what it held and becomes empty. */
  lemma Released(s: State, v: Var)
    requires Counted(s) && Droppable(s, v)
    ensures var t := State(s.handles[v := Inline(EMPTY)], Dropped(s.bufs, Held(s, v)));
      Counted(t) && OthersKeep(s, t, v) && (Exact(t) <==> Exact(s))
  {
    hide Holders, Pow2;
    var t := State(s.handles[v := Inline(EMPTY)], Dropped(s.bufs, Held(s, v)));
    forall p | p in t.bufs
      ensures t.bufs[p].refs > 0 && t.bufs[p].refs >= |Holders(t.handles, p)|
      ensures p in s.bufs && t.bufs[p].refs - |Holders(t.handles, p)| == s.bufs[p].refs - |Holders(s.handles, p)|
    {
      HoldersSize(s.handles, v, Inline(EMPTY), p);
    }
    if Exact(t) {
      forall p | p in s.bufs ensures s.bufs[p].refs == |Holders(s.handles, p)| {
        if p !in t.bufs { LastHolder(s, v, p); }
      }
    }
    forall w | w in s.handles && w != v
      ensures Shape(t.handles[w], t.bufs) && Bytes(t.handles[w], t.bufs) == Bytes(s.handles[w], s.bufs)
    {
      StillThere(s, v, w);
    }
  }

  lemma LastHolder(s: State, v: Var, p: Ptr)
    requires Counted(s) && v in s.handles && PointsTo(s.handles[v], p) && p in s.bufs && s.bufs[p].refs == 1
    ensures |Holders(s.handles, p)| == 1
  {
    assert v in Holders(s.handles, p);
    SubsetSize({v}, Holders(s.handles, p));
  }

  lemma NoHolders(s: State, p: Ptr)
    requires Counted(s) && p !in s.bufs
    ensures |Holders(s.handles, p)| == 0
    ensures forall w | w in s.handles :: !PointsTo(s.handles[w], p)
  {
    forall w | w in s.handles ensures !PointsTo(s.handles[w], p) { assert Shape(s.handles[w], s.bufs); }
    assert Holders(s.handles, p) == {};
  }

  /** v is overwritten by an inline string; a buffer that it still held loses a handle, not a reference. */
  lemma BecomesInline(s: State, v: Var, x: Xs)
    requires Counted(s) && x.Inline? && Shape(x, s.bufs)
    ensures var t := State(s.handles[v := x], s.bufs);
      Counted(t) && OthersKeep(s, t, v) && (Exact(t) <==> Exact(s) && Held(s, v).Inline?)
  {
    hide Holders, Pow2;
    var t := State(s.handles[v := x], s.bufs);
    forall p | p in t.bufs
      ensures |Holders(t.handles, p)| == |Holders(s.handles, p)| - (if PointsTo(Held(s, v), p) then 1 else 0)
    {
      HoldersSize(s.handles, v, x, p);
    }
    LeaksIfHeld(s, t, v);
  }

  /** Overwriting a handle keeps the counts exact exactly when it held no buffer. */
  lemma LeaksIfHeld(s: State, t: State, v: Var)
    requires Counted(s) && s.bufs.Keys <= t.bufs.Keys
    requires forall p | p in s.bufs ::
      t.bufs[p].refs - |Holders(t.handles, p)| ==
        s.bufs[p].refs - |Holders(s.handles, p)| + (if PointsTo(Held(s, v), p) then 1 else 0)
    requires forall p | p in t.bufs && p !in s.bufs :: t.bufs[p].refs == |Holders(t.handles, p)|
    ensures Exact(t) <==> Exact(s) && Held(s, v).Inline?
  {
    hide Holders;
    if v in s.handles { assert Shape(s.handles[v], s.bufs); }
    if Held(s, v).Heap? {
      var q := Held(s, v).ptr;
      assert q in s.bufs && PointsTo(Held(s, v), q);
      assert t.bufs[q].refs != |Holders(t.handles, q)|;
    } else if Exact(t) {
      forall p | p in s.bufs ensures s.bufs[p].refs == |Holders(s.handles, p)| {
        assert t.bufs[p].refs == |Holders(t.handles, p)|;
      }
    }
  }

  /** v is overwritten by a handle of a new buffer. */
  lemma GetsFresh(s: State, v: Var, p: Ptr, size: nat, log: nat, data: seq<Byte>)
    requires Counted(s) && p !in s.bufs && 5 <= log <= 32 && |data| == Pow2(log) > size
    ensures var t := State(s.handles[v := Heap(p, size, log)], s.bufs[p := Buffer(1, data)]);
      Counted(t) && OthersKeep(s, t, v) && (Exact(t) <==> Exact(s) && Held(s, v).Inline?)
  {
    hide Pow2, Holders;
    var x := Heap(p, size, log);
    var t := State(s.handles[v := x], s.bufs[p := Buffer(1, data)]);
    NoHolders(s, p);
    forall q | q in t.bufs
      ensures |Holders(t.handles, q)| ==
        if q == p then 1 else |Holders(s.handles, q)| - (if PointsTo(Held(s, v), q) then 1 else 0)
    {
      HoldersSize(s.handles, v, x, q);
    }
    forall w | w in s.handles && w != v
      ensures Shape(t.handles[w], t.bufs) && Bytes(t.handles[w], t.bufs) == Bytes(s.handles[w], s.bufs)
    {
      assert Shape(s.handles[w], s.bufs);
    }
    LeaksIfHeld(s, t, v);
  }

  /** v is overwritten by one more handle of u's buffer. */
  lemma Shares(s: State, u: Var, v: Var)
    requires Counted(s) && u in s.handles && s.handles[u].Heap?
    ensures s.handles[u].ptr in s.bufs
    ensures var x := s.handles[u];
      var b := s.bufs[x.ptr];
      var t := State(s.handles[v := x], s.bufs[x.ptr := Buffer(b.refs + 1, b.data)]);
      Counted(t) && OthersKeep(s, t, v) && (Exact(t) <==> Exact(s) && Held(s, v).Inline?)
  {
    hide Pow2, Holders;
    var x := s.handles[u];
    assert Shape(x, s.bufs);
    var b := s.bufs[x.ptr];
    var t := State(s.handles[v := x], s.bufs[x.ptr := Buffer(b.refs + 1, b.data)]);
    forall q | q in t.bufs
      ensures |Holders(t.handles, q)| ==
        |Holders(s.handles, q)| - (if PointsTo(Held(s, v), q) then 1 else 0) + (if q == x.ptr then 1 else 0)
    {
      HoldersSize(s.handles, v, x, q);
    }
    SharedBytes(s, x.ptr, t.bufs);
    LeaksIfHeld(s, t, v);
  }

  lemma SharedBytes(s: State, p: Ptr, bufs: map<Ptr, Buffer>)
    requires Counted(s) && p in s.bufs && bufs == s.bufs[p := Buffer(s.bufs[p].refs + 1, s.bufs[p].data)]
    ensures forall w | w in s.handles ::
      Shape(s.handles[w], s.bufs) && Shape(s.handles[w], bufs)
        && Bytes(s.handles[w], bufs) == Bytes(s.handles[w], s.bufs)
  {
    hide Pow2, Holders;
  }

  /** A buffer with one reference is rewritten in place; no other handle sees it. */
  lemma Rewritten(s: State, v: Var, size: nat, data: seq<Byte>)
    requires Counted(s) && v in s.handles && s.handles[v].Heap? && s.handles[v].ptr in s.bufs
    requires var x := s.handles[v]; s.bufs[x.ptr].refs == 1 && |data| == Pow2(x.log) > size
    ensures var x := s.handles[v];
      var t := State(s.handles[v := Heap(x.ptr, size, x.log)], s.bufs[x.ptr := Buffer(1, data)]);
      Counted(t) && OthersKeep(s, t, v) && (Exact(t) <==> Exact(s))
  {
    hide Pow2, Holders;
    var x := s.handles[v];
    var y := Heap(x.ptr, size, x.log);
    var t := State(s.handles[v := y], s.bufs[x.ptr := Buffer(1, data)]);
    assert Shape(x, s.bufs);
    forall p | p in t.bufs ensures |Holders(t.handles, p)| == |Holders(s.handles, p)| {
      HoldersSize(s.handles, v, y, p);
    }
    forall w | w in s.handles && w != v
      ensures Shape(s.handles[w], s.bufs) && Shape(s.handles[w], t.bufs)
      ensures Bytes(s.handles[w], t.bufs) == Bytes(s.handles[w], s.bufs)
    {
      assert Shape(s.handles[w], s.bufs);
      OnlyHolder(s, v, w);
    }
  }

  lemma OnlyHolder(s: State, v: Var, w: Var)
    requires Counted(s) && v in s.handles && w in s.handles && v != w
    requires s.handles[v].Heap? && s.handles[v].ptr in s.bufs && s.bufs[s.handles[v].ptr].refs == 1
    ensures !PointsTo(s.handles[w], s.handles[v].ptr)
  {
    var p := s.handles[v].ptr;
    if PointsTo(s.handles[w], p) { SubsetSize({v, w}, Holders(s.handles, p)); }
  }

  lemma OthersKeepTwice(s: State, t: State, u: State, v: Var)
    requires OthersKeep(s, t, v) && OthersKeep(t, u, v)
    ensures OthersKeep(s, u, v)
  {
  }

  lemma SameBytes(x: Xs, bufs: map<Ptr, Buffer>, bufs': map<Ptr, Buffer>)
    requires Shape(x, bufs) && Shape(x, bufs') && Bytes(x, bufs) == Bytes(x, bufs')
    ensures Content(x, bufs) == Content(x, bufs') && Terminated(x, bufs) == Terminated(x, bufs')
  {
    hide Pow2;
  }

  /** One handle has a new value, the others read as before. */
  lemma OneChanged(s: State, t: State, v: Var)
    requires Valid(s) && Counted(t) && OthersKeep(s, t, v)
    requires v in t.handles && Shape(t.handles[v], t.bufs) && Terminated(t.handles[v], t.bufs)
    ensures Valid(t) && Texts(t) == Texts(s)[v := Content(t.handles[v], t.bufs)]
  {
    hide Content, Terminated;
    forall w | w in t.handles && w != v
      ensures Terminated(t.handles[w], t.bufs) && Content(t.handles[w], t.bufs) == Content(s.handles[w], s.bufs)
    {
      assert Terminated(s.handles[w], s.bufs);
      SameBytes(s.handles[w], s.bufs, t.bufs);
    }
    var expected := Texts(s)[v := Content(t.handles[v], t.bufs)];
    assert Texts(t).Keys == expected.Keys;
    assert Texts(t) == expected;
  }

  /** One handle of one buffer with 16 characters. */
  function OneHeap(): State {
    State(map[0 := Heap(1, 16, 5)], map[1 := Buffer(1, seq(32, i => if i < 16 then 97 else 0))])
  }

  /** Overwriting that handle leaves a buffer whose count is one too many. */
  lemma OverwriteLeaks()
    ensures var s := OneHeap();
      Valid(s) && Exact(s) && !Exact(State(s.handles[0 := Inline(EMPTY)], s.bufs))
  {
    var s := OneHeap();
    assert Pow2(5) == 32;
    assert Holders(s.handles, 1) == {0};
    assert Shape(s.handles[0], s.bufs) && Terminated(s.handles[0], s.bufs);
    BecomesInline(s, 0, Inline(EMPTY));
  }
}
