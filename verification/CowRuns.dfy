/** Whole sequences of string operations: the handles behave as independent plain strings. */
module CowRuns {
  import opened CowStrings
  import opened CowOperations

  /** A call with the address and the contents of the block that malloc would give it. */
  datatype Call =
    | New(x: Var, s: Text, p: Ptr, junk: nat -> Byte)
    | Free(x: Var)
    | Copy(src: Var, dest: Var)
    | Join(target: Var, prefix: Var, suffix: Var, p: Ptr, junk: nat -> Byte, forward: bool)
    | Strip(x: Var, trimset: Text, p: Ptr, junk: nat -> Byte)

  /** The variable that a call writes. */
  function Target(c: Call): Var {
    match c
    case New(x, _, _, _) => x
    case Free(x) => x
    case Copy(_, dest) => dest
    case Join(target, _, _, _, _, _) => target
    case Strip(x, _, _, _) => x
  }

  // ---------------------------------------------------------------- plain strings

  /** The value that a call gives its variable, on plain strings. */
  function Value(t: map<Var, Text>, c: Call): Text {
    match c
    case New(_, s, _, _) => s
    case Free(_) => []
    case Copy(src, _) => if src in t then t[src] else []
    case Join(target, prefix, suffix, _, _, _) =>
      if target in t && prefix in t && suffix in t then t[prefix] + t[target] + t[suffix] else []
    case Strip(x, trimset, _, _) => if x in t then Trimmed(t[x], Members(trimset)) else []
  }

  function Applied(t: map<Var, Text>, calls: seq<Call>): map<Var, Text> {
    if calls == [] then t
    else
      var front, c := calls[..|calls| - 1], calls[|calls| - 1];
      Applied(t, front)[Target(c) := Value(Applied(t, front), c)]
  }

  /** A variable that no call writes keeps its value, whatever buffers were shared along the way. */
  lemma {:induction false} OthersUnchanged(t: map<Var, Text>, calls: seq<Call>, w: Var)
    requires w in t && forall k | 0 <= k < |calls| :: Target(calls[k]) != w
    ensures w in Applied(t, calls) && Applied(t, calls)[w] == t[w]
  {
    if calls == [] {
      assert Applied(t, calls) == t;
    } else {
      OthersUnchanged(t, calls[..|calls| - 1], w);
    }
  }

  // ---------------------------------------------------------------- the calls in place

  /** What a caller has to see to: variables in use, a fresh block, lengths below 2^32, and the two exact conditions. */
  predicate Allowed(s: State, c: Call)
    requires Valid(s)
  {
    match c
    case New(_, t, p, _) => p !in s.bufs && |t| + 1 < WORD32
    case Free(x) => x in s.handles
    case Copy(src, _) => src in s.handles
    case Join(target, prefix, suffix, p, _, forward) =>
      && target in s.handles && prefix in s.handles && suffix in s.handles && p !in s.bufs
      && |Texts(s)[prefix]| + |Texts(s)[target]| + |Texts(s)[suffix]| < WORD32
      && ConcatWorks(s, target, prefix, suffix, forward)
    case Strip(x, trimset, p, _) =>
      && x in s.handles && p !in s.bufs
      && (trimset == [] || Texts(s)[x] == [] ||
          exists h :: 0 <= h < |Texts(s)[x]| && Texts(s)[x][h] !in Members(trimset))
  }

  // ---------------------------------------------------------------- which handles hold a buffer

  function HeapVars(s: State): set<Var> {
    set v | v in s.handles && s.handles[v].Heap?
  }

  /** Creations and copies overwrite their handle without freeing it. */
  predicate Overwrites(c: Call) {
    c.New? || c.Copy?
  }

  /** Whether a call leaves its handle with a buffer, from the values and the handles that had one. */
  predicate Holds(held: set<Var>, t: map<Var, Text>, c: Call) {
    match c
    case New(_, s, _, _) => |s| > 15
    case Free(_) => false
    case Copy(src, _) => src in held
    case Join(target, _, _, _, _, _) => target in held || |Value(t, c)| > 15
    case Strip(x, _, _, _) => x in held
  }

  function HeldNext(held: set<Var>, t: map<Var, Text>, c: Call): set<Var> {
    if Holds(held, t, c) then held + {Target(c)} else held - {Target(c)}
  }

  /** The handles with a buffer after a sequence of calls, from those with one before it and their values. */
  function HeldAfter(held: set<Var>, t: map<Var, Text>, calls: seq<Call>): set<Var> {
    if calls == [] then held
    else
      var front := calls[..|calls| - 1];
      HeldNext(HeldAfter(held, t, front), Applied(t, front), calls[|calls| - 1])
  }

  /** Some creation or copy of the sequence overwrites a handle that has a buffer. */
  ghost predicate Leaks(held: set<Var>, t: map<Var, Text>, calls: seq<Call>) {
    exists k | 0 <= k < |calls| :: LeaksAt(held, t, calls, k)
  }

  ghost predicate LeaksAt(held: set<Var>, t: map<Var, Text>, calls: seq<Call>, k: nat)
    requires k < |calls|
  {
    Overwrites(calls[k]) && Target(calls[k]) in HeldAfter(held, t, calls[..k])
  }

  /** The variables that may hold a buffer: those in use, until they are freed. */
  function UsedAfter(used: set<Var>, calls: seq<Call>): set<Var> {
    if calls == [] then used
    else
      var front, c := calls[..|calls| - 1], calls[|calls| - 1];
      if c.Free? then UsedAfter(used, front) - {c.x} else UsedAfter(used, front) + {Target(c)}
  }

  /** Every creation and every copy goes to a variable that is not in use. */
  ghost predicate Tidy(used: set<Var>, calls: seq<Call>) {
    forall k | 0 <= k < |calls| :: Overwrites(calls[k]) ==> Target(calls[k]) !in UsedAfter(used, calls[..k])
  }

  lemma {:induction false} HeldIsUsed(held: set<Var>, t: map<Var, Text>, used: set<Var>, calls: seq<Call>)
    requires held <= used
    ensures HeldAfter(held, t, calls) <= UsedAfter(used, calls)
  {
    if calls == [] {
      assert HeldAfter(held, t, calls) == held;
    } else {
      HeldIsUsed(held, t, used, calls[..|calls| - 1]);
    }
  }

  /** A tidy sequence leaks nothing, whatever the strings are. */
  lemma TidyLeaksNothing(held: set<Var>, t: map<Var, Text>, used: set<Var>, calls: seq<Call>)
    requires held <= used && Tidy(used, calls)
    ensures !Leaks(held, t, calls)
  {
    hide HeldAfter, UsedAfter;
    forall k | 0 <= k < |calls| ensures !LeaksAt(held, t, calls, k) {
      HeldIsUsed(held, t, used, calls[..k]);
    }
  }

  lemma LeaksNext(held: set<Var>, t: map<Var, Text>, calls: seq<Call>, n: nat)
    requires n < |calls|
    ensures HeldAfter(held, t, calls[..n + 1]) ==
      HeldNext(HeldAfter(held, t, calls[..n]), Applied(t, calls[..n]), calls[n])
    ensures Leaks(held, t, calls[..n + 1]) <==> Leaks(held, t, calls[..n]) || LeaksAt(held, t, calls, n)
  {
    hide LeaksAt;
    assert calls[..n + 1][..n] == calls[..n];
    var before, now := calls[..n], calls[..n + 1];
    if Leaks(held, t, now) {
      var k: nat :| k < |now| && LeaksAt(held, t, now, k);
      LeaksAtPrefix(held, t, calls, n + 1, k);
      if k < n { LeaksAtPrefix(held, t, calls, n, k); }
    }
    if Leaks(held, t, before) {
      var k: nat :| k < |before| && LeaksAt(held, t, before, k);
      LeaksAtPrefix(held, t, calls, n, k);
      LeaksAtPrefix(held, t, calls, n + 1, k);
    }
    if LeaksAt(held, t, calls, n) { LeaksAtPrefix(held, t, calls, n + 1, n); }
  }

  lemma LeaksAtPrefix(held: set<Var>, t: map<Var, Text>, calls: seq<Call>, n: nat, k: nat)
    requires k < n <= |calls|
    ensures LeaksAt(held, t, calls[..n], k) == LeaksAt(held, t, calls, k)
  {
    assert calls[..n][..k] == calls[..k];
  }

  // ---------------------------------------------------------------- performing calls

  method Perform(h: Strings, c: Call)
    requires Valid(h.Abs()) && Allowed(h.Abs(), c)
    modifies h
    ensures Valid(h.Abs())
    ensures var was := Texts(old(h.Abs())); Texts(h.Abs()) == was[Target(c) := Value(was, c)]
    ensures HeapVars(h.Abs()) == HeldNext(HeapVars(old(h.Abs())), Texts(old(h.Abs())), c)
    ensures Exact(h.Abs()) <==>
      Exact(old(h.Abs())) && !(Overwrites(c) && Target(c) in HeapVars(old(h.Abs())))
  {
    hide Valid, Exact, ConcatWorks, Trimmed, Members, ReadsAs, Dropped, Droppable, Shape, Bytes;
    ghost var s := h.Abs();
    TextsOfHandles(s);
    HeldInline(s, Target(c));
    match c
    case New(x, t, p, junk) => h.NewString(x, t, p, junk);
    case Free(x) => h.FreeString(x);
    case Copy(src, dest) => h.CopyString(src, dest);
    case Join(target, prefix, suffix, p, junk, forward) => h.Concat(target, prefix, suffix, p, junk, forward);
    case Strip(x, trimset, p, junk) => h.Trim(x, trimset, p, junk);
  }

  lemma HeldInline(s: State, v: Var)
    requires Valid(s)
    ensures Held(s, v).Inline? <==> v !in HeapVars(s)
  {
    if v in s.handles { assert Shape(s.handles[v], s.bufs); }
  }

  lemma TextsOfHandles(s: State)
    requires Valid(s)
    ensures Counted(s) && Texts(s).Keys == s.handles.Keys
  {
  }

  /**
   * Performs calls as long as they are allowed. After every such sequence each handle reads as the plain
   * string operations would leave it, and the reference counts are exact if and only if they were before and
   * no creation or copy overwrote a handle that had a buffer.
   */
  method PerformAll(h: Strings, calls: seq<Call>) returns (done: nat)
    requires Valid(h.Abs())
    modifies h
    ensures Valid(h.Abs()) && done <= |calls|
    ensures done < |calls| ==> !Allowed(h.Abs(), calls[done])
    ensures Texts(h.Abs()) == Applied(Texts(old(h.Abs())), calls[..done])
    ensures HeapVars(h.Abs()) == HeldAfter(HeapVars(old(h.Abs())), Texts(old(h.Abs())), calls[..done])
    ensures Exact(h.Abs()) <==>
      Exact(old(h.Abs())) && !Leaks(HeapVars(old(h.Abs())), Texts(old(h.Abs())), calls[..done])
  {
    hide Counted, Terminated, Exact, Allowed, Texts, Value, Target, HeapVars, HeldNext, Leaks, HeldAfter, Applied;
    ghost var was, held := Texts(h.Abs()), HeapVars(h.Abs());
    done := 0;
    NothingDone(held, was, calls[..0]);
    while done < |calls| && Allowed(h.Abs(), calls[done])
      invariant done <= |calls| && Valid(h.Abs()) && Texts(h.Abs()) == Applied(was, calls[..done])
      invariant HeapVars(h.Abs()) == HeldAfter(held, was, calls[..done])
      invariant Exact(h.Abs()) <==> Exact(old(h.Abs())) && !Leaks(held, was, calls[..done])
    {
      AppliedNext(was, calls, done);
      LeaksNext(held, was, calls, done);
      Perform(h, calls[done]);
      done := done + 1;
    }
  }

  lemma NothingDone(held: set<Var>, t: map<Var, Text>, none: seq<Call>)
    requires none == []
    ensures Applied(t, none) == t && HeldAfter(held, t, none) == held && !Leaks(held, t, none)
  {
  }

  /** The same for a tidy sequence: from exact counts to exact counts, and every buffer has a handle. */
  method PerformTidy(h: Strings, calls: seq<Call>, ghost used: set<Var>) returns (done: nat)
    requires Valid(h.Abs()) && Exact(h.Abs()) && HeapVars(h.Abs()) <= used && Tidy(used, calls)
    modifies h
    ensures Valid(h.Abs()) && Exact(h.Abs()) && done <= |calls|
    ensures done < |calls| ==> !Allowed(h.Abs(), calls[done])
    ensures Texts(h.Abs()) == Applied(Texts(old(h.Abs())), calls[..done])
    ensures forall p :: p in h.bufs <==> exists v :: v in h.handles && PointsTo(h.handles[v], p)
  {
    hide Counted, Terminated, Exact, Allowed, Texts, HeapVars, Leaks, Tidy, Applied;
    ghost var was, held := Texts(h.Abs()), HeapVars(h.Abs());
    done := PerformAll(h, calls);
    TidyPrefix(used, calls, done);
    TidyLeaksNothing(held, was, used, calls[..done]);
    ghost var s := h.Abs();
    forall p ensures p in h.bufs <==> exists v :: v in h.handles && PointsTo(h.handles[v], p) { HeldBuffers(s, p); }
  }

  lemma TidyPrefix(used: set<Var>, calls: seq<Call>, n: nat)
    requires Tidy(used, calls) && n <= |calls|
    ensures Tidy(used, calls[..n])
  {
    hide UsedAfter;
    forall k | 0 <= k < n
      && Overwrites(calls[..n][k]) ensures Target(calls[..n][k]) !in UsedAfter(used, calls[..n][..k]) {
      assert calls[..n][..k] == calls[..k] && calls[..n][k] == calls[k];
    }
  }

  lemma AppliedNext(t: map<Var, Text>, calls: seq<Call>, n: nat)
    requires n < |calls|
    ensures var now := Applied(t, calls[..n]);
      Applied(t, calls[..n + 1]) == now[Target(calls[n]) := Value(now, calls[n])]
  {
    assert calls[..n + 1][..n] == calls[..n];
  }
}
