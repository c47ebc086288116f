/**
 * The implicit binary tree of the buddy allocator: nodes are heap indices, a node's
 * level is its bucket, and a node stands for one aligned power-of-two block.
 */
module BuddyTree {
  import opened Arithmetic

  const MAX_ALLOC_LOG2 := 31
  /** The last bucket, BUCKET_COUNT - 1: the blocks of MIN_ALLOC = 2^(31 - 27) bytes. */
  const LAST_BUCKET := 27

  // ---------------------------------------------------------------- node arithmetic

  function Parent(i: nat): nat {
    if i == 0 then 0 else (i - 1) / 2
  }

  function Left(i: nat): nat { 2 * i + 1 }

  function Right(i: nat): nat { 2 * i + 2 }

  /** n ^ 1 */
  function FlipLowBit(n: nat): nat {
    if n % 2 == 0 then n + 1 else n - 1
  }

  /** ((i - 1) ^ 1) + 1 */
  function Sibling(i: nat): nat
    requires i > 0
  {
    FlipLowBit(i - 1) + 1
  }

  function Level(i: nat): nat {
    if i == 0 then 0 else 1 + Level(Parent(i))
  }

  /** The leftmost node of a level: the root of the tree when the bucket limit is b. */
  function Root(b: nat): nat {
    if b == 0 then 0 else Left(Root(b - 1))
  }

  /** The size of the blocks of bucket b. */
  function Size(b: nat): (r: nat)
    requires b <= MAX_ALLOC_LOG2
    ensures r > 0
  {
    Pow2(MAX_ALLOC_LOG2 - b)
  }

  /** k << s, where size is 2^s: by repeated addition, so that no proof meets a product. */
  function Scale(k: nat, size: nat): nat {
    if k == 0 then 0 else size + Scale(k - 1, size)
  }

  /** n >> s, where size is 2^s */
  function Quotient(n: nat, size: nat): nat
    requires size > 0
  {
    if n < size then 0 else 1 + Quotient(n - size, size)
  }

  function PtrForNode(index: nat, bucket: nat): nat
    requires bucket <= MAX_ALLOC_LOG2 && Pow2(bucket) <= index + 1
  {
    Scale(index + 1 - Pow2(bucket), Size(bucket))
  }

  function NodeForPtr(ptr: nat, bucket: nat): nat
    requires bucket <= MAX_ALLOC_LOG2
  {
    Quotient(ptr, Size(bucket)) + Pow2(bucket) - 1
  }

  // ---------------------------------------------------------------- containment

  /** Node i lies in the subtree of a (a itself included). */
  predicate Within(a: nat, i: nat) {
    a == i || (i > 0 && Within(a, Parent(i)))
  }

  predicate Overlap(a: nat, b: nat) {
    Within(a, b) || Within(b, a)
  }

  lemma {:induction false} WithinTrans(a: nat, b: nat, c: nat)
    requires Within(a, b) && Within(b, c)
    ensures Within(a, c)
  {
    if b != c { WithinTrans(a, b, Parent(c)); }
  }

  lemma {:induction false} WithinLevel(a: nat, i: nat)
    requires Within(a, i)
    ensures a <= i
    ensures Level(a) <= Level(i)
    ensures Level(a) == Level(i) ==> a == i
  {
    if a != i { WithinLevel(a, Parent(i)); }
  }

  lemma {:induction false} WithinLinear(a: nat, b: nat, i: nat)
    requires Within(a, i) && Within(b, i)
    ensures Overlap(a, b)
  {
    if a != i && b != i { WithinLinear(a, b, Parent(i)); }
  }

  lemma {:induction false} ZeroContainsAll(i: nat)
    ensures Within(0, i)
  {
    if i > 0 { ZeroContainsAll(Parent(i)); }
  }

  /** A strict descendant lies below one of the two children. */
  lemma {:induction false} WithinChild(a: nat, i: nat)
    requires Within(a, i) && a != i
    ensures Within(Left(a), i) || Within(Right(a), i)
  {
    if Parent(i) == a {
      assert i == Left(a) || i == Right(a);
    } else {
      WithinChild(a, Parent(i));
    }
  }

  lemma ChildFacts(i: nat)
    ensures Parent(Left(i)) == i && Parent(Right(i)) == i
    ensures Level(Left(i)) == Level(i) + 1 && Level(Right(i)) == Level(i) + 1
    ensures Within(i, Left(i)) && Within(i, Right(i))
  {
  }

  lemma SiblingFacts(i: nat)
    requires i > 0
    ensures Sibling(i) > 0 && Sibling(i) != i && Parent(Sibling(i)) == Parent(i)
    ensures Level(Sibling(i)) == Level(i) && Sibling(Sibling(i)) == i
    ensures (i == Left(Parent(i)) && Sibling(i) == Right(Parent(i)))
         || (i == Right(Parent(i)) && Sibling(i) == Left(Parent(i)))
  {
  }

  lemma SameLevelDisjoint(a: nat, b: nat)
    requires Level(a) == Level(b) && a != b
    ensures !Overlap(a, b)
  {
    if Within(a, b) { WithinLevel(a, b); }
    if Within(b, a) { WithinLevel(b, a); }
  }

  /** What overlaps a node is what overlaps its child, or lies in the child's sibling. */
  lemma OverlapParent(n: nat, i: nat)
    requires i > 0
    ensures Overlap(n, Parent(i)) <==> Overlap(n, i) || Within(Sibling(i), n)
  {
    var p, s := Parent(i), Sibling(i);
    SiblingFacts(i);
    ChildFacts(p);
    if Within(p, n) && n != p {
      WithinChild(p, n);
    }
    if Within(s, n) { WithinTrans(p, s, n); }
    if Within(i, n) { WithinTrans(p, i, n); }
    if n == p { assert Within(n, i); }
  }

  // ---------------------------------------------------------------- roots

  lemma {:induction false} RootLevel(b: nat)
    ensures Level(Root(b)) == b && Root(b) == Pow2(b) - 1
  {
    if b > 0 { RootLevel(b - 1); }
  }

  lemma RootFacts(b: nat)
    ensures Level(Root(b)) == b
    ensures b > 0 ==> Root(b) > 0 && Parent(Root(b)) == Root(b - 1)
    ensures b > 0 ==> Root(b) == Left(Root(b - 1)) && Sibling(Root(b)) == Right(Root(b - 1)) == Root(b) + 1
  {
    RootLevel(b);
  }

  // ---------------------------------------------------------------- addresses

  lemma {:induction false} LevelRange(i: nat)
    ensures Pow2(Level(i)) <= i + 1 < 2 * Pow2(Level(i))
  {
    if i > 0 { LevelRange(Parent(i)); }
  }

  /** The byte offset at which node i's block starts. */
  function Start(i: nat): nat
    requires Level(i) <= LAST_BUCKET
  {
    LevelRange(i);
    PtrForNode(i, Level(i))
  }

  /** The byte offset just past node i's block. */
  function End(i: nat): nat
    requires Level(i) <= LAST_BUCKET
  {
    var b := Level(i);
    Start(i) + Size(b)
  }

  lemma {:induction false} ScaleIsProduct(k: nat, size: nat)
    ensures Scale(k, size) == k * size
  {
    if k > 0 {
      ScaleIsProduct(k - 1, size);
      assert k * size == (k - 1) * size + size;
    }
  }

  lemma {:induction false} QuotientIsDivision(n: nat, size: nat)
    requires size > 0
    ensures Quotient(n, size) == n / size
  {
    if n < size {
      DivUnique(n, size, 0, n);
    } else {
      QuotientIsDivision(n - size, size);
      var q, r := (n - size) / size, (n - size) % size;
      DivUnique(n, size, q + 1, r);
    }
  }

  lemma {:induction false} ScaleAdd(a: nat, b: nat, size: nat)
    ensures Scale(a + b, size) == Scale(a, size) + Scale(b, size)
  {
    if a > 0 { ScaleAdd(a - 1, b, size); }
  }

  lemma {:induction false} ScaleDouble(k: nat, size: nat)
    ensures Scale(2 * k, size) == Scale(k, 2 * size)
  {
    if k > 0 { ScaleDouble(k - 1, size); }
  }

  lemma {:induction false} QuotientScale(k: nat, size: nat)
    requires size > 0
    ensures Quotient(Scale(k, size), size) == k
  {
    if k > 0 { QuotientScale(k - 1, size); }
  }

  /** node_for_ptr undoes ptr_for_node on each bucket. */
  lemma PtrNodeInverse(i: nat)
    requires Level(i) <= LAST_BUCKET
    ensures NodeForPtr(Start(i), Level(i)) == i
  {
    LevelRange(i);
    QuotientScale(i + 1 - Pow2(Level(i)), Size(Level(i)));
  }

  /** Every block is aligned to its own power-of-two size. */
  lemma StartAligned(i: nat)
    requires Level(i) <= LAST_BUCKET
    ensures Start(i) % Size(Level(i)) == 0
  {
    LevelRange(i);
    ScaleAligned(i + 1 - Pow2(Level(i)), Size(Level(i)));
  }

  lemma ScaleAligned(k: nat, size: nat)
    requires size > 0
    ensures Scale(k, size) % size == 0
  {
    ScaleIsProduct(k, size);
    DivUnique(k * size, size, k, 0);
  }

  lemma ChildBlocks(i: nat)
    requires Level(i) < LAST_BUCKET
    ensures Level(Left(i)) == Level(i) + 1 && Level(Right(i)) == Level(i) + 1
    ensures Start(Left(i)) == Start(i)
    ensures Start(Right(i)) == Start(i) + Size(Level(i) + 1)
    ensures End(Left(i)) == Start(Right(i)) && End(Right(i)) == End(i)
    ensures Size(Level(i)) == 2 * Size(Level(i) + 1)
  {
    ChildFacts(i);
    LevelRange(i);
    ChildOffsets(i, Level(i));
  }

  lemma ChildOffsets(i: nat, b: nat)
    requires b < LAST_BUCKET && Pow2(b) <= i + 1
    ensures Pow2(b + 1) <= Left(i) + 1
    ensures PtrForNode(Left(i), b + 1) == PtrForNode(i, b)
    ensures PtrForNode(Right(i), b + 1) == PtrForNode(i, b) + Size(b + 1)
    ensures Size(b) == 2 * Size(b + 1)
  {
    var k, s := i + 1 - Pow2(b), Size(b + 1);
    assert Left(i) + 1 - Pow2(b + 1) == 2 * k;
    assert Right(i) + 1 - Pow2(b + 1) == 2 * k + 1;
    ScaleDouble(k, s);
  }

  lemma {:induction false} WithinBlocks(a: nat, i: nat)
    requires Within(a, i) && Level(i) <= LAST_BUCKET
    ensures Level(a) <= LAST_BUCKET
    ensures Start(a) <= Start(i) < End(i) <= End(a)
  {
    WithinLevel(a, i);
    if a != i {
      var p := Parent(i);
      WithinBlocks(a, p);
      SiblingFacts(i);
      ChildBlocks(p);
    }
  }

  /** Nodes that do not overlap in the tree have disjoint blocks. */
  lemma SameLevelBlocks(a: nat, i: nat)
    requires a != i && Level(a) == Level(i) <= LAST_BUCKET
    ensures End(a) <= Start(i) || End(i) <= Start(a)
  {
    hide Level;
    LevelRange(a);
    LevelRange(i);
    var b := Level(a);
    var s := Size(b);
    var k, l := a + 1 - Pow2(b), i + 1 - Pow2(b);
    if k < l {
      ScaleAdd(k + 1, l - (k + 1), s);
    } else {
      ScaleAdd(l + 1, k - (l + 1), s);
    }
  }

  lemma {:induction false} DisjointBlocks(a: nat, i: nat)
    requires !Overlap(a, i)
    requires Level(a) <= LAST_BUCKET && Level(i) <= LAST_BUCKET
    ensures End(a) <= Start(i) || End(i) <= Start(a)
    decreases a + i
  {
    hide Start, End;
    if Level(a) == Level(i) {
      SameLevelBlocks(a, i);
    } else if Level(a) < Level(i) {
      var p := Parent(i);
      if Within(p, a) { WithinLevel(p, a); }
      DisjointBlocks(a, p);
      WithinBlocks(p, i);
    } else {
      var p := Parent(a);
      if Within(p, i) { WithinLevel(p, i); }
      DisjointBlocks(p, i);
      WithinBlocks(p, a);
    }
  }

  lemma RootBlock(b: nat)
    requires b <= LAST_BUCKET
    ensures Level(Root(b)) == b && Start(Root(b)) == 0 && End(Root(b)) == Size(b)
  {
    RootLevel(b);
  }
}
