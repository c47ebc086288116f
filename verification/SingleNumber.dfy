/**
 * The bit-sliced counter behind generalSingleNumber: 32 counters modulo k run side by side,
 * one in each bit lane of the words x[0], x[1], ...
 */
module SingleNumber {
  import opened Arithmetic

  type Word = bv32

  /** A lane is named by the word that has just that bit set. */
  predicate IsLane(m: Word) {
    m != 0 && m & (m - 1) == 0
  }

  predicate Bit(x: Word, m: Word) {
    x & m != 0
  }

  // ---------------------------------------------------------------- words and lanes

  function Xor(x: Word, y: Word): Word { x ^ y }

  function And(x: Word, y: Word): Word { x & y }

  function Not(x: Word): Word { !x }

  lemma XorWord(x: Word, y: Word, m: Word)
    requires IsLane(m)
    ensures Bit(x ^ y, m) == (Bit(x, m) != Bit(y, m))
  {
  }

  lemma LaneXor(x: Word, y: Word, m: Word)
    requires IsLane(m)
    ensures Bit(Xor(x, y), m) == (Bit(x, m) != Bit(y, m))
  {
    hide Bit, IsLane;
    XorWord(x, y, m);
  }

  lemma AndWord(x: Word, y: Word, m: Word)
    requires IsLane(m)
    ensures Bit(x & y, m) == (Bit(x, m) && Bit(y, m))
  {
  }

  lemma LaneAnd(x: Word, y: Word, m: Word)
    requires IsLane(m)
    ensures Bit(And(x, y), m) == (Bit(x, m) && Bit(y, m))
  {
    hide Bit, IsLane;
    AndWord(x, y, m);
  }

  lemma LaneNot(x: Word, m: Word)
    requires IsLane(m)
    ensures Bit(Not(x), m) == !Bit(x, m)
  {
  }

  lemma LaneConstants(m: Word)
    requires IsLane(m)
    ensures !Bit(0, m) && Bit(0xFFFFFFFF, m)
  {
  }

  lemma LowestLane(d: Word)
    requires d != 0
    ensures IsLane(d & (0 - d)) && Bit(d, d & (0 - d))
  {
  }

  /** Two words that agree in every lane are equal. */
  lemma LanesDecide(x: Word, y: Word)
    requires forall m | IsLane(m) :: Bit(x, m) == Bit(y, m)
    ensures x == y
  {
    hide Bit, IsLane;
    var d := x ^ y;
    if d != 0 {
      LowestLane(d);
      LaneXor(x, y, d & (0 - d));
    } else {
      XorZero(x, y);
    }
  }

  lemma XorZero(x: Word, y: Word)
    requires x ^ y == 0
    ensures x == y
  {
  }

  // ---------------------------------------------------------------- counters

  /** The value of a counter, least significant bit first. */
  function Value(bits: seq<bool>): nat {
    if bits == [] then 0 else (if bits[0] then 1 else 0) + 2 * Value(bits[1..])
  }

  /** A counter that takes a carry in, with no carry out. */
  function Increment(bits: seq<bool>, carry: bool): (r: seq<bool>)
    ensures |r| == |bits|
  {
    if bits == [] then [] else [bits[0] != carry] + Increment(bits[1..], carry && bits[0])
  }

  lemma {:induction false} IncrementValue(bits: seq<bool>, carry: bool)
    requires Value(bits) + (if carry then 1 else 0) < Pow2(|bits|)
    ensures Value(Increment(bits, carry)) == Value(bits) + (if carry then 1 else 0)
  {
    if bits != [] { IncrementValue(bits[1..], carry && bits[0]); }
  }

  /** Bit i flips when the carry comes in and all lower bits are set. */
  lemma {:induction false} IncrementAt(bits: seq<bool>, carry: bool, i: nat)
    requires i < |bits|
    ensures Increment(bits, carry)[i] == (bits[i] != (carry && AllSet(bits[..i])))
  {
    if i == 0 {
      assert AllSet(bits[..0]);
    } else {
      IncrementAt(bits[1..], carry && bits[0], i - 1);
      AllSetFirst(bits, i);
    }
  }

  predicate AllSet(bits: seq<bool>) {
    forall j | 0 <= j < |bits| :: bits[j]
  }

  lemma AllSetFirst(bits: seq<bool>, i: nat)
    requires 0 < i <= |bits|
    ensures AllSet(bits[..i]) == (bits[0] && AllSet(bits[1..][..i - 1]))
  {
    var front, rest := bits[..i], bits[1..][..i - 1];
    assert forall j | 0 <= j < i - 1 :: rest[j] == front[j + 1];
    assert front[0] == bits[0];
    if AllSet(front) {
      forall j | 0 <= j < |rest| ensures rest[j] { assert front[j + 1]; }
    }
    if bits[0] && AllSet(rest) {
      forall j | 0 <= j < |front| ensures front[j] { if j > 0 { assert rest[j - 1]; } }
    }
  }

  lemma {:induction false} ValueInjective(a: seq<bool>, b: seq<bool>)
    requires |a| == |b| && Value(a) == Value(b)
    ensures a == b
  {
    if a != [] {
      ValueInjective(a[1..], b[1..]);
      assert a == [a[0]] + a[1..] && b == [b[0]] + b[1..];
    }
  }

  lemma {:induction false} ZeroValue(bits: seq<bool>)
    requires forall j | 0 <= j < |bits| :: !bits[j]
    ensures Value(bits) == 0
  {
    if bits != [] { ZeroValue(bits[1..]); }
  }

  /** The binary digits of k, least significant first, without leading zeros. */
  function Digits(k: nat): seq<bool> {
    if k == 0 then [] else [k % 2 == 1] + Digits(k / 2)
  }

  lemma {:induction false} DigitsValue(k: nat)
    ensures Value(Digits(k)) == k < Pow2(|Digits(k)|)
  {
    if k > 0 { DigitsValue(k / 2); }
  }

  // ---------------------------------------------------------------- occurrences

  /** How many of the numbers have lane m set. */
  function Count(nums: seq<Word>, m: Word): nat {
    if nums == [] then 0 else Count(nums[..|nums| - 1], m) + (if Bit(nums[|nums| - 1], m) then 1 else 0)
  }

  function Occurrences(nums: seq<Word>, w: Word): nat {
    if nums == [] then 0 else Occurrences(nums[..|nums| - 1], w) + (if nums[|nums| - 1] == w then 1 else 0)
  }

  function Without(nums: seq<Word>, w: Word): seq<Word> {
    if nums == [] then []
    else Without(nums[..|nums| - 1], w) + (if nums[|nums| - 1] == w then [] else [nums[|nums| - 1]])
  }

  lemma CountPush(nums: seq<Word>, x: Word, m: Word)
    ensures Count(nums + [x], m) == Count(nums, m) + (if Bit(x, m) then 1 else 0)
    ensures Occurrences(nums + [x], m) == Occurrences(nums, m) + (if x == m then 1 else 0)
  {
    assert (nums + [x])[..|nums|] == nums;
  }

  lemma {:induction false} WithoutCounts(nums: seq<Word>, w: Word, m: Word)
    ensures Count(nums, m) == Count(Without(nums, w), m) + (if Bit(w, m) then Occurrences(nums, w) else 0)
    ensures |Without(nums, w)| == |nums| - Occurrences(nums, w)
  {
    if nums != [] {
      var rest, x := nums[..|nums| - 1], nums[|nums| - 1];
      WithoutCounts(rest, w, m);
      if x == w {
        assert Without(nums, w) == Without(rest, w);
      } else {
        CountPush(Without(rest, w), x, m);
      }
    }
  }

  lemma {:induction false} WithoutOthers(nums: seq<Word>, w: Word, v: Word)
    ensures Occurrences(Without(nums, w), v) == if v == w then 0 else Occurrences(nums, v)
  {
    if nums != [] {
      var rest, x := nums[..|nums| - 1], nums[|nums| - 1];
      WithoutOthers(rest, w, v);
      if x == w {
        assert Without(nums, w) == Without(rest, w);
      } else {
        CountPush(Without(rest, w), x, v);
      }
    }
  }

  /** If v occurs once and every other word a multiple of k times, lane m is set v's way, modulo k. */
  lemma {:induction false} SingleCount(nums: seq<Word>, v: Word, k: nat, m: Word)
    requires k > 0 && Occurrences(nums, v) == 1
    requires forall w: Word | w != v :: Occurrences(nums, w) % k == 0
    ensures (Count(nums, m) - (if Bit(v, m) then 1 else 0)) % k == 0
    decreases |nums|
  {
    hide Bit;
    var x := nums[|nums| - 1];
    var rest := Without(nums, x);
    WithoutCounts(nums, x, m);
    assert Occurrences(nums, x) >= 1;
    if x == v {
      forall w: Word ensures Occurrences(rest, w) % k == 0 { WithoutOthers(nums, x, w); }
      AllMultiples(rest, k, m);
    } else {
      forall w: Word | w != v ensures Occurrences(rest, w) % k == 0 { WithoutOthers(nums, x, w); }
      WithoutOthers(nums, x, v);
      SingleCount(rest, v, k, m);
      if Bit(x, m) { ModAdd(Count(rest, m) - (if Bit(v, m) then 1 else 0), Occurrences(nums, x), k); }
    }
  }

  lemma {:induction false} AllMultiples(nums: seq<Word>, k: nat, m: Word)
    requires k > 0 && forall w: Word :: Occurrences(nums, w) % k == 0
    ensures Count(nums, m) % k == 0
    decreases |nums|
  {
    hide Bit;
    if nums != [] {
      var x := nums[|nums| - 1];
      var rest := Without(nums, x);
      WithoutCounts(nums, x, m);
      assert Occurrences(nums, x) >= 1;
      forall w: Word ensures Occurrences(rest, w) % k == 0 { WithoutOthers(nums, x, w); }
      AllMultiples(rest, k, m);
      if Bit(x, m) { ModAdd(Count(rest, m), Occurrences(nums, x), k); }
    }
  }

  lemma ModAdd(a: int, b: int, k: nat)
    requires k > 0 && a % k == 0 && b % k == 0
    ensures (a + b) % k == 0
  {
    var q := a / k + b / k;
    assert a + b == k * q;
    MultipleMod(q, k);
  }

  // ---------------------------------------------------------------- the two programs

  /** The counter that runs in lane m. */
  function Lane(x: seq<Word>, m: Word): (r: seq<bool>)
    ensures |r| == |x|
  {
    seq(|x|, i requires 0 <= i < |x| => Bit(x[i], m))
  }

  /** Every lane of x counts the set bits of nums modulo k. */
  ghost predicate Counts(x: seq<Word>, nums: seq<Word>, k: nat)
    requires k > 0
  {
    forall m | IsLane(m) :: Value(Lane(x, m)) == Count(nums, m) % k
  }

  /** What generalSingleNumber(k, nums) returns: lane by lane, the lowest bit of the count modulo k. */
  ghost predicate GeneralResult(k: nat, nums: seq<Word>, r: Word)
    requires k > 0
  {
    forall m | IsLane(m) :: Bit(r, m) == ((Count(nums, m) % k) % 2 == 1)
  }

  /** The reset words: all ones where k has a zero digit. */
  predicate ResetWords(op: seq<Word>, k: nat) {
    |op| == |Digits(k)| && forall i | 0 <= i < |op| :: op[i] == if Digits(k)[i] then 0 else 0xFFFFFFFF
  }

  method CarryInto(x: array<Word>, w: Word, i: int) returns (carry: Word)
    requires 0 <= i < x.Length
    ensures CarryIs(carry, w, x[..i])
  {
    hide Xor, And, Not, CarryIs;
    carry := w;
    var j := i - 1;
    CarryStart(w, x[i..i]);
    while j >= 0
      invariant -1 <= j < i && CarryIs(carry, w, x[j + 1..i])
      decreases j
    {
      assert x[j..i] == [x[j]] + x[j + 1..i];
      CarryStep(carry, w, x[j], x[j + 1..i]);
      carry := And(carry, x[j]);
      j := j - 1;
    }
    assert x[0..i] == x[..i];
  }

  /** The lanes of carry are those of w in which all the words are set. */
  ghost predicate CarryIs(carry: Word, w: Word, words: seq<Word>) {
    forall m | IsLane(m) :: Bit(carry, m) == (Bit(w, m) && AllSet(Lane(words, m)))
  }

  lemma CarryStart(w: Word, none: seq<Word>)
    requires none == []
    ensures CarryIs(w, w, none)
  {
    hide Xor, And, Not, Bit, IsLane;
  }

  lemma CarryMeans(carry: Word, w: Word, words: seq<Word>)
    requires CarryIs(carry, w, words)
    ensures forall m | IsLane(m) :: Bit(carry, m) == (Bit(w, m) && AllSet(Lane(words, m)))
  {
    hide Xor, And, Not, Bit, IsLane, Lane, AllSet;
  }

  lemma CarryStep(carry: Word, w: Word, x: Word, words: seq<Word>)
    requires CarryIs(carry, w, words)
    ensures CarryIs(And(carry, x), w, [x] + words)
  {
    hide Xor, And, Not, Bit, IsLane, Lane, AllSet;
    forall m | IsLane(m)
      ensures Bit(And(carry, x), m) == (Bit(w, m) && AllSet(Lane([x] + words, m)))
    {
      LaneAnd(carry, x, m);
      AllSetCons(x, words, m);
    }
  }

  lemma AllSetCons(w: Word, x: seq<Word>, m: Word)
    ensures AllSet(Lane([w] + x, m)) == (Bit(w, m) && AllSet(Lane(x, m)))
  {
    hide Bit;
    var whole, bits := Lane([w] + x, m), Lane(x, m);
    assert whole[0] == Bit(w, m);
    if AllSet(whole) {
      forall j | 0 <= j < |bits| ensures bits[j] { assert whole[j + 1] == bits[j]; }
    } else if Bit(w, m) {
      var j :| 0 <= j < |whole| && !whole[j];
      assert !bits[j - 1];
    }
  }

  /** Adds the lanes of w to the counters, top word first so that the carries see the old words. */
  method AddWord(x: array<Word>, w: Word)
    modifies x
    ensures forall m | IsLane(m) :: Lane(x[..], m) == Increment(Lane(old(x[..]), m), Bit(w, m))
  {
    hide Xor, And, Not, Bit, IsLane, Increment;
    ghost var was := x[..];
    var i := x.Length - 1;
    while i >= 0
      invariant -1 <= i < x.Length
      invariant x[..i + 1] == was[..i + 1]
      invariant forall h, m | i < h < x.Length && IsLane(m) ::
        Bit(x[h], m) == Increment(Lane(was, m), Bit(w, m))[h]
      decreases i
    {
      var carry := CarryInto(x, w, i);
      CarryMeans(carry, w, x[..i]);
      forall m | IsLane(m)
        ensures Bit(Xor(x[i], carry), m) == Increment(Lane(was, m), Bit(w, m))[i]
      {
        LaneXor(x[i], carry, m);
        IncrementAt(Lane(was, m), Bit(w, m), i);
        assert x[i] == x[..i + 1][i] == was[i];
        assert x[..i] == x[..i + 1][..i] == was[..i];
        assert Lane(x[..i], m) == Lane(was, m)[..i];
      }
      x[i] := Xor(x[i], carry);
      i := i - 1;
    }
  }

  /** The lanes whose counter has reached k. */
  method FullLanes(x: array<Word>, op: array<Word>, k: nat) returns (mask: Word)
    requires x.Length == op.Length && ResetWords(op[..], k)
    ensures |Digits(k)| == x.Length
    ensures forall m | IsLane(m) :: Bit(mask, m) == (Lane(x[..], m) == Digits(k))
  {
    hide Xor, And, Not, Bit, IsLane, Digits, Lane;
    var digits := Digits(k);
    assert |op[..]| == op.Length;
    mask := 0xFFFFFFFF;
    var i := x.Length - 1;
    forall m | IsLane(m) ensures Bit(mask, m) { LaneConstants(m); }
    while i >= 0
      invariant -1 <= i < x.Length
      invariant forall m | IsLane(m) :: Bit(mask, m) == (Lane(x[..], m)[i + 1..] == digits[i + 1..])
      decreases i
    {
      var next := And(mask, Xor(x[i], op[i]));
      assert op[..][i] == op[i] && x[..][i] == x[i];
      forall m | IsLane(m)
        ensures Bit(next, m) == (Lane(x[..], m)[i..] == digits[i..])
      {
        FullLane(x[..], digits, mask, op[i], i, m);
      }
      mask := next;
      i := i - 1;
    }
    forall m | IsLane(m) ensures Bit(mask, m) == (Lane(x[..], m) == digits) {
      assert Lane(x[..], m)[0..] == Lane(x[..], m) && digits[0..] == digits;
    }
  }

  lemma FullLane(x: seq<Word>, digits: seq<bool>, mask: Word, op: Word, i: nat, m: Word)
    requires i < |x| == |digits| && IsLane(m) && op == if digits[i] then 0 else 0xFFFFFFFF
    requires Bit(mask, m) == (Lane(x, m)[i + 1..] == digits[i + 1..])
    ensures Bit(And(mask, Xor(x[i], op)), m) == (Lane(x, m)[i..] == digits[i..])
  {
    hide Xor, And, Not, Bit, IsLane;
    LaneAnd(mask, Xor(x[i], op), m);
    LaneXor(x[i], op, m);
    LaneConstants(m);
    SuffixesAgree(Lane(x, m), digits, i);
  }

  /** Clears the counters that have reached k. */
  method ResetFull(x: array<Word>, op: array<Word>, k: nat)
    requires x != op && x.Length == op.Length && ResetWords(op[..], k)
    modifies x
    ensures forall m | IsLane(m) ::
      Value(Lane(x[..], m)) == if Value(Lane(old(x[..]), m)) == k then 0 else Value(Lane(old(x[..]), m))
  {
    hide Xor, And, Not, Bit, IsLane, Value, Digits, Lane, ResetWords;
    ghost var was := x[..];
    var full := FullLanes(x, op, k);
    var mask := Not(full);
    var i := x.Length - 1;
    while i >= 0
      invariant -1 <= i < x.Length && x[..i + 1] == was[..i + 1]
      invariant forall h | i < h < x.Length :: x[h] == And(was[h], mask)
      decreases i
    {
      assert x[i] == x[..i + 1][i] == was[i];
      x[i] := And(x[i], mask);
      i := i - 1;
    }
    forall m | IsLane(m)
      ensures Value(Lane(x[..], m)) == if Value(Lane(was, m)) == k then 0 else Value(Lane(was, m))
    {
      ClearedLane(was, x[..], full, k, m);
    }
  }

  lemma ClearedLane(was: seq<Word>, x: seq<Word>, full: Word, k: nat, m: Word)
    requires |was| == |x| == |Digits(k)| && IsLane(m)
    requires forall h | 0 <= h < |x| :: x[h] == And(was[h], Not(full))
    requires Bit(full, m) == (Lane(was, m) == Digits(k))
    ensures Value(Lane(x, m)) == if Value(Lane(was, m)) == k then 0 else Value(Lane(was, m))
  {
    hide Xor, And, Not, Bit, IsLane, Value, Digits;
    LaneNot(full, m);
    forall h | 0 <= h < |was| ensures Bit(x[h], m) == (Bit(was[h], m) && !Bit(full, m)) {
      LaneAnd(was[h], Not(full), m);
    }
    DigitsValue(k);
    if Bit(full, m) {
      ZeroValue(Lane(x, m));
    } else {
      assert Lane(x, m) == Lane(was, m);
      if Value(Lane(was, m)) == k { ValueInjective(Lane(was, m), Digits(k)); }
    }
  }

  lemma SuffixesAgree(a: seq<bool>, b: seq<bool>, i: nat)
    requires i < |a| == |b|
    ensures (a[i..] == b[i..]) == (a[i] == b[i] && a[i + 1..] == b[i + 1..])
  {
    assert a[i..] == [a[i]] + a[i + 1..] && b[i..] == [b[i]] + b[i + 1..];
    if a[i..] == b[i..] { assert a[i..][0] == b[i..][0] && a[i..][1..] == b[i..][1..]; }
  }

  /** A counter below k takes one more bit and drops to 0 at k: it still counts modulo k. */
  lemma CountStep(before: seq<bool>, added: seq<bool>, bit: bool, count: nat, k: nat)
    requires k > 0 && |before| == |Digits(k)| && Value(before) == count % k
    requires added == Increment(before, bit)
    ensures (if Value(added) == k then 0 else Value(added)) == (count + (if bit then 1 else 0)) % k
  {
    DigitsValue(k);
    IncrementValue(before, bit);
    ModIncrement(count, k);
  }

  lemma ModIncrement(c: nat, k: nat)
    requires k > 0
    ensures (c + 1) % k == if c % k + 1 == k then 0 else c % k + 1
  {
    var q, r := c / k, c % k;
    if r + 1 == k {
      assert c + 1 == k * (q + 1);
      MultipleMod(q + 1, k);
    } else {
      assert c + 1 == k * q + (r + 1);
      DivUnique(c + 1, k, q, r + 1);
    }
  }

  lemma CountsStep(before: seq<Word>, added: seq<Word>, after: seq<Word>, nums: seq<Word>, w: Word, k: nat)
    requires k > 0 && |before| == |Digits(k)| && Counts(before, nums, k)
    requires forall m | IsLane(m) :: Lane(added, m) == Increment(Lane(before, m), Bit(w, m))
    requires forall m | IsLane(m) ::
      Value(Lane(after, m)) == if Value(Lane(added, m)) == k then 0 else Value(Lane(added, m))
    ensures Counts(after, nums + [w], k)
  {
    hide Xor, And, Not, Bit, IsLane, Value, Increment;
    forall m | IsLane(m) ensures Value(Lane(after, m)) == Count(nums + [w], m) % k {
      CountPush(nums, w, m);
      CountStep(Lane(before, m), Lane(added, m), Bit(w, m), Count(nums, m), k);
    }
  }

  lemma CountsStart(x: seq<Word>, k: nat)
    requires k > 0 && forall i | 0 <= i < |x| :: x[i] == 0
    ensures Counts(x, [], k)
  {
    hide Xor, And, Not, Bit, IsLane, Value;
    forall m | IsLane(m) ensures Value(Lane(x, m)) == Count([], m) % k {
      LaneConstants(m);
      ZeroValue(Lane(x, m));
      DivUnique(0, k, 0, 0);
    }
  }

  lemma CountsEnd(x: seq<Word>, nums: seq<Word>, k: nat)
    requires k > 0 && x != [] && Counts(x, nums, k)
    ensures GeneralResult(k, nums, x[0])
  {
    hide Xor, And, Not, Bit, IsLane, Count;
    forall m | IsLane(m) ensures Bit(x[0], m) == ((Count(nums, m) % k) % 2 == 1) {
      assert Value(Lane(x, m)) == (if Bit(x[0], m) then 1 else 0) + 2 * Value(Lane(x, m)[1..]);
    }
  }

  method MakeResetWords(k: nat) returns (op: array<Word>)
    requires k > 0
    ensures fresh(op) && ResetWords(op[..], k)
  {
    var digits := Digits(k);
    op := new Word[|digits|];
    var i := op.Length - 1;
    while i >= 0
      invariant -1 <= i < op.Length
      invariant forall h | i < h < op.Length :: op[h] == if digits[h] then 0 else 0xFFFFFFFF
      decreases i
    {
      op[i] := if digits[i] then 0 else 0xFFFFFFFF;
      i := i - 1;
    }
  }

  method GeneralSingleNumber(k: nat, nums: seq<Word>) returns (r: Word)
    requires 0 < k < 0x8000_0000
    ensures GeneralResult(k, nums, r)
  {
    hide Counts, GeneralResult, Lane, IsLane, Bit, Value, Increment, Count, ResetWords;
    var op := MakeResetWords(k);
    var x := new Word[|Digits(k)|](_ => 0);
    assert op.Length == x.Length by { assert |op[..]| == op.Length; ResetLength(op[..], k); }
    var n := 0;
    CountsStart(x[..], k);
    assert nums[..0] == [];
    while n < |nums|
      invariant 0 <= n <= |nums| && Counts(x[..], nums[..n], k) && ResetWords(op[..], k)
    {
      ghost var before := x[..];
      AddWord(x, nums[n]);
      ghost var added := x[..];
      ResetFull(x, op, k);
      CountsStep(before, added, x[..], nums[..n], nums[n], k);
      assert nums[..n + 1] == nums[..n] + [nums[n]];
      n := n + 1;
    }
    assert nums[..n] == nums;
    CountsEnd(x[..], nums, k);
    assert x[0] == x[..][0];
    r := x[0];
  }

  lemma ResetLength(op: seq<Word>, k: nat)
    requires ResetWords(op, k)
    ensures |op| == |Digits(k)|
  {
  }

  /** What singleNumber(nums) keeps: two lanes that say "once" and "twice", modulo three. */
  ghost predicate OnceTwice(nums: seq<Word>, lower: Word, higher: Word) {
    forall m | IsLane(m) ::
      Bit(lower, m) == (Count(nums, m) % 3 == 1) && Bit(higher, m) == (Count(nums, m) % 3 == 2)
  }

  lemma OnceTwiceStep(nums: seq<Word>, lower: Word, higher: Word, w: Word, lower': Word, higher': Word)
    requires OnceTwice(nums, lower, higher)
    requires lower' == And(Xor(lower, w), Not(higher)) && higher' == And(Xor(higher, w), Not(lower'))
    ensures OnceTwice(nums + [w], lower', higher')
  {
    hide Xor, And, Not, Bit, IsLane;
    forall m | IsLane(m)
      ensures Bit(lower', m) == (Count(nums + [w], m) % 3 == 1)
      ensures Bit(higher', m) == (Count(nums + [w], m) % 3 == 2)
    {
      CountPush(nums, w, m);
      LaneXor(lower, w, m);
      LaneXor(higher, w, m);
      LaneNot(higher, m);
      LaneNot(lower', m);
      LaneAnd(Xor(lower, w), Not(higher), m);
      LaneAnd(Xor(higher, w), Not(lower'), m);
    }
  }

  method SingleNumberOfThree(nums: seq<Word>) returns (lower: Word)
    ensures exists higher :: OnceTwice(nums, lower, higher)
  {
    hide Xor, And, Not, OnceTwice;
    var higher: Word := 0;
    lower := 0;
    var i := 0;
    OnceTwiceStart();
    assert nums[..0] == [];
    while i < |nums|
      invariant 0 <= i <= |nums| && OnceTwice(nums[..i], lower, higher)
    {
      ghost var was, had := lower, higher;
      lower := Xor(lower, nums[i]);
      lower := And(lower, Not(higher));
      higher := Xor(higher, nums[i]);
      higher := And(higher, Not(lower));
      OnceTwiceStep(nums[..i], was, had, nums[i], lower, higher);
      assert nums[..i + 1] == nums[..i] + [nums[i]];
      i := i + 1;
    }
    assert nums[..i] == nums;
  }

  lemma OnceTwiceStart()
    ensures OnceTwice([], 0, 0)
  {
    hide Xor, And, Not, Bit, IsLane;
    forall m | IsLane(m) ensures !Bit(0, m) { LaneConstants(m); }
  }

  // ---------------------------------------------------------------- what they return

  /** The value that occurs once among k-fold repetitions is what comes out, for every k from 2 up. */
  lemma SingleFound(k: nat, nums: seq<Word>, v: Word, r: Word)
    requires k >= 2 && Occurrences(nums, v) == 1
    requires forall w: Word | w != v :: Occurrences(nums, w) % k == 0
    requires GeneralResult(k, nums, r)
    ensures r == v
  {
    hide Xor, And, Not, Bit, IsLane, Count, Occurrences;
    forall m | IsLane(m) ensures Bit(r, m) == Bit(v, m) {
      SingleCount(nums, v, k, m);
      OneMoreThanMultiple(Count(nums, m), k, if Bit(v, m) then 1 else 0);
    }
    LanesDecide(r, v);
  }

  lemma OneMoreThanMultiple(n: int, k: nat, one: nat)
    requires k >= 2 && one < 2 && (n - one) % k == 0
    ensures n % k == one && (n % k) % 2 == one
  {
    var q := (n - one) / k;
    assert n == k * q + one;
    DivUnique(n, k, q, one);
  }

  /** With k = 1 every counter is reset at once, so the answer is 0 whatever the numbers are. */
  lemma NothingModuloOne(nums: seq<Word>, r: Word)
    requires GeneralResult(1, nums, r)
    ensures r == 0
  {
    hide Xor, And, Not, Bit, IsLane;
    forall m | IsLane(m) ensures Bit(r, m) == Bit(0, m) { LaneConstants(m); }
    LanesDecide(r, 0);
  }

  /** The two-word counter and the general one at k = 3 return the same word on every array. */
  lemma SameAtThree(nums: seq<Word>, general: Word, lower: Word, higher: Word)
    requires GeneralResult(3, nums, general) && OnceTwice(nums, lower, higher)
    ensures general == lower
  {
    hide Xor, And, Not, Bit, IsLane;
    forall m | IsLane(m) ensures Bit(general, m) == Bit(lower, m) {
      var c := Count(nums, m) % 3;
      assert c == 0 || c == 1 || c == 2;
    }
    LanesDecide(general, lower);
  }
}
