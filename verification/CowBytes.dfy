/** The byte copies of xs_concat, with the overlaps that arise when its arguments share memory. */
module CowBytes {
  import opened CowStrings

  /** Bytes go to d from offset k on. */
  function Blit(d: seq<Byte>, k: nat, bytes: seq<Byte>): (r: seq<Byte>)
    requires k + |bytes| <= |d|
    ensures |r| == |d|
  {
    d[..k] + bytes + d[k + |bytes|..]
  }

  /** The first n bytes of d copied to offset k one by one in ascending order, each read when its turn comes. */
  function CopyForward(d: seq<Byte>, k: nat, n: nat): (r: seq<Byte>)
    requires k + n <= |d|
    ensures |r| == |d|
    decreases n
  {
    if n == 0 then d
    else
      var e := CopyForward(d, k, n - 1);
      e[k + n - 1 := e[n - 1]]
  }

  /**
   * memcpy of n bytes to offset k of d, from other memory or, if inside, from the start of d itself.
   * The order in which an implementation copies matters where source and destination overlap.
   */
  function Memcpy(d: seq<Byte>, k: nat, src: seq<Byte>, n: nat, inside: bool, forward: bool): (r: seq<Byte>)
    requires k + n <= |d| && n <= |src|
    ensures |r| == |d|
  {
    if inside && forward then CopyForward(d, k, n) else Blit(d, k, if inside then d[..n] else src[..n])
  }

  lemma {:induction false} CopyForwardAt(d: seq<Byte>, k: nat, n: nat, i: nat)
    requires k + n <= |d| && i < |d| && (n <= k || k == 0)
    ensures CopyForward(d, k, n)[i] == if k <= i < k + n then d[i - k] else d[i]
    decreases n
  {
    if n == 0 {
      assert CopyForward(d, k, n) == d;
    } else {
      CopyForwardAt(d, k, n - 1, i);
      CopyForwardAt(d, k, n - 1, n - 1);
    }
  }

  /** Without an overlap, or onto itself, the order does not matter. */
  lemma CopyForwardApart(d: seq<Byte>, k: nat, n: nat)
    requires k + n <= |d| && (n <= k || k == 0)
    ensures CopyForward(d, k, n) == Blit(d, k, d[..n])
  {
    hide CopyForward;
    var r, b := CopyForward(d, k, n), Blit(d, k, d[..n]);
    forall i | 0 <= i < |d| ensures r[i] == b[i] { CopyForwardAt(d, k, n, i); }
  }

  /** With an overlap of one byte, the last byte copied is the first one again. */
  lemma CopyForwardOverlap(d: seq<Byte>, k: nat)
    requires 0 < k && 2 * k + 1 <= |d|
    ensures CopyForward(d, k, k + 1) == Blit(d, k, d[..k] + [d[0]])
  {
    CopyForwardApart(d, k, k);
    var e := Blit(d, k, d[..k]);
    assert CopyForward(d, k, k + 1) == e[2 * k := e[k]];
    assert e[k] == d[0];
  }

  // ---------------------------------------------------------------- three pieces

  /** The middle moved up and the prefix in front of it. */
  lemma BlitTwo(d: seq<Byte>, pre: Text, mid: Text)
    requires |pre| + |mid| <= |d|
    ensures var moved := Blit(Blit(d, |pre|, mid), 0, pre); moved[..|pre| + |mid|] == pre + mid
  {
    var n := |pre| + |mid|;
    var a := Blit(d, |pre|, mid);
    var b := Blit(a, 0, pre);
    assert a[|pre|..n] == mid;
    assert b[..n] == pre + mid;
  }

  lemma BlitLast(d: seq<Byte>, n: nat, bytes: Text, last: Byte)
    requires n + |bytes| + 1 <= |d|
    ensures var r := Blit(d, n, bytes + [last]);
      r[..n + |bytes|] == d[..n] + bytes && r[n + |bytes|] == last
  {
  }

  lemma BlitThree(d: seq<Byte>, pre: Text, mid: Text, suf: Text)
    requires |pre| + |mid| + |suf| + 1 <= |d|
    ensures var moved := Blit(Blit(Blit(d, |pre|, mid), 0, pre), |pre| + |mid|, suf + [0]);
      && moved[..|pre| + |mid| + |suf|] == pre + mid + suf
      && moved[|pre| + |mid| + |suf|] == 0
  {
    hide Blit;
    BlitTwo(d, pre, mid);
    BlitLast(Blit(Blit(d, |pre|, mid), 0, pre), |pre| + |mid|, suf, 0);
  }

  // ---------------------------------------------------------------- in place

  /**
   * The in-place branch of xs_concat on the target's bytes d. The pointers pre and suf were taken
   * before; inside says of each whether it points at d.
   */
  function InPlace(d: seq<Byte>, size: nat, pre: seq<Byte>, pres: nat, preInside: bool,
                   suf: seq<Byte>, sufs: nat, sufInside: bool, forward: bool): (r: seq<Byte>)
    requires pres + size + sufs + 1 <= |d| && pres < |pre| && sufs < |suf|
    ensures |r| == |d|
  {
    var d1 := Blit(d, pres, d[..size]);
    var d2 := Memcpy(d1, 0, pre, pres, preInside, forward);
    Memcpy(d2, pres + size, suf, sufs + 1, sufInside, forward)
  }

  /** After the first two copies the prefix and the target stand at the front, prefix aliased or not. */
  lemma FrontRight(d: seq<Byte>, size: nat, pre: seq<Byte>, pres: nat, preInside: bool, forward: bool)
    requires pres + size <= |d| && pres < |pre| && (preInside ==> pres == size && pre[..pres] == d[..size])
    ensures var d2 := Memcpy(Blit(d, pres, d[..size]), 0, pre, pres, preInside, forward);
      d2[..pres + size] == pre[..pres] + d[..size]
  {
    hide CopyForward;
    var d1 := Blit(d, pres, d[..size]);
    if preInside {
      CopyForwardApart(d1, 0, pres);
      assert d1[..size] == d[..size];
      assert Blit(d1, 0, d1[..pres]) == d1;
      assert d1[..pres + size] == d1[..pres] + d1[pres..pres + size];
    } else {
      BlitTwo(d, pre[..pres], d[..size]);
    }
  }

  /** With the suffix elsewhere the result is right, whether or not the prefix is the target. */
  lemma SuffixElsewhere(d: seq<Byte>, size: nat, pre: seq<Byte>, pres: nat, preInside: bool,
                        suf: seq<Byte>, sufs: nat, forward: bool)
    requires pres + size + sufs + 1 <= |d| && pres < |pre| && sufs < |suf| && suf[sufs] == 0
    requires preInside ==> pres == size && pre[..pres] == d[..size]
    ensures var r := InPlace(d, size, pre, pres, preInside, suf, sufs, false, forward);
      r[..pres + size + sufs] == pre[..pres] + d[..size] + suf[..sufs] && r[pres + size + sufs] == 0
  {
    hide CopyForward, Blit;
    FrontRight(d, size, pre, pres, preInside, forward);
    var d2 := Memcpy(Blit(d, pres, d[..size]), 0, pre, pres, preInside, forward);
    assert suf[..sufs + 1] == suf[..sufs] + [0];
    BlitLast(d2, pres + size, suf[..sufs], 0);
  }

  /** The bytes that the suffix copy adds when it reads the target itself, which has moved by then. */
  function TailCopied(pre: Text, mid: Text): (r: Text)
    ensures |r| == |mid|
  {
    if pre == [] then mid else (pre + mid)[..|mid|]
  }

  /** The byte that it copies last, in the place of the terminator. */
  function LastCopied(pre: Text, mid: Text, forward: bool): Byte {
    if pre == [] then (if mid == [] || !forward then 0 else mid[0]) else (pre + mid)[|mid|]
  }

  lemma SuffixInside(d: seq<Byte>, size: nat, pre: seq<Byte>, pres: nat, preInside: bool, suf: seq<Byte>, forward: bool)
    requires pres + size + size + 1 <= |d| && pres < |pre| && size < |suf| && d[size] == 0
    requires preInside ==> pres == size && pre[..pres] == d[..size]
    ensures var r := InPlace(d, size, pre, pres, preInside, suf, size, true, forward);
      var p, s := pre[..pres], d[..size];
      && r[..pres + size + size] == p + s + TailCopied(p, s)
      && r[pres + size + size] == LastCopied(p, s, forward)
  {
    hide CopyForward, Blit;
    var p, s, k := pre[..pres], d[..size], pres + size;
    FrontRight(d, size, pre, pres, preInside, forward);
    var d2 := Memcpy(Blit(d, pres, d[..size]), 0, pre, pres, preInside, forward);
    assert d2[..k] == p + s;
    if pres > 0 {
      TailApart(d2, p, s, suf, forward);
    } else {
      EmptyPrefixFront(d, size, pre, preInside, forward);
      assert p + s == s;
      TailOverlap(d, s, suf, forward);
    }
  }

  /** Behind a prefix the copied tail does not overlap its source. */
  lemma TailApart(d: seq<Byte>, p: Text, s: Text, suf: seq<Byte>, forward: bool)
    requires p != [] && |p| + |s| + |s| + 1 <= |d| && d[..|p| + |s|] == p + s && |s| < |suf|
    ensures var r := Memcpy(d, |p| + |s|, suf, |s| + 1, true, forward);
      r[..|p| + |s| + |s|] == p + s + TailCopied(p, s) && r[|p| + |s| + |s|] == LastCopied(p, s, forward)
  {
    hide CopyForward, Blit;
    var k, n := |p| + |s|, |s|;
    CopyForwardApart(d, k, n + 1);
    assert d[..n + 1] == d[..k][..n + 1] == (p + s)[..n] + [(p + s)[n]];
    BlitLast(d, k, (p + s)[..n], (p + s)[n]);
  }

  /** Without one it overlaps it by a byte. */
  lemma TailOverlap(d: seq<Byte>, s: Text, suf: seq<Byte>, forward: bool)
    requires |s| + |s| + 1 <= |d| && d[..|s|] == s && d[|s|] == 0 && |s| < |suf|
    ensures var r := Memcpy(d, |s|, suf, |s| + 1, true, forward);
      r[..|s| + |s|] == s + TailCopied([], s) && r[|s| + |s|] == LastCopied([], s, forward)
  {
    hide CopyForward, Blit;
    var k := |s|;
    assert d[..k + 1] == s + [0];
    BlitLast(d, k, s, 0);
    if k == 0 {
      CopyForwardApart(d, 0, 1);
    } else {
      CopyForwardOverlap(d, k);
      assert d[0] == s[0];
      BlitLast(d, k, s, s[0]);
    }
  }

  lemma EmptyPrefixFront(d: seq<Byte>, size: nat, pre: seq<Byte>, preInside: bool, forward: bool)
    requires size <= |d| && 0 < |pre|
    ensures Memcpy(Blit(d, 0, d[..size]), 0, pre, 0, preInside, forward) == d
  {
    assert Blit(d, 0, d[..size]) == d;
    assert Blit(d, 0, []) == d;
  }

  lemma {:induction false} CopyForwardBeyond(d: seq<Byte>, k: nat, n: nat, i: nat)
    requires k + n <= i < |d|
    ensures CopyForward(d, k, n)[i] == d[i]
    decreases n
  {
    if n == 0 {
      assert CopyForward(d, k, n) == d;
    } else {
      CopyForwardBeyond(d, k, n - 1, i);
    }
  }

  /** Bytes behind the new terminator are not written. */
  lemma InPlaceBeyond(d: seq<Byte>, size: nat, pre: seq<Byte>, pres: nat, preInside: bool,
                      suf: seq<Byte>, sufs: nat, sufInside: bool, forward: bool, i: nat)
    requires pres + size + sufs + 1 <= i < |d| && pres < |pre| && sufs < |suf|
    ensures InPlace(d, size, pre, pres, preInside, suf, sufs, sufInside, forward)[i] == d[i]
  {
    hide CopyForward;
    var d1 := Blit(d, pres, d[..size]);
    CopyForwardBeyond(d1, 0, pres, i);
    var d2 := Memcpy(d1, 0, pre, pres, preInside, forward);
    CopyForwardBeyond(d2, pres + size, sufs + 1, i);
  }

  lemma TailsEqual(front: Text, a: Text, b: Text)
    requires |a| == |b|
    ensures front + a == front + b <==> a == b
  {
    assert (front + a)[|front|..] == a && (front + b)[|front|..] == b;
  }

  /** What the in-place branch leaves: right, but for a suffix that points at the bytes being moved. */
  lemma InPlaceOutcome(d: seq<Byte>, size: nat, pre: seq<Byte>, pres: nat, preInside: bool,
                       suf: seq<Byte>, sufs: nat, sufInside: bool, forward: bool)
    requires pres + size + sufs + 1 <= |d| && pres < |pre| && sufs < |suf| && suf[sufs] == 0 && d[size] == 0
    requires preInside ==> pres == size && pre[..pres] == d[..size]
    requires sufInside ==> sufs == size && suf[..sufs] == d[..size]
    ensures var r := InPlace(d, size, pre, pres, preInside, suf, sufs, sufInside, forward);
      var p, s, t, n := pre[..pres], d[..size], suf[..sufs], pres + size + sufs;
      && r[n] == (if sufInside then LastCopied(p, s, forward) else 0)
      && (r[..n] == p + s + t <==> (sufInside ==> TailCopied(p, s) == s))
  {
    hide InPlace, TailCopied, LastCopied;
    if sufInside {
      SuffixInside(d, size, pre, pres, preInside, suf, forward);
      TailsEqual(pre[..pres] + d[..size], TailCopied(pre[..pres], d[..size]), d[..size]);
    } else {
      SuffixElsewhere(d, size, pre, pres, preInside, suf, sufs, forward);
    }
  }
}
