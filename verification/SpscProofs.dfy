/** Safety of the single-producer/single-consumer ring over every interleaving. */
module SpscProofs {
  import opened SpscRing

  // ---------------------------------------------------------------- what the buffer holds

  lemma PadFacts(n: nat)
    requires n + 7 < WORD32
    ensures n <= Pad(n) < n + 8 && Pad(n) % 8 == 0
  {
    NoWrap(n + 7);
    RoundedDown(n + 7);
  }

  lemma NoWrap(m: nat)
    requires m < WORD32
    ensures m % WORD32 == m
  {
  }

  lemma RoundedDown(m: nat)
    ensures m - 8 < m / 8 * 8 <= m && m / 8 * 8 % 8 == 0
  {
  }

  /** The bytes from pos on are the chunk c. */
  ghost predicate ChunkAt(buf: seq<Byte>, pos: nat, c: Chunk) {
    && HEADER <= c.len && c.len % 8 == 0 && pos + c.len <= |buf|
    && GapAt(buf, pos) == c.gap
    && (c.gap ==> c.payload == [])
    && (!c.gap ==>
          && |c.payload| + 7 < WORD32 && c.len == HEADER + Pad(|c.payload|) && |c.payload| <= Pad(|c.payload|)
          && SizeAt(buf, pos) == |c.payload|
          && buf[pos + HEADER..pos + HEADER + |c.payload|] == c.payload)
  }

  /** The chunks q lie one behind the other from pos on; a gap fills the rest of the buffer before an element. */
  ghost predicate Layout(size: nat, buf: seq<Byte>, pos: nat, q: seq<Chunk>)
    requires |buf| == size
    decreases |q|
  {
    q == [] || (
      && pos < size && pos % 8 == 0 && ChunkAt(buf, pos, q[0])
      && (if q[0].gap then pos + q[0].len == size && |q| > 1 && !q[1].gap else pos + q[0].len <= size)
      && Layout(size, buf, Advance(size, pos, q[0].len), q[1..]))
  }

  ghost function Payloads(q: seq<Chunk>): seq<seq<Byte>> {
    if q == [] then [] else (if q[0].gap then [] else [q[0].payload]) + Payloads(q[1..])
  }

  // ---------------------------------------------------------------- the invariant

  /** A gap and len bytes behind it fit behind the head, inside the buffer, without reaching the tail. */
  ghost predicate Space(s: State, len: nat, gapd: nat) {
    && Total(s.chunks) + gapd + len < s.size
    && (if gapd == 0 then s.head + len <= s.size else s.head + gapd == s.size && HEADER <= gapd && gapd % 8 == 0)
  }

  /** The element under construction fits. */
  ghost predicate Room(s: State, n: nat, gapd: nat) {
    n + 7 < WORD32 && Space(s, HEADER + Pad(n), gapd)
  }

  ghost predicate ProducerInv(s: State)
    requires |s.buf| == s.size
  {
    match s.producer
    case PIdle => true
    case PReserved(rsvd, gapd) => Space(s, rsvd, gapd)
    case PGapWritten(written, gapd) => Room(s, written, gapd) && (gapd > 0 ==> GapAt(s.buf, s.head))
    case PHeaderWritten(written, gapd) =>
      && Room(s, written, gapd) && (gapd > 0 ==> GapAt(s.buf, s.head))
      && !GapAt(s.buf, ElementStart(s, gapd)) && SizeAt(s.buf, ElementStart(s, gapd)) == written
  }

  ghost predicate ConsumerInv(s: State) {
    match s.consumer
    case CIdle => true
    case CSeen(wraps) => s.chunks != [] && (s.chunks[0].gap ==> wraps)
    case CAtElement => s.chunks != [] && !s.chunks[0].gap
    case CReading(toread, got) =>
      s.chunks != [] && !s.chunks[0].gap && toread == |s.chunks[0].payload| && got <= s.chunks[0].payload
  }

  /** Shared memory: the chunks lie from tail to head, and the histories agree with them. */
  ghost predicate MemoryInv(s: State) {
    && InBounds(s) && s.size % 8 == 0 && s.tail % 8 == 0
    && Layout(s.size, s.buf, s.tail, s.chunks)
    && Total(s.chunks) < s.size && s.head == EndPos(s.size, s.tail, s.chunks)
    && s.written == s.read + Payloads(s.chunks)
  }

  /** How many bytes behind the head the producer has claimed. */
  ghost function Claim(p: Producer): nat {
    match p
    case PIdle => 0
    case PReserved(rsvd, gapd) => gapd + rsvd
    case PGapWritten(written, gapd) => gapd + HEADER + Pad(written)
    case PHeaderWritten(written, gapd) => gapd + HEADER + Pad(written)
  }

  /** A tail from which a request may be computed: all unread bytes lie between it and the head. */
  ghost predicate StaleTail(s: State, t: nat) {
    t < s.size && Dist(s.size, t, s.head) >= Total(s.chunks)
  }

  /** A head from which a read may be computed: the one that was stored behind the first n unread chunks. */
  ghost predicate StaleHead(s: State, n: nat, h: nat) {
    n <= |s.chunks| && (n > 0 ==> !s.chunks[n - 1].gap) && h == EndPos(s.size, s.tail, s.chunks[..n]) && h < s.size
  }

  /**
   * The tails stored since the producer's last load are ever closer to the head, none closer than the
   * unread bytes, and what the producer has claimed fits before the one it loaded.
   */
  ghost predicate TailsInv(s: State) {
    && s.seenTail < |s.tails| && s.tails[|s.tails| - 1] == s.tail
    && (forall k | s.seenTail <= k < |s.tails| :: StaleTail(s, s.tails[k]))
    && (forall k, l | s.seenTail <= k <= l < |s.tails| ::
          Dist(s.size, s.tails[k], s.head) >= Dist(s.size, s.tails[l], s.head))
    && Dist(s.size, s.tails[s.seenTail], s.head) + Claim(s.producer) < s.size
  }

  /** The heads stored since the consumer's last load, each behind some of the unread chunks. */
  ghost predicate HeadsInv(s: State) {
    && s.seenHead < |s.heads| == |s.marks| && s.heads[|s.heads| - 1] == s.head
    && s.marks[|s.marks| - 1] == s.passed + |s.chunks|
    && (forall k | s.seenHead <= k < |s.heads| ::
          s.marks[k] >= s.passed && StaleHead(s, s.marks[k] - s.passed, s.heads[k]))
    && (forall k, l | s.seenHead <= k <= l < |s.marks| :: s.marks[k] <= s.marks[l])
    && (!s.consumer.CIdle? ==> s.marks[s.seenHead] > s.passed)
  }

  ghost predicate Inv(s: State) {
    MemoryInv(s) && ProducerInv(s) && ConsumerInv(s) && TailsInv(s) && HeadsInv(s)
  }

  // ---------------------------------------------------------------- layout

  lemma {:induction false} EndFacts(size: nat, buf: seq<Byte>, pos: nat, q: seq<Chunk>)
    requires |buf| == size && Layout(size, buf, pos, q) && Total(q) < size && pos < size && pos % 8 == 0
      && size % 8 == 0
    ensures EndPos(size, pos, q) < size && EndPos(size, pos, q) % 8 == 0
    ensures Dist(size, pos, EndPos(size, pos, q)) == Total(q)
    decreases |q|
  {
    if q != [] { EndFacts(size, buf, Advance(size, pos, q[0].len), q[1..]); }
  }

  lemma EmptyTotal(size: nat, buf: seq<Byte>, pos: nat, q: seq<Chunk>)
    requires |buf| == size && Layout(size, buf, pos, q)
    ensures Total(q) == 0 <==> q == []
    ensures q == [] ==> EndPos(size, pos, q) == pos
  {
  }

  /** Writes that stay clear of the chunks leave them as they are. */
  lemma {:induction false} LayoutFrame(size: nat, buf: seq<Byte>, buf': seq<Byte>, pos: nat, q: seq<Chunk>)
    requires |buf| == |buf'| == size && Layout(size, buf, pos, q) && Total(q) < size && pos < size
    requires forall x | 0 <= x < size && Dist(size, pos, x) < Total(q) :: buf'[x] == buf[x]
    ensures Layout(size, buf', pos, q)
    decreases |q|
  {
    if q != [] {
      var next := Advance(size, pos, q[0].len);
      forall x | 0 <= x < size && Dist(size, next, x) < Total(q[1..]) ensures buf'[x] == buf[x] {
        assert Dist(size, pos, x) < Total(q);
      }
      LayoutFrame(size, buf, buf', next, q[1..]);
      forall x | pos <= x < pos + q[0].len ensures buf'[x] == buf[x] {
        assert Dist(size, pos, x) < Total(q);
      }
      ChunkFrame(buf, buf', pos, q[0]);
    }
  }

  lemma ChunkFrame(buf: seq<Byte>, buf': seq<Byte>, pos: nat, c: Chunk)
    requires |buf| == |buf'| && ChunkAt(buf, pos, c) && forall x | pos <= x < pos + c.len :: buf'[x] == buf[x]
    ensures ChunkAt(buf', pos, c)
  {
    SliceFrame(buf, buf', pos, pos + 4);
    SliceFrame(buf, buf', pos + 4, pos + 8);
    if !c.gap { SliceFrame(buf, buf', pos + HEADER, pos + HEADER + |c.payload|); }
  }

  lemma SliceFrame(buf: seq<Byte>, buf': seq<Byte>, lo: nat, hi: nat)
    requires lo <= hi <= |buf| == |buf'| && forall x | lo <= x < hi :: buf'[x] == buf[x]
    ensures buf[lo..hi] == buf'[lo..hi]
  {
  }

  lemma {:induction false} LayoutConcat(size: nat, buf: seq<Byte>, pos: nat, q: seq<Chunk>, r: seq<Chunk>)
    requires |buf| == size && Layout(size, buf, pos, q) && Layout(size, buf, EndPos(size, pos, q), r)
    ensures Layout(size, buf, pos, q + r)
    ensures EndPos(size, pos, q + r) == EndPos(size, EndPos(size, pos, q), r)
    decreases |q|
  {
    hide ChunkAt;
    if q == [] {
      assert q + r == r;
    } else {
      assert (q + r)[1..] == q[1..] + r;
      assert (q + r)[0] == q[0] && (|q| > 1 ==> (q + r)[1] == q[1]);
      LayoutConcat(size, buf, Advance(size, pos, q[0].len), q[1..], r);
    }
  }

  lemma {:induction false} SumsConcat(q: seq<Chunk>, r: seq<Chunk>)
    ensures Total(q + r) == Total(q) + Total(r)
    ensures Payloads(q + r) == Payloads(q) + Payloads(r)
  {
    if q == [] {
      assert q + r == r;
    } else {
      assert (q + r)[1..] == q[1..] + r;
      SumsConcat(q[1..], r);
    }
  }

  // ---------------------------------------------------------------- the producer

  /** What a granted request promises, however old the tail it was computed from. */
  lemma GrantSpace(s: State, minimum: nat, t: nat)
    requires MemoryInv(s) && StaleTail(s, t)
    ensures var g := Request(s.size, s.head, t, minimum);
      g.Granted? ==> Space(s, g.rsvd, g.gapd) && Dist(s.size, t, s.head) + g.gapd + g.rsvd < s.size
  {
    hide Layout, EndPos, Payloads, Pad, Total;
    EndFacts(s.size, s.buf, s.tail, s.chunks);
  }

  /** Bytes behind the head, up to the reserved end, are not bytes of unread chunks. */
  lemma BeyondHead(s: State, len: nat, gapd: nat, x: nat)
    requires MemoryInv(s) && Space(s, len, gapd)
    requires (s.head <= x < s.size && gapd > 0)
          || ElementStart(s, gapd) <= x < ElementStart(s, gapd) + len
    ensures x < s.size && Dist(s.size, s.tail, x) >= Total(s.chunks)
  {
    hide Layout, EndPos, Payloads, Total;
    EndFacts(s.size, s.buf, s.tail, s.chunks);
  }

  /** Replacing the buffer by one that agrees on all unread bytes keeps the memory invariant. */
  lemma MemoryFrame(s: State, buf': seq<Byte>)
    requires MemoryInv(s) && |buf'| == s.size
    requires forall x | 0 <= x < s.size && Dist(s.size, s.tail, x) < Total(s.chunks) :: buf'[x] == s.buf[x]
    ensures MemoryInv(s.(buf := buf'))
  {
    LayoutFrame(s.size, s.buf, buf', s.tail, s.chunks);
  }

  lemma RequestKeeps(s: State, minimum: nat, k: nat)
    requires Inv(s) && Enabled(s, ProducerRequest(minimum, k))
    ensures Inv(Apply(s, ProducerRequest(minimum, k)))
  {
    hide Layout, EndPos, Payloads, Request, Total, Dist, TailsInv, HeadsInv, StaleTail;
    TailLoaded(s, k);
    GrantSpace(s, minimum, s.tails[k]);
    var t := Apply(s, ProducerRequest(minimum, k));
    DistBound(s.size, s.tails[k], s.head);
    SameHeads(s, t);
    LoadTails(s, t, k);
  }

  lemma TailLoaded(s: State, k: nat)
    requires TailsInv(s) && s.seenTail <= k < |s.tails|
    ensures StaleTail(s, s.tails[k])
  {
  }

  lemma LoadTails(s: State, t: State, k: nat)
    requires TailsInv(s) && s.seenTail <= k < |s.tails| && t == s.(seenTail := k, producer := t.producer)
    requires Dist(s.size, s.tails[k], s.head) + Claim(t.producer) < s.size
    ensures TailsInv(t)
  {
    hide Dist, Total, Claim;
    forall l | k <= l < |t.tails| ensures StaleTail(t, t.tails[l]) { TailLoaded(s, l); }
  }

  lemma DistBound(size: nat, t: nat, h: nat)
    requires t < size && h < size
    ensures 0 <= Dist(size, t, h) < size
  {
  }

  lemma StaleHeadSame(s: State, t: State, n: nat, h: nat)
    requires StaleHead(s, n, h) && t.size == s.size && t.tail == s.tail && t.chunks == s.chunks
    ensures StaleHead(t, n, h)
  {
  }

  /** Steps that touch neither chunks nor heads keep what the consumer may load. */
  lemma SameHeads(s: State, t: State)
    requires HeadsInv(s) && t.size == s.size && t.tail == s.tail && t.head == s.head && t.chunks == s.chunks
    requires t.heads == s.heads && t.seenHead == s.seenHead && t.marks == s.marks && t.passed == s.passed
    requires t.consumer.CIdle? || !s.consumer.CIdle?
    ensures HeadsInv(t)
  {
    hide StaleHead;
    forall k | s.seenHead <= k < |s.heads| ensures StaleHead(t, t.marks[k] - t.passed, t.heads[k]) {
      StaleHeadSame(s, t, s.marks[k] - s.passed, s.heads[k]);
    }
  }

  /** Steps that leave both indices alone and claim no more keep what the producer may load. */
  lemma SameTails(s: State, t: State)
    requires TailsInv(s) && t.size == s.size && t.tail == s.tail && t.head == s.head && t.chunks == s.chunks
    requires t.tails == s.tails && t.seenTail == s.seenTail && Claim(t.producer) <= Claim(s.producer)
    ensures TailsInv(t)
  {
    hide Dist, Total;
    forall k | s.seenTail <= k < |s.tails| ensures StaleTail(t, t.tails[k]) { assert StaleTail(s, s.tails[k]); }
  }

  lemma WriteKeeps(s: State, k: nat, b: Byte)
    requires Inv(s) && Enabled(s, ProducerWrite(k, b))
    ensures Fits(s, ProducerWrite(k, b)) && Inv(Apply(s, ProducerWrite(k, b)))
  {
    hide Layout, EndPos, Payloads, Total, Dist, TailsInv, HeadsInv;
    var p := s.producer;
    var a := ElementStart(s, p.gapd) + HEADER + k;
    BeyondHead(s, p.rsvd, p.gapd, a);
    MemoryFrame(s, s.buf[a := b]);
    SameHeads(s, Apply(s, ProducerWrite(k, b)));
    SameTails(s, Apply(s, ProducerWrite(k, b)));
  }

  lemma PatchFrame(s: State, len: nat, gapd: nat, pos: nat, header: seq<Byte>)
    requires MemoryInv(s) && Space(s, len, gapd) && HEADER <= len && |header| == HEADER
    requires (pos == s.head && gapd > 0) || pos == ElementStart(s, gapd)
    ensures pos + HEADER <= s.size && MemoryInv(s.(buf := Patch(s.buf, pos, header)))
  {
    hide Layout, EndPos, Payloads, Total;
    forall x | pos <= x < pos + HEADER ensures x < s.size && Dist(s.size, s.tail, x) >= Total(s.chunks) {
      BeyondHead(s, len, gapd, x);
    }
    MemoryFrame(s, Patch(s.buf, pos, header));
  }

  /** A header written at pos reads back there, and leaves the header at another place alone. */
  lemma HeaderReadBack(buf: seq<Byte>, pos: nat, n: nat, gap: bool)
    requires pos + HEADER <= |buf| && n < WORD32
    ensures var b := Patch(buf, pos, ElementHeader(n, gap)); SizeAt(b, pos) == n && GapAt(b, pos) == gap
  {
    var b, h := Patch(buf, pos, ElementHeader(n, gap)), ElementHeader(n, gap);
    assert b[pos..pos + 4] == Encode32(n);
    assert b[pos + 4..pos + 8] == Encode32(if gap then 1 else 0);
    DecodeEncode(n);
    DecodeEncode(if gap then 1 else 0);
  }

  lemma HeaderElsewhere(buf: seq<Byte>, pos: nat, header: seq<Byte>, other: nat)
    requires pos + HEADER <= |buf| && other + HEADER <= |buf| && |header| == HEADER
    requires pos + HEADER <= other || other + HEADER <= pos
    ensures SizeAt(Patch(buf, pos, header), other) == SizeAt(buf, other)
    ensures GapAt(Patch(buf, pos, header), other) == GapAt(buf, other)
  {
    SliceFrame(buf, Patch(buf, pos, header), other, other + 4);
    SliceFrame(buf, Patch(buf, pos, header), other + 4, other + 8);
  }

  lemma GapKeeps(s: State, written: nat)
    requires Inv(s) && Enabled(s, ProducerGap(written))
    ensures Fits(s, ProducerGap(written)) && Inv(Apply(s, ProducerGap(written)))
    ensures s.producer.gapd == 0 || s.producer.gapd >= HEADER
  {
    hide Layout, EndPos, Payloads, GapAt, SizeAt, ElementHeader, Patch, Total, TailsInv, HeadsInv, Pad;
    var p := s.producer;
    if p.gapd > 0 {
      var n := (p.gapd - HEADER) % WORD32;
      PatchFrame(s, p.rsvd, p.gapd, s.head, ElementHeader(n, true));
      HeaderReadBack(s.buf, s.head, n, true);
    }
    SameHeads(s, Apply(s, ProducerGap(written)));
    SameTails(s, Apply(s, ProducerGap(written)));
  }

  lemma HeaderKeeps(s: State)
    requires Inv(s) && Enabled(s, ProducerHeader)
    ensures Fits(s, ProducerHeader) && s.producer.written < WORD32 && Inv(Apply(s, ProducerHeader))
  {
    hide Layout, EndPos, Payloads, GapAt, SizeAt, ElementHeader, Patch, Total, TailsInv, HeadsInv, Pad;
    var p := s.producer;
    var a := ElementStart(s, p.gapd);
    PatchFrame(s, HEADER + Pad(p.written), p.gapd, a, ElementHeader(p.written, false));
    HeaderReadBack(s.buf, a, p.written, false);
    if p.gapd > 0 {
      EndFacts(s.size, s.buf, s.tail, s.chunks);
      assert HEADER <= s.head;
      HeaderElsewhere(s.buf, a, ElementHeader(p.written, false), s.head);
    }
    SameHeads(s, Apply(s, ProducerHeader));
    SameTails(s, Apply(s, ProducerHeader));
  }

  /** What is published reads as the chunks appended to the queue. */
  lemma PublishedLayout(s: State)
    requires Inv(s) && s.producer.PHeaderWritten?
    ensures var p := s.producer;
            && ElementStart(s, p.gapd) + HEADER + p.written <= s.size
            && Layout(s.size, s.buf, s.head, NewChunks(s, p.written, p.gapd))
            && EndPos(s.size, s.head, NewChunks(s, p.written, p.gapd)) ==
                 Advance(s.size, s.head, p.gapd + HEADER + Pad(p.written))
            && Total(NewChunks(s, p.written, p.gapd)) == p.gapd + HEADER + Pad(p.written)
            && Payloads(NewChunks(s, p.written, p.gapd)) ==
                 [s.buf[ElementStart(s, p.gapd) + HEADER..ElementStart(s, p.gapd) + HEADER + p.written]]
  {
    hide GapAt, SizeAt, Pad, Layout, EndPos, Payloads, Total, TailsInv, HeadsInv, ConsumerInv, Dist, ChunkAt;
    var p := s.producer;
    PadFacts(p.written);
    EndFacts(s.size, s.buf, s.tail, s.chunks);
    var a := ElementStart(s, p.gapd);
    var element := Chunk(HEADER + Pad(p.written), false, s.buf[a + HEADER..a + HEADER + p.written]);
    ElementAt(s.buf, a, p.written);
    OneChunk(s.size, s.buf, a, element);
    if p.gapd > 0 {
      GapChunkAt(s.buf, s.head, p.gapd);
      GapAndElement(s.size, s.buf, s.head, Chunk(p.gapd, true, []), element);
    }
  }

  lemma ElementAt(buf: seq<Byte>, a: nat, n: nat)
    requires n + 7 < WORD32 && a + HEADER + Pad(n) <= |buf| && !GapAt(buf, a) && SizeAt(buf, a) == n
    ensures n <= Pad(n) && ChunkAt(buf, a, Chunk(HEADER + Pad(n), false, buf[a + HEADER..a + HEADER + n]))
  {
    hide GapAt, SizeAt, Pad;
    PadFacts(n);
  }

  lemma GapChunkAt(buf: seq<Byte>, pos: nat, len: nat)
    requires HEADER <= len && len % 8 == 0 && pos + len <= |buf| && GapAt(buf, pos)
    ensures ChunkAt(buf, pos, Chunk(len, true, []))
  {
  }

  lemma GapAndElement(size: nat, buf: seq<Byte>, pos: nat, gap: Chunk, element: Chunk)
    requires |buf| == size && ChunkAt(buf, pos, gap) && gap.gap && !element.gap && pos < size && pos % 8 == 0
    requires pos + gap.len == size && Layout(size, buf, 0, [element]) && element.len < size
    ensures Layout(size, buf, pos, [gap, element]) && EndPos(size, pos, [gap, element]) == element.len
    ensures Total([gap, element]) == gap.len + element.len && Payloads([gap, element]) == [element.payload]
  {
    hide ChunkAt;
    assert [gap, element][1..] == [element] && [element][1..] == [];
    assert EndPos(size, 0, [element]) == element.len;
    assert Payloads([element]) == [element.payload] && Total([element]) == element.len;
  }

  lemma OneChunk(size: nat, buf: seq<Byte>, pos: nat, c: Chunk)
    requires |buf| == size && ChunkAt(buf, pos, c) && !c.gap && pos < size && pos + c.len <= size && pos % 8 == 0
    ensures Layout(size, buf, pos, [c]) && EndPos(size, pos, [c]) == Advance(size, pos, c.len) && Total([c]) == c.len
    ensures Payloads([c]) == [c.payload]
  {
    assert [c][1..] == [];
  }

  lemma PublishKeeps(s: State)
    requires Inv(s) && Enabled(s, ProducerPublish)
    ensures ElementStart(s, s.producer.gapd) + HEADER + s.producer.written <= s.size
    ensures Inv(Apply(s, ProducerPublish))
  {
    hide Layout, EndPos, Payloads, Total, GapAt, SizeAt, TailsInv, HeadsInv;
    var p := s.producer;
    PublishedLayout(s);
    var r := NewChunks(s, p.written, p.gapd);
    LayoutConcat(s.size, s.buf, s.tail, s.chunks, r);
    SumsConcat(s.chunks, r);
    var t := Apply(s, ProducerPublish);
    assert t.written == t.read + Payloads(t.chunks);
    PublishTails(s, t);
    PublishHeads(s, t, r);
  }

  /** A publish moves the head and the unread bytes by the same amount, inside the claim. */
  lemma PublishTails(s: State, t: State)
    requires TailsInv(s) && InBounds(s) && t.producer == PIdle && t.size == s.size && t.tail == s.tail
    requires t.tails == s.tails && t.seenTail == s.seenTail
    requires t.head == Advance(s.size, s.head, Claim(s.producer))
      && Total(t.chunks) == Total(s.chunks) + Claim(s.producer)
    ensures TailsInv(t)
  {
    hide Total;
    var len := Claim(s.producer);
    forall k | s.seenTail <= k < |s.tails|
      ensures StaleTail(t, t.tails[k])
      ensures Dist(t.size, t.tails[k], t.head) == Dist(s.size, s.tails[k], s.head) + len
    {
      assert StaleTail(s, s.tails[k]);
    }
  }

  lemma StaleHeadLonger(s: State, t: State, r: seq<Chunk>, n: nat, h: nat)
    requires StaleHead(s, n, h) && t.size == s.size && t.tail == s.tail && t.chunks == s.chunks + r
    ensures StaleHead(t, n, h)
  {
    hide EndPos;
    assert t.chunks[..n] == s.chunks[..n];
  }

  lemma NewestHead(t: State)
    requires t.chunks != [] ==> !t.chunks[|t.chunks| - 1].gap
    requires t.head == EndPos(t.size, t.tail, t.chunks) < t.size
    ensures StaleHead(t, |t.chunks|, t.head)
  {
    hide EndPos;
    assert t.chunks[..|t.chunks|] == t.chunks;
  }

  lemma PublishHeads(s: State, t: State, r: seq<Chunk>)
    requires HeadsInv(s) && t.size == s.size && t.tail == s.tail && t.seenHead == s.seenHead && t.passed == s.passed
    requires t.consumer == s.consumer && t.chunks == s.chunks + r && r != [] && !r[|r| - 1].gap
    requires t.heads == s.heads + [t.head] && t.marks == s.marks + [s.passed + |s.chunks| + |r|]
    requires t.head == EndPos(t.size, t.tail, t.chunks) < t.size
    ensures HeadsInv(t)
  {
    hide StaleHead, EndPos;
    forall k | s.seenHead <= k < |t.heads|
      ensures t.marks[k] >= t.passed && StaleHead(t, t.marks[k] - t.passed, t.heads[k])
    {
      if k < |s.heads| {
        StaleHeadLonger(s, t, r, s.marks[k] - s.passed, s.heads[k]);
      } else {
        NewestHead(t);
      }
    }
  }

  // ---------------------------------------------------------------- the consumer

  /** A prefix of the chunks that does not stop behind a gap is a layout of its own. */
  lemma {:induction false} LayoutPrefix(size: nat, buf: seq<Byte>, pos: nat, q: seq<Chunk>, n: nat)
    requires |buf| == size && Layout(size, buf, pos, q) && n <= |q| && (n > 0 ==> !q[n - 1].gap)
    ensures Layout(size, buf, pos, q[..n]) && Total(q[..n]) <= Total(q)
    decreases |q|
  {
    hide ChunkAt;
    if n > 0 {
      assert q[..n][0] == q[0] && q[..n][1..] == q[1..][..n - 1];
      assert n > 1 ==> q[..n][1] == q[1];
      LayoutPrefix(size, buf, Advance(size, pos, q[0].len), q[1..], n - 1);
    }
  }

  lemma LoadReads(s: State, n: nat, h: nat)
    requires MemoryInv(s) && StaleHead(s, n, h)
    ensures Readable(s.size, h, s.tail) == Total(s.chunks[..n])
    ensures Total(s.chunks[..n]) > 0 <==> n > 0
    ensures n > 0 && s.chunks[0].gap ==> s.tail + Total(s.chunks[..n]) > s.size
  {
    hide Payloads, SizeAt;
    var seen := s.chunks[..n];
    LayoutPrefix(s.size, s.buf, s.tail, s.chunks, n);
    EndFacts(s.size, s.buf, s.tail, seen);
    if n > 0 && s.chunks[0].gap {
      var rest := seen[1..];
      assert seen[0] == s.chunks[0];
      assert Layout(s.size, s.buf, 0, rest) && ChunkAt(s.buf, 0, rest[0]);
      assert Total(seen) == seen[0].len + (rest[0].len + Total(rest[1..]));
    }
  }

  lemma LoadKeeps(s: State, k: nat)
    requires Inv(s) && Enabled(s, ConsumerLoad(k))
    ensures Inv(Apply(s, ConsumerLoad(k)))
  {
    hide Layout, EndPos, Payloads, Total, Readable, TailsInv, HeadsInv, GapAt, SizeAt;
    HeadLoaded(s, k);
    LoadReads(s, s.marks[k] - s.passed, s.heads[k]);
    var t := Apply(s, ConsumerLoad(k));
    SameTails(s, t);
    LoadHeads(s, t, k);
  }

  lemma HeadLoaded(s: State, k: nat)
    requires HeadsInv(s) && s.seenHead <= k < |s.heads|
    ensures |s.marks| == |s.heads| && s.marks[k] >= s.passed && StaleHead(s, s.marks[k] - s.passed, s.heads[k])
  {
  }

  lemma LoadHeads(s: State, t: State, k: nat)
    requires HeadsInv(s) && s.seenHead <= k < |s.heads| && s.marks[k] >= s.passed
    requires t == s.(seenHead := k, consumer := t.consumer)
    requires t.consumer.CIdle? || s.marks[k] > s.passed
    ensures HeadsInv(t)
  {
    hide StaleHead;
    forall l | k <= l < |s.heads| ensures t.marks[l] >= t.passed && StaleHead(t, t.marks[l] - t.passed, t.heads[l]) {
      StaleHeadSame(s, t, s.marks[l] - s.passed, s.heads[l]);
    }
  }

  lemma StaleHeadPassed(s: State, t: State, n: nat, h: nat)
    requires StaleHead(s, n, h) && n > 0 && t.size == s.size && s.chunks != [] && t.chunks == s.chunks[1..]
    requires t.tail == Advance(s.size, s.tail, s.chunks[0].len)
    ensures StaleHead(t, n - 1, h) && (s.chunks[0].gap ==> n > 1)
  {
    assert s.chunks[..n][1..] == t.chunks[..n - 1] && s.chunks[..n][0] == s.chunks[0];
  }

  /** When the consumer passes the first chunk, every head it may still load is behind a later one. */
  lemma PassHeads(s: State, t: State)
    requires HeadsInv(s) && !s.consumer.CIdle? && s.chunks != [] && t.size == s.size && t.head == s.head
    requires t.heads == s.heads && t.marks == s.marks && t.seenHead == s.seenHead
    requires t.chunks == s.chunks[1..] && t.passed == s.passed + 1
    requires t.tail == Advance(s.size, s.tail, s.chunks[0].len)
    requires s.chunks[0].gap || t.consumer.CIdle?
    ensures HeadsInv(t)
  {
    hide StaleHead, EndPos;
    forall k | s.seenHead <= k < |t.heads|
      ensures t.marks[k] >= t.passed && StaleHead(t, t.marks[k] - t.passed, t.heads[k])
      ensures s.chunks[0].gap ==> t.marks[k] > t.passed
    {
      assert s.marks[s.seenHead] <= s.marks[k];
      StaleHeadPassed(s, t, s.marks[k] - s.passed, s.heads[k]);
    }
  }

  /** The new tail is the closest to the head so far. */
  lemma PassTails(s: State, t: State)
    requires TailsInv(s) && t.size == s.size && t.head == s.head && t.producer == s.producer && t.seenTail == s.seenTail
    requires t.tails == s.tails + [t.tail] && Total(t.chunks) <= Total(s.chunks)
    requires t.tail < t.size && Dist(t.size, t.tail, t.head) == Total(t.chunks)
    ensures TailsInv(t)
  {
    hide Total, Dist, Claim;
    forall k | s.seenTail <= k < |t.tails| ensures StaleTail(t, t.tails[k]) {
      if k < |s.tails| { assert StaleTail(s, s.tails[k]); }
    }
    forall k, l | s.seenTail <= k <= l < |t.tails|
      ensures Dist(t.size, t.tails[k], t.head) >= Dist(t.size, t.tails[l], t.head)
    {
      if k < |s.tails| { assert StaleTail(s, s.tails[k]); }
    }
  }

  /** Passing the first chunk: the rest of the layout stays. */
  lemma PassFirst(s: State)
    requires MemoryInv(s) && s.chunks != []
    ensures var c := s.chunks[0];
            && Layout(s.size, s.buf, Advance(s.size, s.tail, c.len), s.chunks[1..])
            && Advance(s.size, s.tail, c.len) < s.size && Advance(s.size, s.tail, c.len) % 8 == 0
            && EndPos(s.size, Advance(s.size, s.tail, c.len), s.chunks[1..]) == s.head
            && Total(s.chunks[1..]) < s.size
            && Payloads(s.chunks) == (if c.gap then [] else [c.payload]) + Payloads(s.chunks[1..])
            && s.tail + HEADER <= s.size && GapAt(s.buf, s.tail) == c.gap
            && (c.gap ==>
                  && Advance(s.size, s.tail, c.len) == 0 && c.len == s.size - s.tail
                  && |s.chunks| > 1 && !s.chunks[1].gap)
  {
    hide SizeAt, GapAt, Pad, Dist;
    var c, rest := s.chunks[0], s.chunks[1..];
    assert ChunkAt(s.buf, s.tail, c);
    assert Total(s.chunks) == c.len + Total(rest);
    assert |s.chunks| > 1 ==> s.chunks[1] == rest[0];
  }

  /** Fewer unread chunks leave at least as much room. */
  lemma RoomGrows(s: State, t: State)
    requires |s.buf| == s.size && |t.buf| == t.size && ProducerInv(s)
    requires t.buf == s.buf && t.head == s.head && t.size == s.size && t.producer == s.producer
    requires Total(t.chunks) <= Total(s.chunks)
    ensures ProducerInv(t)
  {
  }

  /** What passing the first chunk leaves, apart from the consumer's own state. */
  lemma PassKeeps(s: State, t: State)
    requires Inv(s) && !s.consumer.CIdle? && s.chunks != [] && (s.chunks[0].gap || t.consumer.CIdle?)
    requires t == Passed(s, Advance(s.size, s.tail, s.chunks[0].len)).(consumer := t.consumer, read := t.read)
    requires t.read == s.read + if s.chunks[0].gap then [] else [s.chunks[0].payload]
    ensures MemoryInv(t) && ProducerInv(t) && TailsInv(t) && HeadsInv(t)
  {
    hide Layout, EndPos, Payloads, GapAt, SizeAt, TailsInv, HeadsInv;
    PassFirst(s);
    RoomGrows(s, t);
    PassHeads(s, t);
    EndFacts(t.size, t.buf, t.tail, t.chunks);
    PassTails(s, t);
    assert t.written == t.read + Payloads(t.chunks);
  }

  lemma InspectKeeps(s: State)
    requires Inv(s) && Enabled(s, ConsumerInspect)
    ensures Fits(s, ConsumerInspect) && Inv(Apply(s, ConsumerInspect))
  {
    hide Layout, EndPos, Payloads, GapAt, SizeAt, Total, TailsInv, HeadsInv;
    PassFirst(s);
    var t := Apply(s, ConsumerInspect);
    if s.chunks[0].gap {
      assert t.read == s.read + [];
      PassKeeps(s, t);
    } else {
      SameTails(s, t);
      SameHeads(s, t);
    }
  }

  lemma ReadHeaderKeeps(s: State)
    requires Inv(s) && Enabled(s, ConsumerHeader)
    ensures Fits(s, ConsumerHeader) && Inv(Apply(s, ConsumerHeader))
  {
    hide EndPos, Payloads, Total, TailsInv, HeadsInv;
    assert ChunkAt(s.buf, s.tail, s.chunks[0]);
    SameTails(s, Apply(s, ConsumerHeader));
    SameHeads(s, Apply(s, ConsumerHeader));
  }

  lemma ReadByteKeeps(s: State)
    requires Inv(s) && Enabled(s, ConsumerRead)
    ensures Fits(s, ConsumerRead) && Inv(Apply(s, ConsumerRead))
  {
    hide EndPos, Payloads, Total, TailsInv, HeadsInv;
    var c, k := s.chunks[0], |s.consumer.got|;
    assert ChunkAt(s.buf, s.tail, c);
    assert s.buf[s.tail + HEADER + k] == c.payload[k];
    SameTails(s, Apply(s, ConsumerRead));
    SameHeads(s, Apply(s, ConsumerRead));
  }

  lemma AdvanceKeeps(s: State)
    requires Inv(s) && Enabled(s, ConsumerAdvance)
    ensures Fits(s, ConsumerAdvance) && Inv(Apply(s, ConsumerAdvance))
    ensures s.consumer.got == s.chunks[0].payload
  {
    hide EndPos, Payloads, GapAt, SizeAt, Total, TailsInv, HeadsInv;
    var c := s.chunks[0];
    assert ChunkAt(s.buf, s.tail, c);
    assert SizeAt(s.buf, s.tail) == |c.payload| && s.consumer.got == c.payload;
    PassKeeps(s, Apply(s, ConsumerAdvance));
  }

  // ---------------------------------------------------------------- every interleaving

  /** Every step that is enabled stays inside the buffer and keeps the invariant. */
  ghost function Next(s: State, step: Step): (t: State)
    requires Inv(s) && Enabled(s, step)
    ensures Inv(t)
  {
    StepKeeps(s, step);
    Apply(s, step)
  }

  /** The side conditions under which a step's accesses are those of the code. */
  ghost predicate Applicable(s: State, step: Step) {
    && InBounds(s) && Enabled(s, step) && Fits(s, step)
    && (step.ProducerHeader? ==> s.producer.written < WORD32)
    && (step.ProducerGap? ==> s.producer.gapd == 0 || HEADER <= s.producer.gapd)
    && (step.ProducerPublish? ==> ElementStart(s, s.producer.gapd) + HEADER + s.producer.written <= s.size)
  }

  lemma StepKeeps(s: State, step: Step)
    requires Inv(s) && Enabled(s, step)
    ensures Applicable(s, step) && Inv(Apply(s, step))
  {
    hide ProducerInv, ConsumerInv, TailsInv, HeadsInv, Layout, EndPos, Payloads, Total, Apply;
    match step {
      case ProducerRequest(minimum, k) => RequestKeeps(s, minimum, k);
      case ProducerWrite(k, b) => WriteKeeps(s, k, b);
      case ProducerGap(written) => GapKeeps(s, written);
      case ProducerHeader => HeaderKeeps(s);
      case ProducerPublish => PublishKeeps(s);
      case ConsumerLoad(k) => LoadKeeps(s, k);
      case ConsumerInspect => InspectKeeps(s);
      case ConsumerHeader => ReadHeaderKeeps(s);
      case ConsumerRead => ReadByteKeeps(s);
      case ConsumerAdvance => AdvanceKeeps(s);
    }
  }

  /** A schedule: each step is enabled where it is taken. */
  ghost predicate Schedule(s: State, steps: seq<Step>)
    requires Inv(s)
    decreases |steps|
  {
    steps == [] || (Enabled(s, steps[0]) && Schedule(Next(s, steps[0]), steps[1..]))
  }

  ghost function Run(s: State, steps: seq<Step>): State
    requires Inv(s) && Schedule(s, steps)
    decreases |steps|
  {
    if steps == [] then s else Run(Next(s, steps[0]), steps[1..])
  }

  lemma {:induction false} RunKeeps(s: State, steps: seq<Step>)
    requires Inv(s) && Schedule(s, steps)
    ensures Inv(Run(s, steps))
    decreases |steps|
  {
    hide Inv;
    if steps != [] { RunKeeps(Next(s, steps[0]), steps[1..]); }
  }

  lemma InitialInv(size: nat, buf: seq<Byte>)
    requires size > 0 && size % 8 == 0 && |buf| == size
    ensures Inv(Initial(size, buf))
  {
  }

  /** The ring as ringbuf_init leaves it, whatever the memory holds. */
  ghost function Start(size: nat, buf: seq<Byte>): (s: State)
    requires size > 0 && size % 8 == 0 && |buf| == size
    ensures Inv(s)
  {
    InitialInv(size, buf);
    Initial(size, buf)
  }

  /**
   * In every interleaving of the producer with the consumer, the payloads read are a prefix
   * of the payloads published, in order; what was published and not read is what the chunks
   * in the buffer hold.
   */
  lemma ReadsArePrefix(size: nat, buf: seq<Byte>, steps: seq<Step>)
    requires size > 0 && size % 8 == 0 && |buf| == size && Schedule(Start(size, buf), steps)
    ensures var t := Run(Start(size, buf), steps); t.read <= t.written && t.written == t.read + Payloads(t.chunks)
  {
    RunKeeps(Start(size, buf), steps);
  }

  /** A byte of a chunk that is published and not yet passed. */
  ghost predicate UnreadByte(s: State, x: nat) {
    x < s.size && Dist(s.size, s.tail, x) < Total(s.chunks)
  }

  /** The producer never writes a byte of an unread element or gap. */
  lemma NoOverwrite(s: State, step: Step, x: nat)
    requires Inv(s) && Enabled(s, step) && WriteRange(s, step).0 <= x < WriteRange(s, step).1
    ensures x < s.size && !UnreadByte(s, x)
  {
    hide Layout, EndPos, Payloads, Total;
    var p := s.producer;
    match step {
      case ProducerWrite(k, b) => BeyondHead(s, p.rsvd, p.gapd, x);
      case ProducerGap(written) => BeyondHead(s, p.rsvd, p.gapd, x);
      case ProducerHeader => BeyondHead(s, HEADER + Pad(p.written), p.gapd, x);
    }
  }

  /** The consumer only reads bytes of unread chunks, so no step races with the producer. */
  lemma ReadsOnlyUnread(s: State, step: Step, x: nat)
    requires Inv(s) && Enabled(s, step) && ReadRange(s, step).0 <= x < ReadRange(s, step).1
    ensures UnreadByte(s, x)
  {
    hide EndPos, Payloads, GapAt, SizeAt;
    assert ChunkAt(s.buf, s.tail, s.chunks[0]);
  }

  /** Both indices are multiples of 8 below the size, so a gap header always fits; equal indices mean an empty ring. */
  lemma IndexFacts(s: State)
    requires Inv(s)
    ensures s.head % 8 == 0 && s.tail % 8 == 0 && s.head + HEADER <= s.size && s.tail + HEADER <= s.size
    ensures s.head == s.tail <==> s.chunks == []
  {
    hide TailsInv, HeadsInv, ProducerInv, ConsumerInv, Payloads, Layout, Total, EndPos;
    EmptyTotal(s.size, s.buf, s.tail, s.chunks);
    EndFacts(s.size, s.buf, s.tail, s.chunks);
  }

  /** Every gap reaches the end of the buffer and is followed by an element at offset 0. */
  lemma {:induction false} GapThenElement(size: nat, buf: seq<Byte>, pos: nat, q: seq<Chunk>, k: nat)
    requires |buf| == size && Layout(size, buf, pos, q) && k < |q| && q[k].gap
    ensures k + 1 < |q| && !q[k + 1].gap && EndPos(size, pos, q[..k + 1]) == 0
    decreases |q|
  {
    if k == 0 {
      assert q[..1] == [q[0]] && [q[0]][1..] == [];
    } else {
      GapThenElement(size, buf, Advance(size, pos, q[0].len), q[1..], k - 1);
      assert q[..k + 1][1..] == q[1..][..k];
    }
  }

  /** An empty ring accepts every message whose padded size is at most half of the ring. */
  lemma EmptyAccepts(s: State, minimum: nat)
    requires Inv(s) && s.chunks == [] && 2 * (2 * HEADER + Pad(minimum)) <= s.size
    ensures Request(s.size, s.head, s.tail, minimum).Granted?
  {
  }

  /**
   * A request for a given minimum can be trusted, whatever ring and indices it meets, exactly when the
   * 32-bit mask does not wrap its padding.
   */
  lemma GrantCovers(minimum: nat)
    ensures (forall size: nat, head: nat, tail: nat |
              size % 8 == 0 && head < size && tail < size && Request(size, head, tail, minimum).Granted? ::
              2 * HEADER + minimum <= Request(size, head, tail, minimum).rsvd)
       <==> minimum + 7 < WORD32
  {
    if minimum + 7 < WORD32 {
      PadFacts(minimum);
    } else {
      var size := 2 * HEADER + Pad(minimum) + 8;
      assert Request(size, 0, 0, minimum).Granted?;
    }
  }

  /** A byte of the buffer that is neither unread nor part of the gap in front. */
  ghost predicate CleanByte(s: State, gapd: nat, x: nat) {
    x < s.size && !UnreadByte(s, x) && (gapd > 0 ==> x < s.head)
  }

  /** An advance writes, as header and padded payload, clean bytes only, and leaves the ring not empty. */
  ghost predicate Clean(s: State, written: nat, gapd: nat) {
    var e := ElementStart(s, gapd);
    && (forall x | e <= x < e + HEADER + Pad(written) :: CleanByte(s, gapd, x))
    && Advance(s.size, s.head, gapd + HEADER + Pad(written)) != s.tail
  }

  lemma Overrun(s: State, minimum: nat, written: nat)
    requires Inv(s) && written + 7 < WORD32 && Request(s.size, s.head, s.tail, minimum).Granted?
    requires HEADER + Pad(written) > Request(s.size, s.head, s.tail, minimum).rsvd
    ensures !Clean(s, written, Request(s.size, s.head, s.tail, minimum).gapd)
  {
    hide Layout, EndPos, Payloads, Pad, Total, TailsInv, HeadsInv, ProducerInv, ConsumerInv;
    var g := Request(s.size, s.head, s.tail, minimum);
    var len, e := HEADER + Pad(written), ElementStart(s, g.gapd);
    PadFacts(written);
    EndFacts(s.size, s.buf, s.tail, s.chunks);
    IndexFacts(s);
    var x := if s.head < s.tail || g.gapd > 0 then s.tail else s.size;
    if e <= x < e + len {
      assert !CleanByte(s, g.gapd, x);
    } else {
      assert Advance(s.size, s.head, g.gapd + len) == s.tail;
    }
  }

  /**
   * How much an advance tolerates after a grant from the present tail: the element overwrites nothing
   * and does not make the ring look empty exactly when it fits the reservation together with its header.
   */
  lemma AdvanceTolerates(s: State, minimum: nat, written: nat)
    requires Inv(s) && written + 7 < WORD32 && Request(s.size, s.head, s.tail, minimum).Granted?
    ensures var g := Request(s.size, s.head, s.tail, minimum);
      Clean(s, written, g.gapd) <==> HEADER + Pad(written) <= g.rsvd
  {
    hide Layout, EndPos, Payloads, Pad, Total, TailsInv, HeadsInv, ProducerInv, ConsumerInv;
    var g := Request(s.size, s.head, s.tail, minimum);
    var len, e := HEADER + Pad(written), ElementStart(s, g.gapd);
    PadFacts(written);
    EndFacts(s.size, s.buf, s.tail, s.chunks);
    IndexFacts(s);
    GrantSpace(s, minimum, s.tail);
    if len <= g.rsvd {
      forall x | e <= x < e + len ensures CleanByte(s, g.gapd, x) {
        BeyondHead(s, g.rsvd, g.gapd, x);
      }
    } else {
      Overrun(s, minimum, written);
    }
  }

  /** The assertion in the code is too weak: an element as long as the reservation is never tolerated. */
  lemma AssertionTooWeak(s: State, minimum: nat)
    requires Inv(s) && Request(s.size, s.head, s.tail, minimum).Granted?
    requires Request(s.size, s.head, s.tail, minimum).rsvd + 7 < WORD32
    ensures var g := Request(s.size, s.head, s.tail, minimum); !Clean(s, g.rsvd, g.gapd)
  {
    hide Clean, Request, Layout, EndPos, Payloads, Total, TailsInv, HeadsInv, ProducerInv, ConsumerInv;
    var rsvd := Request(s.size, s.head, s.tail, minimum).rsvd;
    PadFacts(rsvd);
    AdvanceTolerates(s, minimum, rsvd);
  }

  /** Where the reservation ends before the tail, such an element writes over the first unread byte. */
  lemma FullWriteOverwrites(s: State, minimum: nat)
    requires Inv(s) && s.chunks != [] && Request(s.size, s.head, s.tail, minimum).Granted?
    requires s.head < s.tail || Request(s.size, s.head, s.tail, minimum).gapd > 0
    ensures var g := Request(s.size, s.head, s.tail, minimum);
      var payload := ElementStart(s, g.gapd) + HEADER;
      payload <= s.tail < payload + g.rsvd && UnreadByte(s, s.tail)
  {
    hide Layout, EndPos, Payloads, Pad, Total, TailsInv, HeadsInv, ProducerInv, ConsumerInv;
    EndFacts(s.size, s.buf, s.tail, s.chunks);
    IndexFacts(s);
  }

  /** A request for almost 4 GiB is granted by an empty ring of 64 bytes: the padding wraps to 0. */
  lemma PaddingWraps()
    ensures Request(64, 0, 0, WORD32 - 7) == Granted(63, 0)
  {
  }

  // ---------------------------------------------------------------- sizing

  ghost predicate IsPow2(n: nat) {
    n == 1 || (n > 1 && n % 2 == 0 && IsPow2(n / 2))
  }

  /** ringbuf_body_size: the smallest power of two that is at least minimum. */
  method BodySize(minimum: nat) returns (size: nat)
    ensures IsPow2(size) && minimum <= size && (size == 1 || size < 2 * minimum)
    ensures size >= 8 ==> size % 8 == 0
  {
    size := 1;
    while size < minimum
      invariant IsPow2(size) && (size == 1 || size < 2 * minimum)
      decreases minimum - size
    {
      size := size * 2;
    }
    if size >= 8 { Pow2MultipleOf8(size); }
  }

  /** A power of two of at least 8 is a multiple of 8, as the ring needs. */
  lemma {:induction false} Pow2MultipleOf8(n: nat)
    requires IsPow2(n) && n >= 8
    ensures n % 8 == 0
  {
    var a := n / 2;
    assert n == 2 * a && IsPow2(a);
    if n >= 16 {
      Pow2MultipleOf8(a);
    } else {
      var b := a / 2;
      assert a == 2 * b && IsPow2(b);
      assert b % 2 == 0;
    }
  }

  /** In every reachable state, whatever either side may load is fit to compute from. */
  lemma LoadsAreStale(s: State, k: nat, l: nat)
    requires Inv(s) && s.seenTail <= k < |s.tails| && s.seenHead <= l < |s.heads|
    ensures StaleTail(s, s.tails[k])
    ensures s.marks[l] >= s.passed && StaleHead(s, s.marks[l] - s.passed, s.heads[l])
    ensures s.tails[|s.tails| - 1] == s.tail && s.heads[|s.heads| - 1] == s.head
  {
  }
}
