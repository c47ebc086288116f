/** What the ring does, beyond what it never does: requests are refused only for lack of room, and data gets through. */
module SpscProgress {
  import opened SpscRing
  import opened SpscProofs

  // ---------------------------------------------------------------- requests

  /** With up-to-date indices, a request is refused exactly when no reservation of the needed length would fit. */
  lemma RefusedExactly(s: State, minimum: nat)
    requires Inv(s)
    ensures Request(s.size, s.head, s.tail, minimum).Refused? <==>
      forall len: nat, gapd: nat | len >= 2 * HEADER + Pad(minimum) :: !Space(s, len, gapd)
  {
    hide Layout, EndPos, Payloads, Pad, Total, TailsInv, HeadsInv, ProducerInv, ConsumerInv;
    var padded := 2 * HEADER + Pad(minimum);
    EndFacts(s.size, s.buf, s.tail, s.chunks);
    IndexFacts(s);
    var g := Request(s.size, s.head, s.tail, minimum);
    if g.Granted? {
      GrantSpace(s, minimum, s.tail);
      GrantLong(s.size, s.head, s.tail, minimum);
      assert Space(s, g.rsvd, g.gapd);
    } else {
      forall len: nat, gapd: nat | len >= padded ensures !Space(s, len, gapd) {
        NoSpace(s, minimum, len, gapd);
      }
    }
  }

  lemma GrantLong(size: nat, head: nat, tail: nat, minimum: nat)
    requires head < size && tail < size && Request(size, head, tail, minimum).Granted?
    ensures Request(size, head, tail, minimum).rsvd >= 2 * HEADER + Pad(minimum)
  {
    hide Pad;
  }

  lemma NoSpace(s: State, minimum: nat, len: nat, gapd: nat)
    requires Inv(s) && Request(s.size, s.head, s.tail, minimum).Refused? && len >= 2 * HEADER + Pad(minimum)
    ensures !Space(s, len, gapd)
  {
    hide Layout, EndPos, Payloads, Pad, Total, TailsInv, HeadsInv, ProducerInv, ConsumerInv;
    EndFacts(s.size, s.buf, s.tail, s.chunks);
    IndexFacts(s);
  }

  /** The steps admit exactly the advances that are harmless. */
  lemma AdvanceEnabledExactly(s: State, minimum: nat, written: nat)
    requires Inv(s) && s.producer.PIdle? && written + 7 < WORD32
    requires Request(s.size, s.head, s.tail, minimum).Granted?
    ensures s.seenTail < |s.tails| && Enabled(s, ProducerRequest(minimum, |s.tails| - 1))
    ensures var t := Next(s, ProducerRequest(minimum, |s.tails| - 1));
      Enabled(t, ProducerGap(written)) <==> Clean(s, written, Request(s.size, s.head, s.tail, minimum).gapd)
  {
    hide MemoryInv, ProducerInv, ConsumerInv, TailsInv, HeadsInv, Clean, Request, Pad;
    NewestTail(s);
    AdvanceTolerates(s, minimum, written);
  }

  /** A load shows data exactly when something was published between the consumer's place and the head it yields. */
  lemma LoadSees(s: State, k: nat)
    requires Inv(s) && s.consumer.CIdle? && s.seenHead <= k < |s.heads|
    ensures Enabled(s, ConsumerLoad(k)) && k < |s.marks|
    ensures Next(s, ConsumerLoad(k)).consumer.CSeen? <==> s.marks[k] > s.passed
  {
    hide Layout, EndPos, Payloads, Total, Readable, TailsInv, HeadsInv, GapAt, SizeAt, ProducerInv, ConsumerInv;
    HeadLoaded(s, k);
    LoadReads(s, s.marks[k] - s.passed, s.heads[k]);
  }

  // ---------------------------------------------------------------- a reachable overrun

  /** Whose steps a schedule may take. */
  datatype Side = Anyone | OnlyProducer | OnlyConsumer

  predicate Of(step: Step, side: Side) {
    var consumer := step.ConsumerLoad? || step.ConsumerInspect? || step.ConsumerHeader? || step.ConsumerRead?
      || step.ConsumerAdvance?;
    match side
    case Anyone => true
    case OnlyProducer => !consumer
    case OnlyConsumer => consumer
  }

  ghost predicate Reaches(s: State, t: State, side: Side)
    requires Inv(s)
  {
    exists steps :: Schedule(s, steps) && Run(s, steps) == t && forall k | 0 <= k < |steps| :: Of(steps[k], side)
  }

  lemma {:induction false} RunAppend(s: State, steps: seq<Step>, step: Step)
    requires Inv(s) && Schedule(s, steps) && Inv(Run(s, steps)) && Enabled(Run(s, steps), step)
    ensures Schedule(s, steps + [step]) && Run(s, steps + [step]) == Next(Run(s, steps), step)
    decreases |steps|
  {
    hide Inv, Enabled, Apply;
    if steps == [] {
      assert steps + [step] == [step] && [step][1..] == [];
    } else {
      assert (steps + [step])[0] == steps[0] && (steps + [step])[1..] == steps[1..] + [step];
      RunAppend(Next(s, steps[0]), steps[1..], step);
    }
  }

  lemma ReachNext(s: State, t: State, step: Step, side: Side)
    requires Inv(s) && Reaches(s, t, side) && Inv(t) && Enabled(t, step) && Of(step, side)
    ensures Reaches(s, Next(t, step), side)
  {
    hide Inv, Enabled, Apply, Schedule, Run, Of;
    var steps :| Schedule(s, steps) && Run(s, steps) == t && forall k | 0 <= k < |steps| :: Of(steps[k], side);
    RunAppend(s, steps, step);
    assert forall k | 0 <= k < |steps + [step]| :: Of((steps + [step])[k], side);
  }

  lemma ReachSelf(s: State, side: Side)
    requires Inv(s)
    ensures Reaches(s, s, side)
  {
    hide Inv;
    assert Schedule(s, []) && Run(s, []) == s;
  }

  /** Both sides idle, and the newest indices loadable. */
  ghost predicate Resting(s: State) {
    && Inv(s) && s.producer.PIdle? && s.consumer.CIdle?
    && s.seenTail < |s.tails| && s.tails[|s.tails| - 1] == s.tail
    && s.seenHead < |s.heads| && s.heads[|s.heads| - 1] == s.head
  }

  lemma RestingIs(s: State)
    requires Inv(s) && s.producer.PIdle? && s.consumer.CIdle?
    ensures Resting(s)
  {
  }

  /** One element written and published, in place of a reservation that needs no gap. */
  lemma PublishOne(s0: State, s: State, written: nat) returns (t: State)
    requires Inv(s0) && Resting(s) && Reaches(s0, s, Anyone) && written + 7 < WORD32
    requires Request(s.size, s.head, s.tail, 0).Granted? && Request(s.size, s.head, s.tail, 0).gapd == 0
    requires HEADER + Pad(written) <= Request(s.size, s.head, s.tail, 0).rsvd
    ensures Resting(t) && Reaches(s0, t, Anyone) && t.size == s.size && t.tail == s.tail
    ensures t.head == Advance(s.size, s.head, HEADER + Pad(written)) && |t.chunks| == |s.chunks| + 1
    ensures t.chunks[|s.chunks|].payload == [] || written > 0
    ensures !t.chunks[|s.chunks|].gap && t.chunks[..|s.chunks|] == s.chunks
  {
    hide MemoryInv, ProducerInv, ConsumerInv, TailsInv, HeadsInv, Pad, Request, Reaches, Patch, ElementHeader;
    InvBounds(s);
    var request := ProducerRequest(0, |s.tails| - 1);
    var t1 := Next(s, request);
    ReachNext(s0, s, request, Anyone);
    InvBounds(t1);
    var t2 := Next(t1, ProducerGap(written));
    ReachNext(s0, t1, ProducerGap(written), Anyone);
    InvBounds(t2);
    var t3 := Next(t2, ProducerHeader);
    ReachNext(s0, t2, ProducerHeader, Anyone);
    InvBounds(t3);
    t := Next(t3, ProducerPublish);
    ReachNext(s0, t3, ProducerPublish, Anyone);
    RestingIs(t);
    StepKeeps(t3, ProducerPublish);
    var r := NewChunks(t3, written, 0);
    assert t.chunks == s.chunks + r && |r[0].payload| == written;
  }

  lemma InvBounds(s: State)
    requires Inv(s)
    ensures InBounds(s)
  {
  }

  /** An empty element read and passed. */
  lemma PassEmpty(s0: State, s: State) returns (t: State)
    requires Inv(s0) && Resting(s) && Reaches(s0, s, Anyone) && s.tail + HEADER < s.size
    requires |s.chunks| == 1 && s.chunks[0].payload == [] && !s.chunks[0].gap
    ensures Resting(t) && Reaches(s0, t, Anyone) && t.size == s.size && t.head == s.head && t.chunks == []
  {
    hide MemoryInv, ProducerInv, ConsumerInv, TailsInv, HeadsInv, Pad, Reaches, GapAt, SizeAt;
    InvBounds(s);
    var load := ConsumerLoad(|s.heads| - 1);
    var t1 := Next(s, load);
    ReachNext(s0, s, load, Anyone);
    SeesOne(s);
    InvBounds(t1);
    NoGapFirst(t1);
    var t2 := Next(t1, ConsumerInspect);
    ReachNext(s0, t1, ConsumerInspect, Anyone);
    InvBounds(t2);
    EmptyFirst(t2);
    var t3 := Next(t2, ConsumerHeader);
    ReachNext(s0, t2, ConsumerHeader, Anyone);
    InvBounds(t3);
    t := Next(t3, ConsumerAdvance);
    ReachNext(s0, t3, ConsumerAdvance, Anyone);
    RestingIs(t);
  }

  lemma SeesOne(s: State)
    requires Inv(s) && |s.chunks| == 1
    ensures s.head < s.size && s.tail < s.size && Readable(s.size, s.head, s.tail) > 0
  {
    hide TailsInv, HeadsInv, ProducerInv, ConsumerInv, MemoryInv;
    IndexFacts(s);
    InvBounds(s);
  }

  lemma NoGapFirst(s: State)
    requires Inv(s) && s.chunks != [] && !s.chunks[0].gap
    ensures s.tail + HEADER <= s.size && !GapAt(s.buf, s.tail)
  {
    hide TailsInv, HeadsInv, ProducerInv, ConsumerInv;
    assert ChunkAt(s.buf, s.tail, s.chunks[0]);
  }

  lemma EmptyFirst(s: State)
    requires Inv(s) && s.chunks != [] && !s.chunks[0].gap && s.chunks[0].payload == []
    ensures s.tail + HEADER <= s.size && SizeAt(s.buf, s.tail) == 0
  {
    hide TailsInv, HeadsInv, ProducerInv, ConsumerInv;
    assert ChunkAt(s.buf, s.tail, s.chunks[0]);
  }

  /** An element of no bytes published at h and passed: both indices move on by 8. */
  lemma Hop(s0: State, s: State, h: nat) returns (t: State)
    requires Inv(s0) && Resting(s) && Reaches(s0, s, Anyone) && s.size == 64 && s.head == s.tail == h && s.chunks == []
    requires h % 8 == 0 && h <= 16
    ensures Resting(t) && Reaches(s0, t, Anyone) && t.size == 64 && t.head == t.tail == h + 8 && t.chunks == []
  {
    hide MemoryInv, ProducerInv, ConsumerInv, TailsInv, HeadsInv, Reaches;
    assert Pad(0) == 0;
    var t1 := PublishOne(s0, s, 0);
    t := PassEmpty(s0, t1);
    EmptyIndices(t);
  }

  lemma EmptyIndices(s: State)
    requires Inv(s) && s.chunks == []
    ensures s.head == s.tail
  {
    hide TailsInv, HeadsInv, ProducerInv, ConsumerInv;
    IndexFacts(s);
  }

  /**
   * From a fresh ring of 64 bytes a state is reached in which an element as long as the reservation, which
   * the assertion admits, writes over the first unread byte.
   */
  lemma OverwriteReached(buf: seq<Byte>) returns (t: State)
    requires |buf| == 64
    ensures Reaches(Start(64, buf), t, Anyone) && Inv(t) && t.producer.PIdle?
    ensures Request(t.size, t.head, t.tail, 0) == Granted(23, 8)
    ensures UnreadByte(t, t.tail) && ElementStart(t, 8) + HEADER <= t.tail < ElementStart(t, 8) + HEADER + 23
  {
    hide MemoryInv, ProducerInv, ConsumerInv, TailsInv, HeadsInv, Reaches;
    var s := Start(64, buf);
    ReachSelf(s, Anyone);
    RestingIs(s);
    var a := Hop(s, s, 0);
    var b := Hop(s, a, 8);
    var c := Hop(s, b, 16);
    assert Pad(24) == 24;
    t := PublishOne(s, c, 24);
    FullWriteOverwrites(t, 0);
  }

  // ---------------------------------------------------------------- what is unread gets read

  /** The rest of an element, byte by byte. */
  lemma {:induction false} ReadAll(s0: State, s: State) returns (t: State)
    requires Inv(s0) && Inv(s) && Reaches(s0, s, OnlyConsumer) && s.consumer.CReading?
    requires |s.consumer.got| <= s.consumer.toread
    ensures Inv(t) && Reaches(s0, t, OnlyConsumer) && t.consumer.CReading? && |t.consumer.got| == t.consumer.toread
    ensures t == s.(consumer := t.consumer)
    decreases s.consumer.toread - |s.consumer.got|
  {
    hide MemoryInv, ProducerInv, ConsumerInv, TailsInv, HeadsInv, Reaches;
    if |s.consumer.got| == s.consumer.toread {
      t := s;
    } else {
      InvBounds(s);
      ReachNext(s0, s, ConsumerRead, OnlyConsumer);
      t := ReadAll(s0, Next(s, ConsumerRead));
    }
  }

  /** From the start of the first chunk to the element to read: a gap, if there is one, is passed. */
  lemma ToElement(s0: State, s: State) returns (t: State)
    requires Inv(s0) && Inv(s) && Reaches(s0, s, OnlyConsumer) && s.consumer.CIdle? && s.chunks != []
    ensures Inv(t) && Reaches(s0, t, OnlyConsumer) && t.consumer.CAtElement?
    ensures t.read == s.read && t.written == s.written && t.producer == s.producer
    ensures t.chunks == if s.chunks[0].gap then s.chunks[1..] else s.chunks
  {
    hide MemoryInv, ProducerInv, ConsumerInv, TailsInv, HeadsInv, Reaches, GapAt, SizeAt;
    NewestLoad(s);
    var load := ConsumerLoad(|s.heads| - 1);
    LoadSees(s, |s.heads| - 1);
    InvBounds(s);
    var t1 := Next(s, load);
    ReachNext(s0, s, load, OnlyConsumer);
    InvBounds(t1);
    FirstGap(t1);
    t := Next(t1, ConsumerInspect);
    ReachNext(s0, t1, ConsumerInspect, OnlyConsumer);
  }

  lemma NewestLoad(s: State)
    requires Inv(s)
    ensures |s.heads| == |s.marks| && s.seenHead < |s.heads|
    ensures s.marks[|s.marks| - 1] == s.passed + |s.chunks|
  {
  }

  /** The inspection finds a gap header exactly where the first chunk is a gap. */
  lemma FirstGap(s: State)
    requires Inv(s) && s.consumer.CSeen?
    ensures s.chunks != [] && s.tail + HEADER <= s.size
    ensures s.consumer.wraps && GapAt(s.buf, s.tail) <==> s.chunks[0].gap
  {
    hide TailsInv, HeadsInv, ProducerInv;
    assert ChunkAt(s.buf, s.tail, s.chunks[0]);
  }

  /**
   * Whatever the producer does or leaves undone: from every state with unread data and an idle consumer, the
   * consumer's own steps alone lead to a state in which exactly the first unread payload has been read.
   */
  lemma Delivers(s: State) returns (t: State)
    requires Inv(s) && s.consumer.CIdle? && Payloads(s.chunks) != []
    ensures Reaches(s, t, OnlyConsumer) && Inv(t) && t.consumer.CIdle?
    ensures t.read == s.read + [Payloads(s.chunks)[0]] && t.written == s.written && t.producer == s.producer
    ensures Payloads(t.chunks) == Payloads(s.chunks)[1..]
  {
    hide MemoryInv, ProducerInv, ConsumerInv, TailsInv, HeadsInv, Reaches, GapAt, SizeAt, Layout;
    ReachSelf(s, OnlyConsumer);
    var t1 := ToElement(s, s);
    FirstUnread(s, t1);
    InvBounds(t1);
    var t2 := Next(t1, ConsumerHeader);
    ReachNext(s, t1, ConsumerHeader, OnlyConsumer);
    var t3 := ReadAll(s, t2);
    InvBounds(t3);
    ReadWhole(t3);
    t := Next(t3, ConsumerAdvance);
    ReachNext(s, t3, ConsumerAdvance, OnlyConsumer);
    assert t.chunks == t1.chunks[1..];
  }

  lemma FirstUnread(s: State, t: State)
    requires Inv(s) && Inv(t) && s.chunks != [] && Payloads(s.chunks) != [] && t.consumer.CAtElement?
    requires t.chunks == if s.chunks[0].gap then s.chunks[1..] else s.chunks
    ensures t.chunks != [] && !t.chunks[0].gap && t.chunks[0].payload == Payloads(s.chunks)[0]
    ensures Payloads(t.chunks[1..]) == Payloads(s.chunks)[1..]
  {
    hide MemoryInv, ProducerInv, TailsInv, HeadsInv;
    assert Payloads(t.chunks) == Payloads(s.chunks);
  }

  lemma ReadWhole(s: State)
    requires Inv(s) && s.consumer.CReading? && |s.consumer.got| == s.consumer.toread
    ensures s.chunks != [] && s.consumer.got == s.chunks[0].payload
  {
    hide MemoryInv, ProducerInv, TailsInv, HeadsInv;
  }

  // ---------------------------------------------------------------- what fits gets published

  /** The first k bytes of the payload stand in their places. */
  ghost predicate Filled(s: State, payload: seq<Byte>, k: nat) {
    && s.producer.PReserved? && |s.buf| == s.size && k <= |payload| && HEADER + |payload| <= s.producer.rsvd
    && ElementStart(s, s.producer.gapd) + HEADER + |payload| <= s.size
    && var a := ElementStart(s, s.producer.gapd) + HEADER; s.buf[a..a + k] == payload[..k]
  }

  lemma {:induction false} FillAll(s0: State, s: State, payload: seq<Byte>, k: nat) returns (t: State)
    requires Inv(s0) && Inv(s) && Reaches(s0, s, OnlyProducer) && Filled(s, payload, k)
    ensures Inv(t) && Reaches(s0, t, OnlyProducer) && Filled(t, payload, |payload|)
    ensures t == s.(buf := t.buf)
    decreases |payload| - k
  {
    hide MemoryInv, ProducerInv, ConsumerInv, TailsInv, HeadsInv, Reaches;
    if k == |payload| {
      t := s;
    } else {
      InvBounds(s);
      var write := ProducerWrite(k, payload[k]);
      var s1 := Next(s, write);
      ReachNext(s0, s, write, OnlyProducer);
      FilledNext(s, s1, payload, k);
      t := FillAll(s0, s1, payload, k + 1);
    }
  }

  lemma FilledNext(s: State, t: State, payload: seq<Byte>, k: nat)
    requires Filled(s, payload, k) && k < |payload|
    requires t == s.(buf := s.buf[ElementStart(s, s.producer.gapd) + HEADER + k := payload[k]])
    ensures Filled(t, payload, k + 1)
  {
    var a := ElementStart(s, s.producer.gapd) + HEADER;
    assert t.buf[a..a + k] == s.buf[a..a + k];
    assert t.buf[a..a + k + 1] == t.buf[a..a + k] + [payload[k]];
    assert payload[..k + 1] == payload[..k] + [payload[k]];
  }

  lemma ReservedFits(s: State, payload: seq<Byte>)
    requires Inv(s) && s.producer.PReserved? && s.producer.rsvd >= 2 * HEADER + Pad(|payload|) && |payload| + 7 < WORD32
    ensures Filled(s, payload, 0) && HEADER + Pad(|payload|) <= s.producer.rsvd
    ensures s.producer.gapd > 0 ==> HEADER + |payload| <= s.head
  {
    hide TailsInv, HeadsInv, ConsumerInv, Layout, EndPos, Payloads;
    PadFacts(|payload|);
    var a := ElementStart(s, s.producer.gapd) + HEADER;
    assert s.buf[a..a + 0] == payload[..0];
  }

  /** The two header writes leave the payload alone. */
  lemma HeadersBeside(buf: seq<Byte>, gapAt: nat, gap: seq<Byte>, e: nat, header: seq<Byte>, n: nat)
    requires |gap| == HEADER && |header| == HEADER && gapAt + HEADER <= |buf| && e + HEADER + n <= |buf|
    requires gapAt == e || e + HEADER + n <= gapAt
    ensures Patch(Patch(buf, gapAt, gap), e, header)[e + HEADER..e + HEADER + n] == buf[e + HEADER..e + HEADER + n]
    ensures Patch(buf, e, header)[e + HEADER..e + HEADER + n] == buf[e + HEADER..e + HEADER + n]
  {
    SliceFrame(buf, Patch(buf, e, header), e + HEADER, e + HEADER + n);
    SliceFrame(buf, Patch(Patch(buf, gapAt, gap), e, header), e + HEADER, e + HEADER + n);
  }

  /**
   * Whatever the consumer does or leaves undone: a message for which there is room can be published by the
   * producer's own steps alone, and exactly its bytes are what is published.
   */
  lemma Publishes(s: State, payload: seq<Byte>, len: nat, gapd: nat) returns (t: State)
    requires Inv(s) && s.producer.PIdle? && |payload| + 7 < WORD32
    requires len >= 2 * HEADER + Pad(|payload|) && Space(s, len, gapd)
    ensures Reaches(s, t, OnlyProducer) && Inv(t) && t.producer.PIdle?
    ensures t.written == s.written + [payload] && t.read == s.read && t.consumer == s.consumer
  {
    hide MemoryInv, ProducerInv, ConsumerInv, TailsInv, HeadsInv, Reaches, Request, Pad, Layout, Space, Filled,
      ElementHeader, Patch;
    NewestTail(s);
    RefusedExactly(s, |payload|);
    assert Request(s.size, s.head, s.tail, |payload|).Granted?;
    GrantLong(s.size, s.head, s.tail, |payload|);
    ReachSelf(s, OnlyProducer);
    var request := ProducerRequest(|payload|, |s.tails| - 1);
    var t1 := Next(s, request);
    ReachNext(s, s, request, OnlyProducer);
    ReservedFits(t1, payload);
    var t2 := FillAll(s, t1, payload, 0);
    t := PublishFilled(s, t2, payload);
  }

  lemma NewestTail(s: State)
    requires Inv(s)
    ensures InBounds(s) && s.seenTail < |s.tails| && s.tails[|s.tails| - 1] == s.tail
  {
  }

  lemma PublishFilled(s0: State, s: State, payload: seq<Byte>) returns (t: State)
    requires Inv(s0) && Inv(s) && Reaches(s0, s, OnlyProducer) && Filled(s, payload, |payload|)
    requires |payload| + 7 < WORD32 && HEADER + Pad(|payload|) <= s.producer.rsvd
    requires s.producer.gapd > 0 ==> HEADER + |payload| <= s.head
    ensures Reaches(s0, t, OnlyProducer) && Inv(t) && t.producer.PIdle?
    ensures t.written == s.written + [payload] && t.read == s.read && t.consumer == s.consumer
  {
    hide MemoryInv, ProducerInv, ConsumerInv, TailsInv, HeadsInv, Reaches, Pad, Layout, ElementHeader, Patch, ChunkAt;
    var n, gapd := |payload|, s.producer.gapd;
    var e := ElementStart(s, gapd);
    InvBounds(s);
    StepKeeps(s, ProducerGap(n));
    var t1 := Next(s, ProducerGap(n));
    ReachNext(s0, s, ProducerGap(n), OnlyProducer);
    InvBounds(t1);
    StepKeeps(t1, ProducerHeader);
    var t2 := Next(t1, ProducerHeader);
    ReachNext(s0, t1, ProducerHeader, OnlyProducer);
    InvBounds(t2);
    StepKeeps(t2, ProducerPublish);
    t := Next(t2, ProducerPublish);
    ReachNext(s0, t2, ProducerPublish, OnlyProducer);
    var header := ElementHeader(n, false);
    if gapd > 0 {
      HeadersBeside(s.buf, s.head, ElementHeader((gapd - HEADER) % WORD32, true), e, header, n);
    } else {
      HeadersBeside(s.buf, e, header, e, header, n);
    }
    assert t2.buf[e + HEADER..e + HEADER + n] == s.buf[e + HEADER..e + HEADER + n] == payload[..n] == payload;
  }
}
