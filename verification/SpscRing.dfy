/**
 * The lock-free single-producer/single-consumer ring buffer with gap elements, as a system
 * of interleaved steps over shared memory: one atomic load, buffer write, buffer read or
 * index store at a time.
 */
module SpscRing {

  type Byte = x: int | 0 <= x < 256

  const HEADER := 8
  const WORD32 := 0x1_0000_0000

  /** RINGBUF_PAD: round up to a multiple of 8, through a 32-bit mask. */
  function Pad(n: nat): nat {
    (n + 7) % WORD32 / 8 * 8
  }

  // ---------------------------------------------------------------- requests

  datatype Reservation = Refused | Granted(rsvd: nat, gapd: nat)

  /** ringbuf_write_request_max, from the two indices it loads. */
  function Request(size: nat, head: nat, tail: nat, minimum: nat): Reservation
    requires head < size && tail < size
  {
    var padded := 2 * HEADER + Pad(minimum);
    var space :=
      if head > tail then tail - head + size - 1
      else if head < tail then tail - head - 1
      else size - 1;
    var end := head + space;
    if end > size then
      var len1 := size - head;
      if len1 < padded then
        var len2 := end - size;
        if len2 < padded then Refused else Granted(len2, len1)
      else Granted(len1, 0)
    else if space < padded then Refused
    else Granted(space, 0)
  }

  /** ringbuf_read_request's view of the indices: how many bytes are readable. */
  function Readable(size: nat, head: nat, tail: nat): nat
    requires head < size && tail < size
  {
    if head >= tail then head - tail else head - tail + size
  }

  /** (position + n) & mask, for positions that advance by at most one lap */
  function Advance(size: nat, position: nat, n: nat): nat
  {
    if position + n >= size then position + n - size else position + n
  }

  // ---------------------------------------------------------------- element headers

  function Encode32(n: nat): (r: seq<Byte>)
    requires n < WORD32
    ensures |r| == 4
  {
    [n % 256, n / 256 % 256, n / 65536 % 256, n / 16777216]
  }

  function Decode32(r: seq<Byte>): nat
    requires |r| == 4
  {
    r[0] as int + 256 * r[1] as int + 65536 * r[2] as int + 16777216 * r[3] as int
  }

  lemma DecodeEncode(n: nat)
    requires n < WORD32
    ensures Decode32(Encode32(n)) == n
  {
    var a, b := n / 256, n / 65536;
    assert n == 256 * a + n % 256;
    assert b == a / 256 && a == 256 * b + a % 256;
    assert n / 16777216 == b / 256 && b == 256 * (b / 256) + b % 256;
  }

  function ElementHeader(size: nat, gap: bool): (r: seq<Byte>)
    requires size < WORD32
    ensures |r| == HEADER
  {
    Encode32(size) + Encode32(if gap then 1 else 0)
  }

  function SizeAt(buf: seq<Byte>, pos: nat): nat
    requires pos + HEADER <= |buf|
  {
    Decode32(buf[pos..pos + 4])
  }

  predicate GapAt(buf: seq<Byte>, pos: nat)
    requires pos + HEADER <= |buf|
  {
    Decode32(buf[pos + 4..pos + 8]) != 0
  }

  function Patch(buf: seq<Byte>, pos: nat, bytes: seq<Byte>): (r: seq<Byte>)
    requires pos + |bytes| <= |buf|
    ensures |r| == |buf|
    ensures forall x | 0 <= x < |buf| :: r[x] == if pos <= x < pos + |bytes| then bytes[x - pos] else buf[x]
  {
    buf[..pos] + bytes + buf[pos + |bytes|..]
  }

  // ---------------------------------------------------------------- the shared state

  /** The producer: between requests, holding a reservation, or part way through an advance. */
  datatype Producer =
    | PIdle
    | PReserved(rsvd: nat, gapd: nat)
    | PGapWritten(written: nat, gapd: nat)
    | PHeaderWritten(written: nat, gapd: nat)

  /** The consumer: idle, having seen data, past a gap, or reading an element byte by byte. */
  datatype Consumer =
    | CIdle
    | CSeen(wraps: bool)
    | CAtElement
    | CReading(toread: nat, got: seq<Byte>)

  /** An element or a gap that has been published and not yet passed by the consumer. */
  datatype Chunk = Chunk(len: nat, gap: bool, payload: seq<Byte>)

  /**
   * buf, head and tail are shared; producer and consumer are the threads' own. The rest are
   * histories: payloads published, payloads read, and the chunks in between; all values ever
   * stored in tail and in head, and the latest of them that the other side has loaded. marks[k]
   * chunks had been published when heads[k] was stored, and the consumer has passed the first
   * `passed` of them.
   */
  datatype State = State(
    size: nat, buf: seq<Byte>, head: nat, tail: nat,
    producer: Producer, consumer: Consumer,
    written: seq<seq<Byte>>, read: seq<seq<Byte>>, chunks: seq<Chunk>,
    tails: seq<nat>, seenTail: nat, heads: seq<nat>, seenHead: nat, marks: seq<nat>, passed: nat)

  function Initial(size: nat, buf: seq<Byte>): State {
    State(size, buf, 0, 0, PIdle, CIdle, [], [], [], [0], 0, [0], 0, [0], 0)
  }

  /** Where the element under construction starts. */
  function ElementStart(s: State, gapd: nat): nat {
    if gapd > 0 then 0 else s.head
  }

  // ---------------------------------------------------------------- steps

  /** The length of a sequence of chunks in bytes. */
  ghost function Total(q: seq<Chunk>): nat {
    if q == [] then 0 else q[0].len + Total(q[1..])
  }

  /** Where a sequence of chunks laid out from pos ends. */
  ghost function EndPos(size: nat, pos: nat, q: seq<Chunk>): nat
    decreases |q|
  {
    if q == [] then pos else EndPos(size, Advance(size, pos, q[0].len), q[1..])
  }

  /** How far address x lies behind pos, going round the ring. */
  ghost function Dist(size: nat, pos: nat, x: nat): int {
    if x >= pos then x - pos else x - pos + size
  }

  datatype Step =
    | ProducerRequest(minimum: nat, k: nat)
    | ProducerWrite(k: nat, b: Byte)
    | ProducerGap(written: nat)
    | ProducerHeader
    | ProducerPublish
    | ConsumerLoad(k: nat)
    | ConsumerInspect
    | ConsumerHeader
    | ConsumerRead
    | ConsumerAdvance

  ghost predicate InBounds(s: State) {
    s.head < s.size && s.tail < s.size && |s.buf| == s.size
  }

  /**
   * When a step may be taken. A load of the other side's index yields any value stored there, but
   * none older than one loaded before. A request may follow another; the producer writes inside its
   * reservation and publishes an element that fits it with its header, of a size that a 32-bit element
   * header can hold.
   */
  ghost predicate Enabled(s: State, step: Step)
    requires InBounds(s)
  {
    match step
    case ProducerRequest(minimum, k) => (s.producer.PIdle? || s.producer.PReserved?) && s.seenTail <= k < |s.tails|
      && s.tails[k] < s.size
    case ProducerWrite(k, b) => s.producer.PReserved? && HEADER + k < s.producer.rsvd
    case ProducerGap(written) => s.producer.PReserved? && written + 7 < WORD32
      && HEADER + Pad(written) <= s.producer.rsvd
    case ProducerHeader => s.producer.PGapWritten?
    case ProducerPublish => s.producer.PHeaderWritten?
    case ConsumerLoad(k) => s.consumer.CIdle? && s.seenHead <= k < |s.heads| && s.heads[k] < s.size
    case ConsumerInspect => s.consumer.CSeen?
    case ConsumerHeader => s.consumer.CAtElement?
    case ConsumerRead => s.consumer.CReading? && |s.consumer.got| < s.consumer.toread
    case ConsumerAdvance => s.consumer.CReading? && |s.consumer.got| == s.consumer.toread
  }

  /** The addresses a producer step writes, as a half-open range. */
  ghost function WriteRange(s: State, step: Step): (nat, nat)
    requires InBounds(s) && Enabled(s, step)
  {
    match step
    case ProducerWrite(k, b) =>
      var a := ElementStart(s, s.producer.gapd) + HEADER + k; (a, a + 1)
    case ProducerGap(written) => if s.producer.gapd > 0 then (s.head, s.head + HEADER) else (0, 0)
    case ProducerHeader =>
      var a := ElementStart(s, s.producer.gapd); (a, a + HEADER)
    case _ => (0, 0)
  }

  /** The bytes a consumer step reads, as a half-open range. */
  ghost function ReadRange(s: State, step: Step): (nat, nat)
    requires InBounds(s) && Enabled(s, step)
  {
    match step
    case ConsumerInspect => if s.consumer.wraps then (s.tail, s.tail + HEADER) else (0, 0)
    case ConsumerHeader => (s.tail, s.tail + HEADER)
    case ConsumerRead =>
      var a := s.tail + HEADER + |s.consumer.got|; (a, a + 1)
    case ConsumerAdvance => (s.tail, s.tail + HEADER)
    case _ => (0, 0)
  }

  /** Every access of a step stays inside the buffer. */
  ghost predicate Fits(s: State, step: Step)
    requires InBounds(s) && Enabled(s, step)
  {
    WriteRange(s, step).1 <= s.size && ReadRange(s, step).1 <= s.size
  }

  /** The chunks that publishing appends: a gap, if one was needed, and the element. */
  ghost function NewChunks(s: State, written: nat, gapd: nat): seq<Chunk>
    requires InBounds(s) && ElementStart(s, gapd) + HEADER + written <= s.size
  {
    var a := ElementStart(s, gapd) + HEADER;
    var element := Chunk(HEADER + Pad(written), false, s.buf[a..a + written]);
    if gapd > 0 then [Chunk(gapd, true, []), element] else [element]
  }

  /** The consumer stores a new tail behind the first chunk. */
  ghost function Passed(s: State, tail: nat): State {
    s.(tail := tail, chunks := if s.chunks == [] then [] else s.chunks[1..],
       tails := s.tails + [tail], passed := s.passed + 1)
  }

  /** ringbuf_write_advance and ringbuf_read_request and their helpers, one shared access at a time. */
  ghost function Apply(s: State, step: Step): State
    requires InBounds(s) && Enabled(s, step) && Fits(s, step)
    requires step.ProducerHeader? ==> s.producer.written < WORD32
    requires step.ProducerGap? ==> s.producer.gapd == 0 || 0 <= s.producer.gapd - HEADER
    requires step.ProducerPublish? ==>
               ElementStart(s, s.producer.gapd) + HEADER + s.producer.written <= s.size
  {
    match step
    case ProducerRequest(minimum, k) =>
      (match Request(s.size, s.head, s.tails[k], minimum)
       case Refused => s.(seenTail := k, producer := PIdle)
       case Granted(rsvd, gapd) => s.(seenTail := k, producer := PReserved(rsvd, gapd)))
    case ProducerWrite(k, b) =>
      s.(buf := s.buf[ElementStart(s, s.producer.gapd) + HEADER + k := b])
    case ProducerGap(written) =>
      var p := PGapWritten(written, s.producer.gapd);
      if s.producer.gapd > 0 then
        s.(producer := p, buf := Patch(s.buf, s.head, ElementHeader((s.producer.gapd - HEADER) % WORD32, true)))
      else s.(producer := p)
    case ProducerHeader =>
      s.(producer := PHeaderWritten(s.producer.written, s.producer.gapd),
         buf := Patch(s.buf, ElementStart(s, s.producer.gapd), ElementHeader(s.producer.written, false)))
    case ProducerPublish =>
      var p := s.producer;
      var chunks := NewChunks(s, p.written, p.gapd);
      var head := Advance(s.size, s.head, p.gapd + HEADER + Pad(p.written));
      s.(producer := PIdle, head := head,
         written := s.written + [chunks[|chunks| - 1].payload],
         chunks := s.chunks + chunks,
         heads := s.heads + [head], marks := s.marks + [s.passed + |s.chunks| + |chunks|])
    case ConsumerLoad(k) =>
      var space := Readable(s.size, s.heads[k], s.tail);
      if space > 0 then s.(seenHead := k, consumer := CSeen(s.tail + space > s.size)) else s.(seenHead := k)
    case ConsumerInspect =>
      if s.consumer.wraps && GapAt(s.buf, s.tail) then
        Passed(s, Advance(s.size, s.tail, s.size - s.tail)).(consumer := CAtElement)
      else s.(consumer := CAtElement)
    case ConsumerHeader =>
      s.(consumer := CReading(SizeAt(s.buf, s.tail), []))
    case ConsumerRead =>
      s.(consumer := s.consumer.(got := s.consumer.got + [s.buf[s.tail + HEADER + |s.consumer.got|]]))
    case ConsumerAdvance =>
      Passed(s, Advance(s.size, s.tail, HEADER + Pad(SizeAt(s.buf, s.tail))))
        .(consumer := CIdle, read := s.read + [s.consumer.got])
  }
}
