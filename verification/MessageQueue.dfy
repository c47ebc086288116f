/**
 * The blocking message queue over a buffer that is mapped twice in a row, so that a message
 * never has to be split: address a and address a + size are the same byte. Each locked section
 * of queue_put and queue_get is one step; a thread that must wait leaves the state alone.
 */
module MessageQueue {
  import Arithmetic

  type Byte = x: int | 0 <= x < 256
  type Message = seq<Byte>

  const HEADER := 16
  const WORD64 := 0x1_0000_0000_0000_0000

  // ---------------------------------------------------------------- size_t in memory

  function Pow256(k: nat): (r: nat)
    ensures r > 0
  {
    if k == 0 then 1 else 256 * Pow256(k - 1)
  }

  function Encode(n: nat, k: nat): (r: seq<Byte>)
    ensures |r| == k
  {
    if k == 0 then [] else [n % 256] + Encode(n / 256, k - 1)
  }

  function Decode(r: seq<Byte>): nat {
    if r == [] then 0 else r[0] as int + 256 * Decode(r[1..])
  }

  lemma {:induction false} DecodeEncode(n: nat, k: nat)
    requires n < Pow256(k)
    ensures Decode(Encode(n, k)) == n
  {
    if k > 0 {
      DecodeEncode(n / 256, k - 1);
      assert Encode(n, k)[1..] == Encode(n / 256, k - 1);
    }
  }

  lemma Word64()
    ensures Pow256(8) == WORD64
  {
    assert Pow256(2) == 0x1_0000;
    assert Pow256(4) == 256 * Pow256(3) == 0x1_0000_0000;
    assert Pow256(6) == 256 * Pow256(5) == 0x1_0000_0000_0000;
    assert Pow256(8) == 256 * Pow256(7);
  }

  /** A message in memory: length, sequence number, body. */
  function Framed(msg: Message, number: nat): (r: seq<Byte>)
    ensures |r| == HEADER + |msg|
  {
    Encode(|msg|, 8) + Encode(number, 8) + msg
  }

  function Next(number: nat): nat {
    (number + 1) % WORD64
  }

  /** The messages one after the other, numbered consecutively. */
  function Encoded(msgs: seq<Message>, number: nat): seq<Byte> {
    if msgs == [] then [] else Framed(msgs[0], number) + Encoded(msgs[1..], Next(number))
  }

  function Numbered(number: nat, k: nat): nat
    decreases k
  {
    if k == 0 then number else Numbered(Next(number), k - 1)
  }

  lemma {:induction false} NumberedIsSum(number: nat, k: nat)
    requires number < WORD64
    ensures Numbered(number, k) == (number + k) % WORD64
    decreases k
  {
    if k == 0 {
      assert Numbered(number, k) == number;
    } else {
      NumberedIsSum(Next(number), k - 1);
      SumWraps(number, k - 1);
    }
  }

  lemma SumWraps(number: nat, k: nat)
    requires number < WORD64
    ensures (Next(number) + k) % WORD64 == (number + 1 + k) % WORD64
  {
    if number + 1 == WORD64 { assert Next(number) == 0; } else { assert Next(number) == number + 1; }
  }

  lemma {:induction false} EncodedPush(msgs: seq<Message>, number: nat, msg: Message)
    ensures Encoded(msgs + [msg], number) == Encoded(msgs, number) + Framed(msg, Numbered(number, |msgs|))
    ensures Numbered(number, |msgs| + 1) == Next(Numbered(number, |msgs|))
    decreases msgs
  {
    hide Framed, Next;
    if msgs == [] {
      assert Numbered(number, 1) == Numbered(Next(number), 0);
      assert Encoded([msg], number) == Framed(msg, number) + Encoded([msg][1..], Next(number));
      assert [msg][1..] == [];
      assert msgs + [msg] == [msg];
      assert Encoded(msgs, number) + Framed(msg, number) == Framed(msg, number);
    } else {
      EncodedPush(msgs[1..], Next(number), msg);
      assert (msgs + [msg])[1..] == msgs[1..] + [msg];
    }
  }

  /** A reader of the raw bytes: the messages with their numbers, if the bytes are well formed. */
  datatype Parsed = Malformed | Parsed(msgs: seq<Message>, numbers: seq<nat>)

  function Parse(bytes: seq<Byte>): Parsed
    decreases |bytes|
  {
    if bytes == [] then Parsed([], [])
    else if |bytes| < HEADER then Malformed
    else
      var len := Decode(bytes[..8]);
      if HEADER + len > |bytes| then Malformed
      else
        var rest := Parse(bytes[HEADER + len..]);
        if rest.Malformed? then Malformed
        else Parsed([bytes[HEADER..HEADER + len]] + rest.msgs, [Decode(bytes[8..16])] + rest.numbers)
  }

  predicate Fits(msgs: seq<Message>) {
    forall i | 0 <= i < |msgs| :: |msgs[i]| < WORD64
  }

  lemma FrameHeader(msg: Message, number: nat, tail: seq<Byte>)
    requires |msg| < WORD64 && number < WORD64
    ensures var bytes := Framed(msg, number) + tail;
      && Decode(bytes[..8]) == |msg| && Decode(bytes[8..16]) == number
      && bytes[HEADER..HEADER + |msg|] == msg && bytes[HEADER + |msg|..] == tail
  {
    hide Decode, Encode, Pow256;
    var bytes := Framed(msg, number) + tail;
    Word64();
    DecodeEncode(|msg|, 8);
    DecodeEncode(number, 8);
    assert bytes[..8] == Encode(|msg|, 8);
    assert bytes[8..16] == Encode(number, 8);
  }

  /** The bytes between head and tail read back as exactly the unread messages, numbered in a row. */
  lemma {:induction false} ParseEncoded(msgs: seq<Message>, number: nat)
    requires Fits(msgs) && number < WORD64
    ensures Parse(Encoded(msgs, number)).Parsed?
    ensures Parse(Encoded(msgs, number)).msgs == msgs
    ensures |Parse(Encoded(msgs, number)).numbers| == |msgs|
    ensures forall i | 0 <= i < |msgs| :: Parse(Encoded(msgs, number)).numbers[i] == Numbered(number, i)
    decreases msgs
  {
    hide Framed, Encode, Decode;
    if msgs != [] {
      ParseEncoded(msgs[1..], Next(number));
      FrameHeader(msgs[0], number, Encoded(msgs[1..], Next(number)));
      assert msgs == [msgs[0]] + msgs[1..];
    }
  }

  // ---------------------------------------------------------------- the mirrored buffer

  function Mirror(size: nat, a: nat): nat {
    if a < size then a else a - size
  }

  /** The n bytes read from address a on. */
  function View(mem: seq<Byte>, a: nat, n: nat): (r: seq<Byte>)
    requires a + n <= 2 * |mem|
    ensures |r| == n
  {
    seq(n, i requires 0 <= i < n => mem[Mirror(|mem|, a + i)])
  }

  /** Memory after the bytes have been written from address a on, one by one. */
  function Written(mem: seq<Byte>, a: nat, bytes: seq<Byte>): (r: seq<Byte>)
    requires a + |bytes| <= 2 * |mem|
    ensures |r| == |mem|
    decreases |bytes|
  {
    if bytes == [] then mem
    else
      var last := |bytes| - 1;
      Written(mem, a, bytes[..last])[Mirror(|mem|, a + last) := bytes[last]]
  }

  /** A write of at most one lap leaves each of its bytes at its address. */
  lemma {:induction false} WrittenInside(mem: seq<Byte>, a: nat, bytes: seq<Byte>, x: nat)
    requires a + |bytes| <= 2 * |mem| && |bytes| <= |mem| && a <= x < a + |bytes|
    ensures Written(mem, a, bytes)[Mirror(|mem|, x)] == bytes[x - a]
    decreases |bytes|
  {
    if x - a < |bytes| - 1 { WrittenInside(mem, a, bytes[..|bytes| - 1], x); }
  }

  /** Bytes before the write stay, as long as it does not run a full lap into them. */
  lemma {:induction false} WrittenOutside(mem: seq<Byte>, a: nat, bytes: seq<Byte>, x: nat)
    requires a + |bytes| <= 2 * |mem| && x < a && a + |bytes| <= x + |mem|
    ensures x < 2 * |mem| && Written(mem, a, bytes)[Mirror(|mem|, x)] == mem[Mirror(|mem|, x)]
    decreases |bytes|
  {
    if bytes != [] { WrittenOutside(mem, a, bytes[..|bytes| - 1], x); }
  }

  lemma {:induction false} WrittenTwice(mem: seq<Byte>, a: nat, u: seq<Byte>, v: seq<Byte>)
    requires a + |u| + |v| <= 2 * |mem|
    ensures Written(Written(mem, a, u), a + |u|, v) == Written(mem, a, u + v)
    decreases |v|
  {
    if v == [] {
      assert u + v == u;
    } else {
      WrittenTwice(mem, a, u, v[..|v| - 1]);
      assert (u + v)[..|u + v| - 1] == u + v[..|v| - 1];
    }
  }

  /** Appending at a keeps the view from h to a and extends it by the bytes. */
  lemma ViewAppend(mem: seq<Byte>, h: nat, a: nat, bytes: seq<Byte>)
    requires h <= a && a + |bytes| <= h + |mem| && h < |mem|
    ensures View(Written(mem, a, bytes), h, a + |bytes| - h) == View(mem, h, a - h) + bytes
  {
    hide Mirror, Written;
    var r := View(Written(mem, a, bytes), h, a + |bytes| - h);
    var e := View(mem, h, a - h) + bytes;
    forall i | 0 <= i < |r| ensures r[i] == e[i] {
      if h + i < a { WrittenOutside(mem, a, bytes, h + i); } else { WrittenInside(mem, a, bytes, h + i); }
    }
  }

  lemma ViewSplit(mem: seq<Byte>, a: nat, n: nat, k: nat)
    requires a + n <= 2 * |mem| && k <= n
    ensures View(mem, a, k) == View(mem, a, n)[..k]
    ensures View(mem, a + k, n - k) == View(mem, a, n)[k..]
  {
    var u, v := View(mem, a + k, n - k), View(mem, a, n)[k..];
    forall i | 0 <= i < n - k ensures u[i] == v[i] {
      assert (a + k) + i == a + (k + i);
    }
  }

  /** The mirror is the remainder, and a view inside the first mapping is a slice of the memory. */
  lemma MirrorIs(mem: seq<Byte>, a: nat, n: nat)
    requires a + n <= 2 * |mem|
    ensures a < 2 * |mem| ==> Mirror(|mem|, a) == a % |mem|
    ensures a + n <= |mem| ==> View(mem, a, n) == mem[a..a + n]
  {
    if a < |mem| { Arithmetic.DivUnique(a, |mem|, 0, a); } else if a < 2 * |mem| { ModOnce(a, |mem|); }
    if a + n <= |mem| {
      var u, v := View(mem, a, n), mem[a..a + n];
      forall i | 0 <= i < n ensures u[i] == v[i] { assert Mirror(|mem|, a + i) == a + i; }
    }
  }

  lemma ModOnce(a: nat, m: nat)
    requires 0 < m <= a < 2 * m
    ensures a % m == a - m
  {
    Arithmetic.DivUnique(a, m, 1, a - m);
  }

  /** A lap back, the same bytes. */
  lemma ViewMirrored(mem: seq<Byte>, a: nat, n: nat)
    requires |mem| <= a && a + n <= 2 * |mem|
    ensures View(mem, a - |mem|, n) == View(mem, a, n)
  {
    var u, v := View(mem, a - |mem|, n), View(mem, a, n);
    forall i | 0 <= i < n ensures u[i] == v[i] {
      assert Mirror(|mem|, (a - |mem|) + i) == Mirror(|mem|, a + i);
    }
  }

  // ---------------------------------------------------------------- put and get

  datatype State = State(mem: seq<Byte>, head: nat, tail: nat, headSeq: nat, tailSeq: nat)

  /** The unread messages, in order. */
  ghost predicate Holds(s: State, msgs: seq<Message>) {
    && s.head < |s.mem|
    && s.head <= s.tail <= s.head + |s.mem|
    && s.headSeq < WORD64
    && Fits(msgs)
    && s.tailSeq == Numbered(s.headSeq, |msgs|)
    && View(s.mem, s.head, s.tail - s.head) == Encoded(msgs, s.headSeq)
  }

  predicate Bounds(s: State) {
    s.head < |s.mem| && s.head <= s.tail <= s.head + |s.mem|
  }

  /** queue_init */
  function Fresh(mem: seq<Byte>): State {
    State(mem, 0, 0, 0, 0)
  }

  /** The guard of queue_put's wait loop, negated. */
  predicate Room(s: State, msg: Message)
    requires Bounds(s)
  {
    |s.mem| - (s.tail - s.head) >= |msg| + HEADER
  }

  function Put(s: State, msg: Message): State
    requires Bounds(s) && Room(s, msg)
  {
    var header := Encode(|msg|, 8) + Encode(s.tailSeq, 8);
    var mem := Written(Written(s.mem, s.tail, header), s.tail + HEADER, msg);
    State(mem, s.head, s.tail + HEADER + |msg|, s.headSeq, Next(s.tailSeq))
  }

  datatype Outcome = Wait | TooLong(number: nat) | Got(msg: Message)

  /** The header at the front says how long the first message is. */
  predicate HeaderFits(s: State)
    requires Bounds(s)
  {
    s.tail > s.head ==> s.tail - s.head >= HEADER && HEADER + Decode(View(s.mem, s.head, 8)) <= s.tail - s.head
  }

  /** queue_get up to its next wait: skipped is the number of a message this reader found too long. */
  function Look(s: State, max: nat, skipped: Option<nat>): Outcome
    requires Bounds(s) && HeaderFits(s)
  {
    if skipped == Some(s.headSeq) || s.tail == s.head then Wait
    else
      var len := Decode(View(s.mem, s.head, 8));
      if len > max then TooLong(Decode(View(s.mem, s.head + 8, 8)))
      else Got(View(s.mem, s.head + HEADER, len))
  }

  datatype Option<T> = None | Some(value: T)

  function Consume(s: State, len: nat): State
    requires Bounds(s) && HEADER + len <= s.tail - s.head
  {
    var head := s.head + HEADER + len;
    if head >= |s.mem| then State(s.mem, head - |s.mem|, s.tail - |s.mem|, Next(s.headSeq), s.tailSeq)
    else State(s.mem, head, s.tail, Next(s.headSeq), s.tailSeq)
  }

  lemma FreshHolds(mem: seq<Byte>)
    requires mem != []
    ensures Holds(Fresh(mem), [])
  {
  }

  /** A put appends its message, and writes only below twice the size. */
  lemma PutKeeps(s: State, msgs: seq<Message>, msg: Message)
    requires Holds(s, msgs) && Room(s, msg) && |msg| < WORD64
    ensures Holds(Put(s, msg), msgs + [msg])
    ensures s.tail + HEADER + |msg| < 2 * |s.mem|
  {
    hide View, Written, Encoded, Numbered, Encode;
    var header := Encode(|msg|, 8) + Encode(s.tailSeq, 8);
    var bytes := Framed(msg, s.tailSeq);
    assert bytes == header + msg;
    WrittenTwice(s.mem, s.tail, header, msg);
    ViewAppend(s.mem, s.head, s.tail, bytes);
    EncodedPush(msgs, s.headSeq, msg);
  }

  /** The guard of queue_put in size_t arithmetic, where size + sizeof(message_t) may wrap. */
  predicate GuardPasses(s: State, size: nat)
    requires Bounds(s)
  {
    |s.mem| - (s.tail - s.head) >= (size + HEADER) % WORD64
  }

  /** It tells whether there is room exactly when the sum does not wrap, or wraps to more than what is free. */
  lemma GuardExact(s: State, size: nat)
    requires Bounds(s) && |s.mem| < WORD64 && size < WORD64
    ensures var free := |s.mem| - (s.tail - s.head);
      (GuardPasses(s, size) <==> size + HEADER <= free) <==>
      (size + HEADER < WORD64 || size + HEADER - WORD64 > free)
  {
    var free := |s.mem| - (s.tail - s.head);
    if size + HEADER < WORD64 {
      assert (size + HEADER) % WORD64 == size + HEADER;
    } else {
      assert (size + HEADER) % WORD64 == size + HEADER - WORD64;
    }
  }

  /** A size of 2^64 - 16 passes it on every queue, a full one included. */
  lemma GuardFooled(s: State)
    requires Bounds(s) && |s.mem| < WORD64
    ensures GuardPasses(s, WORD64 - HEADER) && |s.mem| - (s.tail - s.head) < (WORD64 - HEADER) + HEADER
  {
    assert ((WORD64 - HEADER) + HEADER) % WORD64 == 0;
  }

  /** What a reader finds at the front of the queue. */
  lemma FrontHeader(s: State, msgs: seq<Message>)
    requires Holds(s, msgs)
    ensures s.tail == s.head <==> msgs == []
    ensures msgs != [] ==>
      && s.tail - s.head >= HEADER + |msgs[0]|
      && Decode(View(s.mem, s.head, 8)) == |msgs[0]|
      && Decode(View(s.mem, s.head + 8, 8)) == s.headSeq
      && View(s.mem, s.head + HEADER, |msgs[0]|) == msgs[0]
      && View(s.mem, s.head + HEADER + |msgs[0]|, s.tail - s.head - HEADER - |msgs[0]|) == Encoded(msgs[1..],
        Next(s.headSeq))
  {
    hide View, Framed, Decode;
    if msgs != [] {
      var n, len := s.tail - s.head, |msgs[0]|;
      var rest := Encoded(msgs[1..], Next(s.headSeq));
      var bytes := View(s.mem, s.head, n);
      assert bytes == Framed(msgs[0], s.headSeq) + rest;
      FrameHeader(msgs[0], s.headSeq, rest);
      ViewSplit(s.mem, s.head, n, 8);
      ViewSplit(s.mem, s.head, n, HEADER);
      ViewSplit(s.mem, s.head, n, HEADER + len);
      ViewSplit(s.mem, s.head + 8, n - 8, 8);
      ViewSplit(s.mem, s.head + HEADER, n - HEADER, len);
      assert bytes[8..][..8] == bytes[8..16];
      assert bytes[HEADER..][..len] == bytes[HEADER..HEADER + len];
    }
  }

  /**
   * A get waits on an empty queue, passes over a first message that is too long and otherwise takes
   * exactly the first message.
   */
  lemma LookFinds(s: State, msgs: seq<Message>, max: nat, skipped: Option<nat>)
    requires Holds(s, msgs)
    ensures Bounds(s) && HeaderFits(s)
    ensures Look(s, max, skipped) ==
      if msgs == [] || skipped == Some(s.headSeq) then Wait
      else if |msgs[0]| > max then TooLong(s.headSeq)
      else Got(msgs[0])
  {
    hide View, Decode, Encoded, Numbered;
    FrontHeader(s, msgs);
  }

  lemma ConsumeKeeps(s: State, msgs: seq<Message>)
    requires Holds(s, msgs) && msgs != []
    ensures HEADER + |msgs[0]| <= s.tail - s.head
    ensures Holds(Consume(s, |msgs[0]|), msgs[1..])
  {
    hide View, Decode, Encoded;
    FrontHeader(s, msgs);
    var head := s.head + HEADER + |msgs[0]|;
    assert Numbered(s.headSeq, |msgs|) == Numbered(Next(s.headSeq), |msgs[1..]|);
    if head >= |s.mem| { ViewMirrored(s.mem, head, s.tail - head); }
  }

  // ---------------------------------------------------------------- the queue in place

  class Queue {
    const buffer: array<Byte>
    var head: nat
    var tail: nat
    var headSeq: nat
    var tailSeq: nat

    function Abs(): State
      reads this, buffer
    {
      State(buffer[..], head, tail, headSeq, tailSeq)
    }

    constructor (size: nat)
      requires size > 0
      ensures Holds(Abs(), []) && fresh(buffer) && buffer.Length == size
    {
      buffer := new Byte[size](_ => 0);
      head, tail, headSeq, tailSeq := 0, 0, 0, 0;
    }

    /** memcpy into the doubly mapped region */
    method CopyIn(a: nat, bytes: seq<Byte>)
      requires a + |bytes| <= 2 * buffer.Length
      modifies buffer
      ensures buffer[..] == Written(old(buffer[..]), a, bytes)
    {
      var i := 0;
      assert bytes[..0] == [];
      while i < |bytes|
        invariant i <= |bytes| && buffer[..] == Written(old(buffer[..]), a, bytes[..i])
      {
        assert bytes[..i + 1][..i] == bytes[..i];
        buffer[Mirror(buffer.Length, a + i)] := bytes[i];
        i := i + 1;
      }
      assert bytes[..i] == bytes;
    }

    /** memcpy out of the doubly mapped region */
    method CopyOut(a: nat, n: nat) returns (bytes: seq<Byte>)
      requires a + n <= 2 * buffer.Length
      ensures bytes == View(buffer[..], a, n)
    {
      bytes := [];
      var i := 0;
      while i < n
        invariant i <= n && |bytes| == i
        invariant forall h | 0 <= h < i :: bytes[h] == View(buffer[..], a, n)[h]
      {
        bytes := bytes + [buffer[Mirror(buffer.Length, a + i)]];
        i := i + 1;
      }
    }

    /** One pass through queue_put: false when it has to wait for room. */
    method PutMessage(msg: Message, ghost msgs: seq<Message>) returns (ok: bool)
      requires Holds(Abs(), msgs) && |msg| + HEADER < WORD64
      modifies this, buffer
      ensures ok == (|msg| + HEADER <= buffer.Length - (old(tail) - old(head)))
      ensures ok ==> Abs() == Put(old(Abs()), msg) && Holds(Abs(), msgs + [msg])
      ensures !ok ==> Abs() == old(Abs())
    {
      hide Holds, Written, Encode, View;
      HoldsBounds(Abs(), msgs);
      PutKeepsIfRoom(Abs(), msgs, msg);
      if buffer.Length - (tail - head) < |msg| + HEADER {
        return false;
      }
      var header := Encode(|msg|, 8) + Encode(tailSeq, 8);
      tailSeq := Next(tailSeq);
      CopyIn(tail, header);
      CopyIn(tail + HEADER, msg);
      tail := tail + HEADER + |msg|;
      ok := true;
    }

    /** One pass through queue_get's loop, up to its next wait or its return. */
    method GetMessage(max: nat, skipped: Option<nat>, ghost msgs: seq<Message>) returns (o: Outcome)
      requires Holds(Abs(), msgs)
      modifies this
      ensures o ==
        if msgs == [] || skipped == Some(old(headSeq)) then Wait
        else if |msgs[0]| > max then TooLong(old(headSeq))
        else Got(msgs[0])
      ensures o.Got? ==> Holds(Abs(), msgs[1..]) && Abs() == Consume(old(Abs()), |o.msg|)
      ensures !o.Got? ==> Abs() == old(Abs())
    {
      hide Holds, View, Decode, Encoded;
      HoldsBounds(Abs(), msgs);
      FrontHeader(Abs(), msgs);
      if skipped == Some(headSeq) || tail - head == 0 {
        return Wait;
      }
      ConsumeKeeps(Abs(), msgs);
      var lenBytes := CopyOut(head, 8);
      var seqBytes := CopyOut(head + 8, 8);
      var len := Decode(lenBytes);
      if len > max {
        return TooLong(Decode(seqBytes));
      }
      var body := CopyOut(head + HEADER, len);
      head := head + (len + HEADER);
      headSeq := Next(headSeq);
      if head >= buffer.Length {
        head := head - buffer.Length;
        tail := tail - buffer.Length;
      }
      o := Got(body);
    }
  }

  lemma HoldsBounds(s: State, msgs: seq<Message>)
    requires Holds(s, msgs)
    ensures Bounds(s)
  {
  }

  lemma PutKeepsIfRoom(s: State, msgs: seq<Message>, msg: Message)
    requires Holds(s, msgs) && Bounds(s) && |msg| < WORD64
    ensures Room(s, msg) ==> Holds(Put(s, msg), msgs + [msg]) && s.tail + HEADER + |msg| < 2 * |s.mem|
  {
    hide Holds;
    if Room(s, msg) { PutKeeps(s, msgs, msg); }
  }

  // ---------------------------------------------------------------- whole runs

  /** One locked section of some thread. */
  datatype Event = PutCall(msg: Message) | GetCall(max: nat, skipped: Option<nat>)

  /** The queue together with everything that went in and came out, in order. */
  datatype History = History(state: State, accepted: seq<Message>, delivered: seq<Message>)

  ghost predicate Sound(h: History) {
    && h.state.headSeq == |h.delivered| % WORD64
    && exists msgs :: Holds(h.state, msgs) && h.accepted == h.delivered + msgs
  }

  ghost predicate Fitting(e: Event) {
    e.PutCall? ==> |e.msg| + HEADER < WORD64
  }

  ghost function Step(h: History, e: Event): History
    requires Bounds(h.state) && HeaderFits(h.state)
  {
    match e
    case PutCall(msg) =>
      if Room(h.state, msg) then History(Put(h.state, msg), h.accepted + [msg], h.delivered) else h
    case GetCall(max, skipped) =>
      var o := Look(h.state, max, skipped);
      if o.Got? && HEADER + |o.msg| <= h.state.tail - h.state.head
      then History(Consume(h.state, |o.msg|), h.accepted, h.delivered + [o.msg])
      else h
  }

  lemma SoundBounds(h: History)
    requires Sound(h)
    ensures Bounds(h.state) && HeaderFits(h.state)
  {
    var msgs :| Holds(h.state, msgs) && h.accepted == h.delivered + msgs;
    LookFinds(h.state, msgs, 0, None);
  }

  /** The next number goes with the next message. */
  lemma ConsumeNumbers(s: State, msgs: seq<Message>, n: nat)
    requires Holds(s, msgs) && msgs != [] && HEADER + |msgs[0]| <= s.tail - s.head && s.headSeq == n % WORD64
    ensures Consume(s, |msgs[0]|).headSeq == (n + 1) % WORD64
  {
    hide View, Encoded, Numbered;
    ModShift(n, 1);
  }

  lemma ModShift(n: nat, i: nat)
    ensures (n % WORD64 + i) % WORD64 == (n + i) % WORD64
  {
  }

  lemma StepKeeps(h: History, e: Event)
    requires Sound(h) && Fitting(e)
    ensures Bounds(h.state) && HeaderFits(h.state)
    ensures Sound(Step(h, e))
  {
    hide Holds, Look, Consume, Room, HeaderFits, View, Written, Encode;
    SoundBounds(h);
    var msgs :| Holds(h.state, msgs) && h.accepted == h.delivered + msgs;
    match e
    case PutCall(msg) =>
      if Room(h.state, msg) {
        PutKeeps(h.state, msgs, msg);
        assert (h.accepted + [msg]) == h.delivered + (msgs + [msg]);
      }
    case GetCall(max, skipped) =>
      LookFinds(h.state, msgs, max, skipped);
      if Look(h.state, max, skipped).Got? {
        ConsumeKeeps(h.state, msgs);
        ConsumeNumbers(h.state, msgs, |h.delivered|);
        assert h.delivered + msgs == (h.delivered + [msgs[0]]) + msgs[1..];
      }
  }

  ghost predicate Run(h: History, es: seq<Event>, last: History)
    decreases |es|
  {
    if es == [] then last == h
    else
      && Fitting(es[0]) && Bounds(h.state) && HeaderFits(h.state)
      && Run(Step(h, es[0]), es[1..], last)
  }

  /**
   * Over every run of puts and gets by any number of threads, what came out is the first part of
   * what went in, in order, and the bytes between head and tail are exactly the remaining part.
   */
  lemma {:induction false} RunKeeps(h: History, es: seq<Event>, last: History)
    requires Sound(h) && Run(h, es, last)
    ensures Sound(last)
    decreases |es|
  {
    hide Sound, Step, Bounds, HeaderFits;
    if es != [] {
      StepKeeps(h, es[0]);
      RunKeeps(Step(h, es[0]), es[1..], last);
    }
  }

  /** Read back from the raw buffer of any reachable state: the unread messages and their numbers. */
  lemma FifoInBuffer(mem: seq<Byte>, es: seq<Event>, last: History)
    requires mem != [] && Run(History(Fresh(mem), [], []), es, last)
    ensures Bounds(last.state) && last.state.tail < 2 * |last.state.mem|
    ensures var parsed := Parse(View(last.state.mem, last.state.head, last.state.tail - last.state.head));
      && parsed.Parsed?
      && last.accepted == last.delivered + parsed.msgs
      && |parsed.numbers| == |parsed.msgs|
      && (forall i | 0 <= i < |parsed.numbers| :: parsed.numbers[i] == (|last.delivered| + i) % WORD64)
      && last.state.headSeq == |last.delivered| % WORD64 && last.state.tailSeq == |last.accepted| % WORD64
  {
    hide Run, Parse, View, Encoded, Numbered;
    var h := History(Fresh(mem), [], []);
    FreshHolds(mem);
    assert h.accepted == h.delivered + [];
    RunKeeps(h, es, last);
    var msgs :| Holds(last.state, msgs) && last.accepted == last.delivered + msgs;
    ParseEncoded(msgs, last.state.headSeq);
    forall i: nat | i <= |msgs| ensures Numbered(last.state.headSeq, i) == (|last.delivered| + i) % WORD64 {
      NumberedIsSum(last.state.headSeq, i);
      ModShift(|last.delivered|, i);
    }
  }
}
