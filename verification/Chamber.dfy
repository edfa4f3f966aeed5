/**
 One shared-memory chamber: a length-framed, wrap-around message queue kept in
 a mapped file.  Everything another process can see is the bytes `mm`; the
 queue is decoded from them, so whoever attaches to the file sees the same
 queue.
 */
module Chambers {
  import opened Bytes
  import opened Framing
  import opened Wrappers

  const HEAD_OFFSET: nat := 64
  const TAIL_OFFSET: nat := 128
  const PAYLOAD_OFFSET: nat := 192
  const FILE_SIZE: nat := PAYLOAD_OFFSET + CAPACITY
  const WORD: nat := 8
  const MAGIC: seq<Byte> := [77, 77, 65, 80, 48, 48, 48, 49]

  /** The whole mapped file. */
  type Image = s: seq<Byte> | |s| == FILE_SIZE witness seq(FILE_SIZE, i => 0)

  function HeadOf(img: Image): nat {
    FromLE(img[HEAD_OFFSET..HEAD_OFFSET + WORD])
  }

  function TailOf(img: Image): nat {
    FromLE(img[TAIL_OFFSET..TAIL_OFFSET + WORD])
  }

  /** `n` ring bytes from counter position `at` onwards, following the wrap. */
  function Window(img: Image, at: nat, n: nat): (w: seq<Byte>)
    ensures |w| == n
  {
    seq(n, k requires 0 <= k < n => img[PAYLOAD_OFFSET + (at + k) % CAPACITY])
  }

  /** Every byte between the two counters belongs to some complete frame. */
  predicate Coherent(img: Image) {
    && TailOf(img) <= HeadOf(img) <= TailOf(img) + CAPACITY
    && Decode(Unread(img)).Some?
  }

  function QueueOf(img: Image): seq<Message>
    requires Coherent(img)
  {
    Decode(Unread(img)).value
  }

  /** `img` with `data` stored in the ring at position `pos`, wrapping round. */
  function Written(img: Image, pos: nat, data: seq<Byte>): Image
    requires pos < CAPACITY && |data| <= CAPACITY
  {
    seq(FILE_SIZE, i requires 0 <= i < FILE_SIZE =>
      if i >= PAYLOAD_OFFSET && (i - PAYLOAD_OFFSET - pos) % CAPACITY < |data|
      then data[(i - PAYLOAD_OFFSET - pos) % CAPACITY]
      else img[i])
  }

  /** `img` with the 64-bit counter at `offset` replaced. */
  function WithWord(img: Image, offset: nat, x: nat): (r: Image)
    requires offset + WORD <= PAYLOAD_OFFSET
    ensures x < TWO_64 ==> FromLE(r[offset..offset + WORD]) == x
    ensures forall i :: 0 <= i < FILE_SIZE && !(offset <= i < offset + WORD) ==> r[i] == img[i]
  {
    var r := img[..offset] + ToLE(x, WORD) + img[offset + WORD..];
    assert r[offset..offset + WORD] == ToLE(x, WORD);
    assert x < TWO_64 ==> FromLE(ToLE(x, WORD)) == x by {
      Widths();
      if x < TWO_64 { FromToLE(x, WORD); }
    }
    r
  }

  lemma WindowSplit(img: Image, at: nat, n: nat, m: nat)
    ensures Window(img, at, n + m) == Window(img, at, n) + Window(img, at + n, m)
  {
  }

  /** Only the position modulo the capacity matters. */
  lemma WindowModulo(img: Image, at: nat, n: nat)
    ensures Window(img, at % CAPACITY, n) == Window(img, at, n)
  {
  }

  lemma PositionAfterHeader(at: nat)
    ensures (at % CAPACITY + HEADER) % CAPACITY == (at + HEADER) % CAPACITY
  {
  }

  lemma WindowOfWritten(img: Image, at: nat, data: seq<Byte>)
    requires |data| <= CAPACITY
    ensures Window(Written(img, at % CAPACITY, data), at, |data|) == data
  {
  }

  /** Bytes ahead of the window leave it alone while the span fits the ring. */
  lemma WindowApartFromWritten(img: Image, at: nat, data: seq<Byte>, from: nat, n: nat)
    requires |data| <= CAPACITY
    requires from + n <= at && at + |data| <= from + CAPACITY
    ensures Window(Written(img, at % CAPACITY, data), from, n) == Window(img, from, n)
  {
  }

  lemma SameRingSameWindow(a: Image, b: Image, at: nat, n: nat)
    requires a[PAYLOAD_OFFSET..] == b[PAYLOAD_OFFSET..]
    ensures Window(a, at, n) == Window(b, at, n)
  {
  }

  datatype PushResult = Pushed | TooLarge | RingFull | CounterOverflow

  /** What `push` leaves behind once the frame is written but not published. */
  function Staged(img: Image, data: Message): Image
    requires Sendable(data)
  {
    var head := HeadOf(img);
    Written(Written(img, head % CAPACITY, ToLE(|data|, HEADER)), (head + HEADER) % CAPACITY, data)
  }

  /** The part of the ring between the counters. */
  function Unread(img: Image): seq<Byte>
    requires TailOf(img) <= HeadOf(img)
  {
    Window(img, TailOf(img), HeadOf(img) - TailOf(img))
  }

  lemma StagedCounters(img: Image, data: Message)
    requires Sendable(data)
    ensures HeadOf(Staged(img, data)) == HeadOf(img) && TailOf(Staged(img, data)) == TailOf(img)
  {
    var full := Staged(img, data);
    assert full[HEAD_OFFSET..HEAD_OFFSET + WORD] == img[HEAD_OFFSET..HEAD_OFFSET + WORD];
    assert full[TAIL_OFFSET..TAIL_OFFSET + WORD] == img[TAIL_OFFSET..TAIL_OFFSET + WORD];
  }

  /** A frame that fits is written clear of everything still unread. */
  lemma StagedSparesUnread(img: Image, data: Message)
    requires Sendable(data) && TailOf(img) <= HeadOf(img)
    requires HeadOf(img) - TailOf(img) + HEADER + |data| <= CAPACITY
    ensures Window(Staged(img, data), TailOf(img), HeadOf(img) - TailOf(img)) == Unread(img)
  {
    var head, tail := HeadOf(img), TailOf(img);
    var half := Written(img, head % CAPACITY, ToLE(|data|, HEADER));
    WindowApartFromWritten(img, head, ToLE(|data|, HEADER), tail, head - tail);
    WindowApartFromWritten(half, head + HEADER, data, tail, head - tail);
  }

  lemma StagedHoldsFrame(img: Image, data: Message)
    requires Sendable(data)
    ensures Window(Staged(img, data), HeadOf(img), HEADER + |data|) == Frame(data)
  {
    var head, length := HeadOf(img), ToLE(|data|, HEADER);
    var half := Written(img, head % CAPACITY, length);
    WindowOfWritten(img, head, length);
    WindowApartFromWritten(half, head + HEADER, data, head, HEADER);
    WindowOfWritten(half, head + HEADER, data);
    WindowSplit(Staged(img, data), head, HEADER, |data|);
  }

  /** Until it is published, a staged frame is invisible. */
  lemma StagingKeepsQueue(img: Image, data: Message)
    requires Coherent(img) && Sendable(data)
    requires HeadOf(img) - TailOf(img) + HEADER + |data| <= CAPACITY
    ensures Coherent(Staged(img, data)) && QueueOf(Staged(img, data)) == QueueOf(img)
  {
    StagedCounters(img, data);
    StagedSparesUnread(img, data);
  }

  lemma MovingTheHead(img: Image, head: nat)
    requires head < TWO_64 && TailOf(img) <= head
    ensures var r := WithWord(img, HEAD_OFFSET, head);
            && HeadOf(r) == head && TailOf(r) == TailOf(img)
            && Unread(r) == Window(img, TailOf(img), head - TailOf(img))
  {
    var r := WithWord(img, HEAD_OFFSET, head);
    assert r[TAIL_OFFSET..TAIL_OFFSET + WORD] == img[TAIL_OFFSET..TAIL_OFFSET + WORD];
    SameRingSameWindow(r, img, TailOf(img), head - TailOf(img));
  }

  lemma MovingTheTail(img: Image, tail: nat)
    requires tail < TWO_64 && tail <= HeadOf(img)
    ensures var r := WithWord(img, TAIL_OFFSET, tail);
            && HeadOf(r) == HeadOf(img) && TailOf(r) == tail
            && Unread(r) == Window(img, tail, HeadOf(img) - tail)
  {
    var r := WithWord(img, TAIL_OFFSET, tail);
    assert r[HEAD_OFFSET..HEAD_OFFSET + WORD] == img[HEAD_OFFSET..HEAD_OFFSET + WORD];
    SameRingSameWindow(r, img, tail, HeadOf(img) - tail);
  }

  lemma PublishedBytes(img: Image, data: Message)
    requires TailOf(img) <= HeadOf(img) && Sendable(data)
    requires HeadOf(img) - TailOf(img) + HEADER + |data| <= CAPACITY
    requires HeadOf(img) + HEADER + |data| < TWO_64
    ensures var done := WithWord(Staged(img, data), HEAD_OFFSET, HeadOf(img) + HEADER + |data|);
            && HeadOf(done) == HeadOf(img) + HEADER + |data| && TailOf(done) == TailOf(img)
            && Unread(done) == Unread(img) + Frame(data)
  {
    var full := Staged(img, data);
    var used := HeadOf(img) - TailOf(img);
    StagedCounters(img, data);
    StagedSparesUnread(img, data);
    StagedHoldsFrame(img, data);
    WindowSplit(full, TailOf(img), used, HEADER + |data|);
    assert Window(full, TailOf(img), used + (HEADER + |data|)) == Unread(img) + Frame(data);
    MovingTheHead(full, HeadOf(img) + HEADER + |data|);
  }

  /** Publishing it by moving the head appends exactly one message. */
  lemma PublishingAppends(img: Image, data: Message)
    requires Coherent(img) && Sendable(data)
    requires HeadOf(img) - TailOf(img) + HEADER + |data| <= CAPACITY
    requires HeadOf(img) + HEADER + |data| < TWO_64
    ensures var done := WithWord(Staged(img, data), HEAD_OFFSET, HeadOf(img) + HEADER + |data|);
            Coherent(done) && QueueOf(done) == QueueOf(img) + [data]
  {
    PublishedBytes(img, data);
    DecodeAppend(Unread(img), data);
  }

  /** The file and the outcome a push leaves, in the order the checks are made. */
  function AfterPush(img: Image, data: Message): (Image, PushResult) {
    var head, tail := HeadOf(img), TailOf(img);
    if |data| > MAX_MESSAGE then (img, TooLarge)
    else if head - tail + HEADER + |data| > CAPACITY then (img, RingFull)
    else if head + HEADER + |data| >= TWO_64 then (Staged(img, data), CounterOverflow)
    else (WithWord(Staged(img, data), HEAD_OFFSET, head + HEADER + |data|), Pushed)
  }

  /** The abstract chamber: a queue of messages and the two byte counters. */
  datatype Fifo = Fifo(queue: seq<Message>, head: nat, tail: nat)

  function View(img: Image): Fifo
    requires Coherent(img)
  {
    Fifo(QueueOf(img), HeadOf(img), TailOf(img))
  }

  /** A bounded FIFO: a message is appended exactly when its frame fits beside what is
      queued (and the 64-bit counter can hold the new head). */
  function FifoPush(f: Fifo, data: Message): (Fifo, PushResult) {
    if !Sendable(data) then (f, TooLarge)
    else if |Stream(f.queue)| + |Frame(data)| > CAPACITY then (f, RingFull)
    else if f.head + |Frame(data)| >= TWO_64 then (f, CounterOverflow)
    else (Fifo(f.queue + [data], f.head + |Frame(data)|, f.tail), Pushed)
  }

  /** The first message is taken, unless there is none or it is empty. */
  function FifoPop(f: Fifo): (Fifo, Option<Message>) {
    if f.queue == [] || f.queue[0] == [] then (f, None)
    else (Fifo(f.queue[1..], f.head, f.tail + |Frame(f.queue[0])|), Some(f.queue[0]))
  }

  /** The wrap-around ring refines the bounded FIFO: push. */
  lemma PushRefines(img: Image, data: Message)
    requires Coherent(img)
    ensures Coherent(AfterPush(img, data).0)
    ensures View(AfterPush(img, data).0) == FifoPush(View(img), data).0
    ensures AfterPush(img, data).1 == FifoPush(View(img), data).1
    ensures !Sendable(data) || |Unread(img)| + |Frame(data)| > CAPACITY ==> AfterPush(img, data).0 == img
  {
    StreamDecode(Unread(img));
    var r := AfterPush(img, data).1;
    if r.CounterOverflow? {
      StagingKeepsQueue(img, data);
      StagedCounters(img, data);
    } else if r.Pushed? {
      PublishingAppends(img, data);
      PublishedBytes(img, data);
    }
  }

  function LengthAtTail(img: Image): nat {
    FromLE(Window(img, TailOf(img), HEADER))
  }

  /** Is the frame at the tail one that `pop` is willing to take? */
  predicate Poppable(img: Image) {
    && HeadOf(img) != TailOf(img)
    && 0 < LengthAtTail(img) <= MAX_MESSAGE
    && HeadOf(img) - TailOf(img) >= HEADER + LengthAtTail(img)
  }

  function AfterPop(img: Image): (Image, Option<Message>) {
    if !Poppable(img) then (img, None)
    else
      var n := LengthAtTail(img);
      (WithWord(img, TAIL_OFFSET, TailOf(img) + HEADER + n),
       Some(Window(img, TailOf(img) + HEADER, n)))
  }

  /** The unread bytes, cut into the first frame and the rest. */
  lemma UnreadParts(img: Image)
    requires Coherent(img) && HeadOf(img) != TailOf(img)
    ensures LengthAtTail(img) <= MAX_MESSAGE && HEADER + LengthAtTail(img) <= |Unread(img)|
    ensures var n := LengthAtTail(img);
            && Unread(img)[HEADER..HEADER + n] == Window(img, TailOf(img) + HEADER, n)
            && Unread(img)[HEADER + n..] == Window(img, TailOf(img) + HEADER + n, |Unread(img)| - HEADER - n)
            && n == FromLE(Unread(img)[..HEADER])
  {
    var tail, used := TailOf(img), HeadOf(img) - TailOf(img);
    WindowSplit(img, tail, HEADER, used - HEADER);
    assert Unread(img)[..HEADER] == Window(img, tail, HEADER);
    var n := LengthAtTail(img);
    WindowSplit(img, tail + HEADER, n, used - HEADER - n);
  }

  /** The wrap-around ring refines the bounded FIFO: pop. */
  lemma PopRefines(img: Image)
    requires Coherent(img)
    ensures Coherent(AfterPop(img).0)
    ensures View(AfterPop(img).0) == FifoPop(View(img)).0
    ensures AfterPop(img).1 == FifoPop(View(img)).1
    ensures AfterPop(img).1.None? ==> AfterPop(img).0 == img
  {
    if HeadOf(img) != TailOf(img) {
      UnreadParts(img);
      if Poppable(img) {
        Widths();
        MovingTheTail(img, TailOf(img) + HEADER + LengthAtTail(img));
      }
    }
  }

  /** The file layout that both processes rely on: the magic, the two counters on lines of their
      own, then the ring. */
  lemma Layout(img: Image, at: nat, n: nat, k: nat)
    requires k < n
    ensures |img| == 65728 && |MAGIC| == 8 && forall i :: 0 <= i < 8 ==> MAGIC[i] == "MMAP0001"[i] as int
    ensures HeadOf(img) == FromLE(img[64..72]) && TailOf(img) == FromLE(img[128..136])
    ensures Window(img, at, n)[k] == img[192 + (at + k) % 65536]
  {
  }

  /** What `push` answers and does to the queue, in plain numbers: it takes a message of at most
      65532 bytes exactly if its frame fits beside what is unread and the head still fits 64 bits. */
  lemma PushTakesExactlyIf(img: Image, data: Message)
    requires Coherent(img)
    ensures var (after, r) := AfterPush(img, data);
            && Coherent(after)
            && (r.Pushed? <==> && |data| <= 65532 && HeadOf(img) - TailOf(img) + 4 + |data| <= 65536
                               && HeadOf(img) + 4 + |data| < 0x1_0000_0000_0000_0000)
            && (r.TooLarge? <==> |data| > 65532)
            && (r.RingFull? <==> |data| <= 65532 && HeadOf(img) - TailOf(img) + 4 + |data| > 65536)
            && QueueOf(after) == QueueOf(img) + if r.Pushed? then [data] else []
  {
    PushRefines(img, data);
  }

  /** ...and `pop`: it gives the first message exactly if there is one and it is not empty. */
  lemma PopGivesExactlyIf(img: Image)
    requires Coherent(img)
    ensures var (after, r) := AfterPop(img);
            && Coherent(after)
            && (r.Some? <==> QueueOf(img) != [] && QueueOf(img)[0] != [])
            && QueueOf(img) == (if r.Some? then [r.value] else []) + QueueOf(after)
  {
    PopRefines(img);
  }

  // ----- Whole runs of pushes and pops -----

  datatype Op = Send(data: Message) | Receive
  datatype Outcome = Sent(result: PushResult) | Received(message: Option<Message>)

  function RingOp(img: Image, op: Op): (Image, Outcome) {
    match op
    case Send(data) => var (after, r) := AfterPush(img, data); (after, Sent(r))
    case Receive => var (after, r) := AfterPop(img); (after, Received(r))
  }

  function FifoOp(f: Fifo, op: Op): (Fifo, Outcome) {
    match op
    case Send(data) => var (after, r) := FifoPush(f, data); (after, Sent(r))
    case Receive => var (after, r) := FifoPop(f); (after, Received(r))
  }

  function RingRun(img: Image, ops: seq<Op>): (Image, seq<Outcome>)
    decreases |ops|
  {
    if ops == [] then (img, [])
    else
      var (next, out) := RingOp(img, ops[0]);
      var (last, outs) := RingRun(next, ops[1..]);
      (last, [out] + outs)
  }

  function FifoRun(f: Fifo, ops: seq<Op>): (Fifo, seq<Outcome>)
    decreases |ops|
  {
    if ops == [] then (f, [])
    else
      var (next, out) := FifoOp(f, ops[0]);
      var (last, outs) := FifoRun(next, ops[1..]);
      (last, [out] + outs)
  }

  lemma RingOpRefines(img: Image, op: Op)
    requires Coherent(img)
    ensures Coherent(RingOp(img, op).0)
    ensures View(RingOp(img, op).0) == FifoOp(View(img), op).0
    ensures RingOp(img, op).1 == FifoOp(View(img), op).1
  {
    match op {
      case Send(data) => PushRefines(img, data);
      case Receive => PopRefines(img);
    }
  }

  /** From any coherent file, every run of pushes and pops answers as the FIFO does. */
  lemma {:induction false} RingRunRefines(img: Image, ops: seq<Op>)
    requires Coherent(img)
    ensures Coherent(RingRun(img, ops).0)
    ensures View(RingRun(img, ops).0) == FifoRun(View(img), ops).0
    ensures RingRun(img, ops).1 == FifoRun(View(img), ops).1
    decreases |ops|
  {
    if ops != [] {
      RingOpRefines(img, ops[0]);
      RingRunRefines(RingOp(img, ops[0]).0, ops[1..]);
    }
  }

  /** What one operation put in, and what it took out. */
  function Put(op: Op, out: Outcome): seq<Message> {
    if op.Send? && out == Sent(Pushed) then [op.data] else []
  }

  function Got(out: Outcome): seq<Message> {
    if out.Received? && out.message.Some? then [out.message.value] else []
  }

  function Accepted(ops: seq<Op>, outs: seq<Outcome>): seq<Message>
    requires |ops| == |outs|
  {
    if ops == [] then [] else Put(ops[0], outs[0]) + Accepted(ops[1..], outs[1..])
  }

  function Delivered(outs: seq<Outcome>): seq<Message> {
    if outs == [] then [] else Got(outs[0]) + Delivered(outs[1..])
  }

  lemma OpConserves(f: Fifo, op: Op)
    ensures var (next, out) := FifoOp(f, op);
            && f.queue + Put(op, out) == Got(out) + next.queue
            && next.head == f.head + |Stream(Put(op, out))|
            && next.tail == f.tail + |Stream(Got(out))|
  {
  }

  lemma ChainQueues(q: seq<Message>, put: seq<Message>, got: seq<Message>, mid: seq<Message>,
                    puts: seq<Message>, gots: seq<Message>, last: seq<Message>)
    requires q + put == got + mid && mid + puts == gots + last
    ensures q + (put + puts) == (got + gots) + last
  {
    assert q + (put + puts) == (q + put) + puts == got + (mid + puts);
  }

  /** Over a run nothing is lost, made up or reordered, and each counter has moved by
      exactly the framed bytes accepted, respectively delivered. */
  lemma {:induction false} RunConserves(f: Fifo, ops: seq<Op>)
    ensures |FifoRun(f, ops).1| == |ops|
    ensures var (last, outs) := FifoRun(f, ops);
            && f.queue + Accepted(ops, outs) == Delivered(outs) + last.queue
            && last.head == f.head + |Stream(Accepted(ops, outs))|
            && last.tail == f.tail + |Stream(Delivered(outs))|
    decreases |ops|
  {
    if ops == [] {
      assert f.queue + [] == [] + f.queue;
    } else {
      var (next, out) := FifoOp(f, ops[0]);
      var (last, outs) := FifoRun(next, ops[1..]);
      OpConserves(f, ops[0]);
      RunConserves(next, ops[1..]);
      assert ([out] + outs)[1..] == outs;
      var later, got := Accepted(ops[1..], outs), Delivered(outs);
      StreamConcat(Put(ops[0], out), later);
      StreamConcat(Got(out), got);
      ChainQueues(f.queue, Put(ops[0], out), Got(out), next.queue, later, got, last.queue);
    }
  }

  /** `push` accepts an empty message but `pop` will not take it: from the moment one is
      first in line, no run of pushes and pops moves the tail or delivers anything. */
  lemma {:induction false} EmptyMessageStalls(f: Fifo, ops: seq<Op>)
    requires f.queue != [] && f.queue[0] == []
    ensures FifoRun(f, ops).0.tail == f.tail && Delivered(FifoRun(f, ops).1) == []
    decreases |ops|
  {
    if ops != [] {
      EmptyMessageStalls(FifoOp(f, ops[0]).0, ops[1..]);
    }
  }

  /** So one push can stop an idle chamber: it takes the empty message and has nothing to give. */
  lemma EmptyPushIsNeverPopped(img: Image)
    requires Coherent(img) && QueueOf(img) == []
    ensures AfterPush(img, []).1.Pushed? <==> HeadOf(img) + HEADER < TWO_64
    ensures AfterPop(AfterPush(img, []).0).1.None?
  {
    PushRefines(img, []);
    PopRefines(AfterPush(img, []).0);
  }

  function Receives(n: nat): (ops: seq<Op>)
    ensures |ops| == n
  {
    if n == 0 then [] else [Receive] + Receives(n - 1)
  }

  /** What comes before the first empty message. */
  function UpToEmpty(ms: seq<Message>): (r: seq<Message>)
    ensures r == ms <==> [] !in ms
  {
    if ms == [] || ms[0] == [] then [] else [ms[0]] + UpToEmpty(ms[1..])
  }

  lemma {:induction false} FifoDrains(f: Fifo)
    ensures Delivered(FifoRun(f, Receives(|f.queue|)).1) == UpToEmpty(f.queue)
    decreases |f.queue|
  {
    var ops := Receives(|f.queue|);
    if f.queue == [] {
    } else if f.queue[0] == [] {
      EmptyMessageStalls(f, ops);
    } else {
      var next := FifoOp(f, Receive).0;
      FifoDrains(next);
      DeliveredCons(Received(Some(f.queue[0])), FifoRun(next, ops[1..]).1);
    }
  }

  lemma DeliveredCons(out: Outcome, outs: seq<Outcome>)
    ensures Delivered([out] + outs) == Got(out) + Delivered(outs)
  {
  }

  /** Popping as often as there are messages delivers those before the first empty one: all
      of them exactly if none is empty. */
  lemma DrainingDeliversAllExactlyIf(img: Image)
    requires Coherent(img)
    ensures var got := Delivered(RingRun(img, Receives(|QueueOf(img)|)).1);
            && got == UpToEmpty(QueueOf(img))
            && (got == QueueOf(img) <==> [] !in QueueOf(img))
  {
    RingRunRefines(img, Receives(|QueueOf(img)|));
    FifoDrains(View(img));
  }

  datatype Opening = Opened(chamber: Chamber) | WrongSize | ForeignFile

  class Chamber {
    var mm: array<Byte>

    predicate Mapped()
      reads this
    {
      mm.Length == FILE_SIZE
    }

    /** The file contents: the only state two attached processes share. */
    function File(): Image
      reads this, mm
      requires Mapped()
    {
      mm[..]
    }

    /** Creates the file: zeroed, then the eight magic bytes at its start. */
    constructor Create()
      ensures Mapped() && fresh(mm)
      ensures File()[..WORD] == MAGIC
      ensures HeadOf(File()) == 0 == TailOf(File()) && Coherent(File()) && QueueOf(File()) == []
    {
      mm := new Byte[FILE_SIZE](i => if 0 <= i < WORD then MAGIC[i] else 0);
      new;
      ZerosRead(mm[HEAD_OFFSET..HEAD_OFFSET + WORD]);
      ZerosRead(mm[TAIL_OFFSET..TAIL_OFFSET + WORD]);
    }

    /** Maps the bytes of an existing file. */
    constructor Attach(file: array<Byte>)
      ensures mm == file
    {
      mm := file;
    }

    /** Opens a chamber file; a file of another size or without the magic is refused. */
    static method Open(file: array<Byte>) returns (r: Opening)
      ensures r.WrongSize? <==> file.Length != FILE_SIZE
      ensures r.ForeignFile? <==> file.Length == FILE_SIZE && file[..WORD] != MAGIC
      ensures r.Opened? ==> fresh(r.chamber) && r.chamber.mm == file && r.chamber.Mapped()
    {
      if file.Length != FILE_SIZE {
        return WrongSize;
      }
      if file[..WORD] != MAGIC {
        return ForeignFile;
      }
      var chamber := new Chamber.Attach(file);
      return Opened(chamber);
    }

    method WriteWrap(pos: nat, data: seq<Byte>)
      requires Mapped() && pos < CAPACITY && |data| <= CAPACITY
      modifies mm
      ensures File() == Written(old(File()), pos, data)
    {
      var first := if CAPACITY - pos < |data| then CAPACITY - pos else |data|;
      forall i | 0 <= i < first {
        mm[PAYLOAD_OFFSET + pos + i] := data[i];
      }
      if first < |data| {
        var rest := |data| - first;
        forall i | 0 <= i < rest {
          mm[PAYLOAD_OFFSET + i] := data[first + i];
        }
      }
      forall i | 0 <= i < FILE_SIZE
        ensures mm[i] == Written(old(File()), pos, data)[i]
      {
        if i >= PAYLOAD_OFFSET {
          var j := i - PAYLOAD_OFFSET;
          assert (j - pos) % CAPACITY == if j < pos then j - pos + CAPACITY else j - pos;
        }
      }
    }

    method ReadWrap(pos: nat, length: nat) returns (out: seq<Byte>)
      requires Mapped() && pos < CAPACITY && length <= CAPACITY
      ensures out == Window(File(), pos, length)
    {
      var first := if CAPACITY - pos < length then CAPACITY - pos else length;
      out := mm[PAYLOAD_OFFSET + pos..PAYLOAD_OFFSET + pos + first];
      if first < length {
        out := out + mm[PAYLOAD_OFFSET..PAYLOAD_OFFSET + length - first];
      }
    }

    method ReadWord(offset: nat) returns (x: nat)
      requires Mapped() && offset + WORD <= PAYLOAD_OFFSET
      ensures x == FromLE(File()[offset..offset + WORD])
    {
      x := FromLE(mm[offset..offset + WORD]);
    }

    method WriteWord(offset: nat, x: nat)
      requires Mapped() && offset + WORD <= PAYLOAD_OFFSET && x < TWO_64
      modifies mm
      ensures File() == WithWord(old(File()), offset, x)
    {
      var bytes := ToLE(x, WORD);
      ghost var before := mm[..];
      forall i | 0 <= i < WORD {
        mm[offset + i] := bytes[i];
      }
      assert mm[..offset] == before[..offset] && mm[offset + WORD..] == before[offset + WORD..];
      assert mm[offset..offset + WORD] == bytes;
    }

    method Push(data: Message) returns (r: PushResult)
      requires Mapped()
      modifies mm
      ensures File() == AfterPush(old(File()), data).0
      ensures r == AfterPush(old(File()), data).1
    {
      if |data| > MAX_MESSAGE {
        return TooLarge;
      }
      var head := ReadWord(HEAD_OFFSET);
      var tail := ReadWord(TAIL_OFFSET);
      var used := head - tail;
      if used + HEADER + |data| > CAPACITY {
        return RingFull;
      }
      WriteWrap(head % CAPACITY, ToLE(|data|, HEADER));
      WriteWrap((head + HEADER) % CAPACITY, data);
      if head + HEADER + |data| >= TWO_64 {
        return CounterOverflow;
      }
      WriteWord(HEAD_OFFSET, head + HEADER + |data|);
      return Pushed;
    }

    method Pop() returns (r: Option<Message>)
      requires Mapped()
      modifies mm
      ensures File() == AfterPop(old(File())).0
      ensures r == AfterPop(old(File())).1
    {
      ghost var before := File();
      var head := ReadWord(HEAD_OFFSET);
      var tail := ReadWord(TAIL_OFFSET);
      if head == tail {
        return None;
      }
      var pos := tail % CAPACITY;
      var prefix := ReadWrap(pos, HEADER);
      assert FromLE(prefix) == LengthAtTail(before) by {
        WindowModulo(before, tail, HEADER);
      }
      var length := FromLE(prefix);
      if length == 0 || length > MAX_MESSAGE || head - tail < HEADER + length {
        assert !Poppable(before);
        return None;
      }
      assert Poppable(before);
      var out := ReadWrap((pos + HEADER) % CAPACITY, length);
      assert out == Window(before, tail + HEADER, length) by {
        PositionAfterHeader(tail);
        WindowModulo(before, tail + HEADER, length);
      }
      assert AfterPop(before).1 == Some(out);
      assert tail + HEADER + length < TWO_64 by {
        Widths();
      }
      WriteWord(TAIL_OFFSET, tail + HEADER + length);
      return Some(out);
    }

    method Reset()
      requires Mapped()
      modifies mm
      ensures Coherent(File()) && QueueOf(File()) == []
      ensures HeadOf(File()) == 0 == TailOf(File())
      ensures File()[PAYLOAD_OFFSET..] == old(File())[PAYLOAD_OFFSET..]
    {
      WriteWord(HEAD_OFFSET, 0);
      ghost var half := File();
      WriteWord(TAIL_OFFSET, 0);
      assert File()[HEAD_OFFSET..HEAD_OFFSET + WORD] == half[HEAD_OFFSET..HEAD_OFFSET + WORD];
    }
  }
}
