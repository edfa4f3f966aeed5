/**
 The chamber under concurrency: one producer and one consumer, each in the middle
 of its own `push` or `pop`, interleaved one memory access at a time.  Counter
 loads and stores are single accesses; frames are written and read byte by byte,
 in any order, so half-written and half-read frames and stale counter snapshots
 all occur.  `published`, `popped` and the consumer's `seen` are history: no step
 ever decides anything by them.
 */
module Spsc {
  import opened Bytes
  import opened Framing
  import opened Wrappers

  datatype Producer =
    | Resting
    | HasHead(msg: Message, head: nat)
    | Writing(msg: Message, head: nat, done: set<nat>)

  datatype Consumer =
    | Waiting
    | SawHead(head: nat, seen: nat)
    | ReadingLength(head: nat, tail: nat, seen: nat, got: map<nat, Byte>)
    | ReadingPayload(tail: nat, length: nat, got: map<nat, Byte>)

  datatype State = State(
    ring: seq<Byte>, head: nat, tail: nat,
    producer: Producer, consumer: Consumer,
    published: seq<Message>, popped: seq<Message>)

  datatype Step =
    | PushLoadHead(msg: Message) | PushLoadTail | PushWrite(k: nat) | PushPublish
    | PopLoadHead | PopLoadTail | PopReadLength(k: nat) | PopCheck | PopReadByte(k: nat) | PopPublish

  ghost predicate Initial(s: State) {
    && |s.ring| == CAPACITY && s.head == 0 && s.tail == 0
    && s.producer == Resting && s.consumer == Waiting && s.published == [] && s.popped == []
  }

  function Collected(got: map<nat, Byte>, n: nat): seq<Byte>
    requires forall k :: 0 <= k < n ==> k in got
  {
    seq(n, k requires 0 <= k < n => got[k])
  }

  predicate Complete(got: map<nat, Byte>, n: nat) {
    forall k :: 0 <= k < n ==> k in got
  }

  /** One access by either side; a step that is not enabled changes nothing. */
  function Do(s: State, a: Step): State
    requires |s.ring| == CAPACITY
    ensures |Do(s, a).ring| == CAPACITY
  {
    match a
    case PushLoadHead(msg) =>
      if s.producer.Resting? && Sendable(msg) then s.(producer := HasHead(msg, s.head)) else s
    case PushLoadTail =>
      if !s.producer.HasHead? then s
      else
        var HasHead(msg, head) := s.producer;
        if head - s.tail + HEADER + |msg| > CAPACITY then s.(producer := Resting)
        else s.(producer := Writing(msg, head, {}))
    case PushWrite(k) =>
      if !s.producer.Writing? || k >= HEADER + |s.producer.msg| then s
      else
        var Writing(msg, head, done) := s.producer;
        s.(ring := s.ring[(head + k) % CAPACITY := Frame(msg)[k]], producer := Writing(msg, head, done + {k}))
    case PushPublish =>
      if !s.producer.Writing? || exists k :: 0 <= k < HEADER + |s.producer.msg| && k !in s.producer.done then s
      else
        var Writing(msg, head, _) := s.producer;
        if head + HEADER + |msg| >= TWO_64 then s.(producer := Resting)
        else s.(head := head + HEADER + |msg|, producer := Resting, published := s.published + [msg])
    case PopLoadHead =>
      if s.consumer.Waiting? then s.(consumer := SawHead(s.head, |s.published|)) else s
    case PopLoadTail =>
      if !s.consumer.SawHead? then s
      else if s.consumer.head == s.tail then s.(consumer := Waiting)
      else s.(consumer := ReadingLength(s.consumer.head, s.tail, s.consumer.seen, map[]))
    case PopReadLength(k) =>
      if !s.consumer.ReadingLength? || k >= HEADER then s
      else
        var ReadingLength(head, tail, seen, got) := s.consumer;
        s.(consumer := ReadingLength(head, tail, seen, got[k := s.ring[(tail + k) % CAPACITY]]))
    case PopCheck =>
      if !s.consumer.ReadingLength? || !Complete(s.consumer.got, HEADER) then s
      else
        var ReadingLength(head, tail, _, got) := s.consumer;
        var length := FromLE(Collected(got, HEADER));
        if length == 0 || length > MAX_MESSAGE || head - tail < HEADER + length then s.(consumer := Waiting)
        else s.(consumer := ReadingPayload(tail, length, map[]))
    case PopReadByte(k) =>
      if !s.consumer.ReadingPayload? || k >= s.consumer.length then s
      else
        var ReadingPayload(tail, length, got) := s.consumer;
        s.(consumer := ReadingPayload(tail, length, got[k := s.ring[(tail + HEADER + k) % CAPACITY]]))
    case PopPublish =>
      if !s.consumer.ReadingPayload? || !Complete(s.consumer.got, s.consumer.length) then s
      else
        var ReadingPayload(tail, length, got) := s.consumer;
        s.(tail := tail + HEADER + length, consumer := Waiting, popped := s.popped + [Collected(got, length)])
  }

  /** The scheduler's choice of accesses, first to last. */
  function Run(s: State, steps: seq<Step>): State
    requires |s.ring| == CAPACITY
    ensures |Run(s, steps).ring| == CAPACITY
    decreases |steps|
  {
    if steps == [] then s else Run(Do(s, steps[0]), steps[1..])
  }

  // ----- Where frames lie in the published byte stream -----

  function Offset(ms: seq<Message>, n: nat): nat
    requires n <= |ms|
  {
    |Stream(ms[..n])|
  }

  lemma FrameInStream(ms: seq<Message>, n: nat)
    requires n < |ms|
    ensures Offset(ms, n + 1) == Offset(ms, n) + |Frame(ms[n])| <= |Stream(ms)|
    ensures Stream(ms)[Offset(ms, n)..Offset(ms, n + 1)] == Frame(ms[n])
  {
    StreamAppend(ms[..n], ms[n]);
    assert ms[..n] + [ms[n]] == ms[..n + 1];
    StreamConcat(ms[..n + 1], ms[n + 1..]);
    assert ms[..n + 1] + ms[n + 1..] == ms;
    assert Stream(ms) == (Stream(ms[..n]) + Frame(ms[n])) + Stream(ms[n + 1..]);
  }

  lemma {:induction false} OffsetsGrow(ms: seq<Message>, i: nat, j: nat)
    requires i <= j <= |ms|
    ensures Offset(ms, i) + HEADER * (j - i) <= Offset(ms, j) <= |Stream(ms)|
    decreases j - i
  {
    if i < j {
      FrameInStream(ms, i);
      OffsetsGrow(ms, i + 1, j);
    } else {
      StreamConcat(ms[..i], ms[i..]);
      assert ms[..i] + ms[i..] == ms;
    }
  }

  lemma RingSlotsDiffer(x: nat, y: nat)
    requires x < y < x + CAPACITY
    ensures x % CAPACITY != y % CAPACITY
  {
  }

  // ----- The invariant -----

  ghost predicate CountersOk(s: State) {
    && |s.ring| == CAPACITY
    && AllSendable(s.published)
    && s.popped <= s.published
    && s.tail == Offset(s.published, |s.popped|)
    && s.head == |Stream(s.published)| < TWO_64
    && s.tail <= s.head <= s.tail + CAPACITY
  }

  /** Every unread published byte is in its ring slot. */
  ghost predicate UnreadIntact(s: State)
    requires CountersOk(s)
  {
    forall k :: s.tail <= k < s.head ==> s.ring[k % CAPACITY] == Stream(s.published)[k]
  }

  ghost predicate ProducerOk(s: State)
    requires CountersOk(s)
  {
    match s.producer
    case Resting => true
    case HasHead(msg, head) => Sendable(msg) && head == s.head
    case Writing(msg, head, done) =>
      && Sendable(msg) && head == s.head && head + HEADER + |msg| <= s.tail + CAPACITY
      && forall k :: k in done ==> k < HEADER + |msg| && s.ring[(head + k) % CAPACITY] == Frame(msg)[k]
  }

  ghost predicate SnapshotOk(s: State, head: nat, seen: nat)
    requires CountersOk(s)
  {
    |s.popped| <= seen <= |s.published| && head == Offset(s.published, seen)
  }

  ghost predicate ConsumerOk(s: State)
    requires CountersOk(s)
  {
    match s.consumer
    case Waiting => true
    case SawHead(head, seen) => SnapshotOk(s, head, seen)
    case ReadingLength(head, tail, seen, got) =>
      && SnapshotOk(s, head, seen) && |s.popped| < seen && tail == s.tail
      && forall k :: k in got ==> k < HEADER && got[k] == Frame(s.published[|s.popped|])[k]
    case ReadingPayload(tail, length, got) =>
      && |s.popped| < |s.published| && tail == s.tail
      && length == |s.published[|s.popped|]| > 0
      && forall k :: k in got ==> k < length && got[k] == s.published[|s.popped|][k]
  }

  ghost predicate Inv(s: State) {
    CountersOk(s) && UnreadIntact(s) && ProducerOk(s) && ConsumerOk(s)
  }

  lemma InitialInv(s: State)
    requires Initial(s)
    ensures Inv(s)
  {
  }

  /** What the consumer finds in the slots of the first unread frame. */
  lemma UnreadFrame(s: State, k: nat)
    requires CountersOk(s) && UnreadIntact(s) && |s.popped| < |s.published|
    requires k < |Frame(s.published[|s.popped|])|
    ensures s.ring[(s.tail + k) % CAPACITY] == Frame(s.published[|s.popped|])[k]
    ensures s.tail + |Frame(s.published[|s.popped|])| <= s.head
  {
    var n := |s.popped|;
    FrameInStream(s.published, n);
    assert Stream(s.published)[s.tail + k]
        == Stream(s.published)[Offset(s.published, n)..Offset(s.published, n + 1)][k];
  }

  /** A store into the frame being written lands on no unread byte... */
  lemma WriteSparesUnread(s: State, k: nat)
    requires Inv(s) && s.producer.Writing? && k < HEADER + |s.producer.msg|
    ensures UnreadIntact(Do(s, PushWrite(k)))
  {
    var at := s.producer.head + k;
    var t := Do(s, PushWrite(k));
    assert t.ring == s.ring[at % CAPACITY := Frame(s.producer.msg)[k]];
    forall i | s.tail <= i < s.head
      ensures t.ring[i % CAPACITY] == s.ring[i % CAPACITY]
    {
      RingSlotsDiffer(i, at);
    }
  }

  /** ...and on no other byte of the frame. */
  lemma WriteSparesFrame(s: State, k: nat, i: nat)
    requires Inv(s) && s.producer.Writing? && k < HEADER + |s.producer.msg|
    requires i in s.producer.done + {k}
    ensures i < HEADER + |s.producer.msg|
    ensures Do(s, PushWrite(k)).ring[(s.producer.head + i) % CAPACITY] == Frame(s.producer.msg)[i]
  {
    if i != k {
      SlotsInFrameDiffer(s.producer.head, i, k);
    }
  }

  lemma SlotsInFrameDiffer(head: nat, i: nat, k: nat)
    requires i != k && i < CAPACITY && k < CAPACITY
    ensures (head + i) % CAPACITY != (head + k) % CAPACITY
  {
  }

  /** Counters and consumer do not look at the ring or the producer. */
  lemma WriteLeavesRest(s: State, ring: seq<Byte>, producer: Producer)
    requires CountersOk(s) && ConsumerOk(s) && |ring| == CAPACITY
    ensures CountersOk(s.(ring := ring, producer := producer)) && ConsumerOk(s.(ring := ring, producer := producer))
  {
  }

  lemma WriteStep(s: State, k: nat)
    requires Inv(s)
    ensures Inv(Do(s, PushWrite(k)))
  {
    if s.producer.Writing? && k < HEADER + |s.producer.msg| {
      var t := Do(s, PushWrite(k));
      WriteLeavesRest(s, t.ring, t.producer);
      WriteSparesUnread(s, k);
      forall i | i in t.producer.done
        ensures i < HEADER + |s.producer.msg|
        ensures t.ring[(s.producer.head + i) % CAPACITY] == Frame(s.producer.msg)[i]
      {
        WriteSparesFrame(s, k, i);
      }
      assert ProducerOk(t);
    }
  }

  lemma PublishCounters(s: State)
    requires Inv(s)
    ensures CountersOk(Do(s, PushPublish))
  {
    var t := Do(s, PushPublish);
    if t.published != s.published {
      var msg := s.producer.msg;
      StreamAppend(s.published, msg);
      assert t.published[..|s.popped|] == s.published[..|s.popped|];
    }
  }

  lemma NewFrameInRing(s: State, k: nat)
    requires Inv(s) && s.producer.Writing? && k < HEADER + |s.producer.msg|
    requires forall i :: 0 <= i < HEADER + |s.producer.msg| ==> i in s.producer.done
    ensures s.ring[(s.head + k) % CAPACITY] == (Stream(s.published) + Frame(s.producer.msg))[s.head + k]
  {
  }

  /** Moving the head exposes the new frame and nothing else. */
  lemma PublishUnread(s: State)
    requires Inv(s) && CountersOk(Do(s, PushPublish))
    ensures UnreadIntact(Do(s, PushPublish))
  {
    var t := Do(s, PushPublish);
    if t.published != s.published {
      var msg := s.producer.msg;
      StreamAppend(s.published, msg);
      var stream := Stream(s.published) + Frame(msg);
      forall k | t.tail <= k < t.head
        ensures t.ring[k % CAPACITY] == stream[k]
      {
        if k >= s.head {
          NewFrameInRing(s, k - s.head);
        } else {
          assert s.ring[k % CAPACITY] == Stream(s.published)[k];
        }
      }
    }
  }

  lemma PublishStep(s: State)
    requires Inv(s)
    ensures Inv(Do(s, PushPublish))
  {
    PublishCounters(s);
    PublishUnread(s);
    var t := Do(s, PushPublish);
    if s.consumer.SawHead? || s.consumer.ReadingLength? {
      assert t.published[..s.consumer.seen] == s.published[..s.consumer.seen];
    }
  }

  lemma PopLoadHeadStep(s: State)
    requires Inv(s)
    ensures Inv(Do(s, PopLoadHead))
  {
    assert s.published[..|s.published|] == s.published;
  }

  /** The snapshot equals the tail exactly when nothing was unread as it was taken. */
  lemma PopLoadTailStep(s: State)
    requires Inv(s)
    ensures Inv(Do(s, PopLoadTail))
    ensures s.consumer.SawHead? ==> (s.consumer.head == s.tail <==> s.consumer.seen == |s.popped|)
  {
    if s.consumer.SawHead? {
      OffsetsGrow(s.published, |s.popped|, s.consumer.seen);
    }
  }

  /** A step of the consumer that moves no counter concerns nobody else. */
  lemma ConsumerMoves(s: State, consumer: Consumer)
    requires Inv(s) && ConsumerOk(s.(consumer := consumer))
    ensures Inv(s.(consumer := consumer))
  {
  }

  lemma ReadLengthStep(s: State, k: nat)
    requires Inv(s)
    ensures Inv(Do(s, PopReadLength(k)))
  {
    if s.consumer.ReadingLength? && k < HEADER {
      UnreadFrame(s, k);
      ConsumerMoves(s, Do(s, PopReadLength(k)).consumer);
    }
  }

  /** With all four length bytes in hand, `pop` refuses exactly an empty message: neither
      an oversized length nor a partly committed frame is ever observed. */
  lemma CheckDecides(s: State)
    requires Inv(s) && s.consumer.ReadingLength? && Complete(s.consumer.got, HEADER)
    ensures var length := FromLE(Collected(s.consumer.got, HEADER));
            && length == |s.published[|s.popped|]| <= MAX_MESSAGE
            && s.consumer.head - s.consumer.tail >= HEADER + length
    ensures Do(s, PopCheck).consumer.Waiting? <==> s.published[|s.popped|] == []
  {
    var m := s.published[|s.popped|];
    LengthIsKnown(s.consumer.got, m);
    FirstFrameCommitted(s.published, |s.popped|, s.consumer.seen);
  }

  lemma LengthIsKnown(got: map<nat, Byte>, m: Message)
    requires Sendable(m) && Complete(got, HEADER)
    requires forall k :: 0 <= k < HEADER ==> got[k] == Frame(m)[k]
    ensures FromLE(Collected(got, HEADER)) == |m|
  {
    assert Collected(got, HEADER) == Frame(m)[..HEADER];
    LengthField(m);
  }

  lemma FirstFrameCommitted(ms: seq<Message>, n: nat, seen: nat)
    requires n < seen <= |ms|
    ensures Offset(ms, seen) - Offset(ms, n) >= HEADER + |ms[n]|
  {
    FrameInStream(ms, n);
    OffsetsGrow(ms, n + 1, seen);
  }

  lemma CheckStep(s: State)
    requires Inv(s)
    ensures Inv(Do(s, PopCheck))
  {
    if s.consumer.ReadingLength? && Complete(s.consumer.got, HEADER) {
      CheckDecides(s);
    }
  }

  lemma UnreadPayload(s: State, k: nat)
    requires CountersOk(s) && UnreadIntact(s) && |s.popped| < |s.published| && k < |s.published[|s.popped|]|
    ensures s.ring[(s.tail + HEADER + k) % CAPACITY] == s.published[|s.popped|][k]
  {
    var m := s.published[|s.popped|];
    UnreadFrame(s, HEADER + k);
    assert Frame(m)[HEADER + k] == Frame(m)[HEADER..][k];
  }

  lemma ReadByteStep(s: State, k: nat)
    requires Inv(s)
    ensures Inv(Do(s, PopReadByte(k)))
  {
    if s.consumer.ReadingPayload? && k < s.consumer.length {
      UnreadPayload(s, k);
      ConsumerMoves(s, Do(s, PopReadByte(k)).consumer);
    }
  }

  /** What is handed over is the first unread message, byte for byte. */
  lemma PopPublishStep(s: State)
    requires Inv(s)
    ensures Inv(Do(s, PopPublish))
  {
    if s.consumer.ReadingPayload? && Complete(s.consumer.got, s.consumer.length) {
      var n := |s.popped|;
      var t := Do(s, PopPublish);
      assert Collected(s.consumer.got, s.consumer.length) == s.published[n];
      FrameInStream(s.published, n);
      assert t.popped <= s.published;
      assert CountersOk(t);
    }
  }

  lemma StepInv(s: State, a: Step)
    requires Inv(s)
    ensures Inv(Do(s, a))
  {
    match a {
      case PushLoadHead(_) =>
      case PushLoadTail =>
      case PushWrite(k) => WriteStep(s, k);
      case PushPublish => PublishStep(s);
      case PopLoadHead => PopLoadHeadStep(s);
      case PopLoadTail => PopLoadTailStep(s);
      case PopReadLength(k) => ReadLengthStep(s, k);
      case PopCheck => CheckStep(s);
      case PopReadByte(k) => ReadByteStep(s, k);
      case PopPublish => PopPublishStep(s);
    }
  }

  lemma {:induction false} RunInv(s: State, steps: seq<Step>)
    requires Inv(s)
    ensures Inv(Run(s, steps))
    decreases |steps|
  {
    if steps != [] {
      StepInv(s, steps[0]);
      RunInv(Do(s, steps[0]), steps[1..]);
    }
  }

  /** Safety over every interleaving: what has been popped is a prefix of what has been
      published, and the counters are the framed byte totals, never more than one ring apart. */
  lemma FifoUnderInterleaving(s: State, steps: seq<Step>)
    requires Initial(s)
    ensures var t := Run(s, steps);
            && t.popped <= t.published
            && t.head == |Stream(t.published)| && t.tail == |Stream(t.popped)|
            && t.tail <= t.head <= t.tail + CAPACITY
  {
    InitialInv(s);
    RunInv(s, steps);
    var t := Run(s, steps);
    assert t.published[..|t.popped|] == t.popped;
  }

  /** The ring bytes between the counters, following the wrap. */
  function Shared(s: State): seq<Byte>
    requires |s.ring| == CAPACITY && s.tail <= s.head
  {
    seq(s.head - s.tail, k requires 0 <= k < s.head - s.tail => s.ring[(s.tail + k) % CAPACITY])
  }

  lemma SharedIsUnread(s: State)
    requires CountersOk(s) && UnreadIntact(s)
    ensures Shared(s) == Stream(s.published[|s.popped|..])
  {
    var n := |s.popped|;
    StreamConcat(s.published[..n], s.published[n..]);
    assert s.published[..n] + s.published[n..] == s.published;
    var unread := Stream(s.published[n..]);
    assert |unread| == s.head - s.tail;
    forall k | 0 <= k < |unread|
      ensures Shared(s)[k] == unread[k]
    {
      assert Stream(s.published)[s.tail + k] == unread[k];
    }
  }

  /** At every moment of every interleaving, even with a frame half written or half read, a
      process that attaches finds exactly the undelivered messages in the shared bytes. */
  lemma AttachingSeesUndelivered(s: State, steps: seq<Step>)
    requires Initial(s)
    ensures var t := Run(s, steps);
            && t.tail <= t.head && |t.popped| <= |t.published|
            && Decode(Shared(t)) == Some(t.published[|t.popped|..])
  {
    InitialInv(s);
    RunInv(s, steps);
    var t := Run(s, steps);
    SharedIsUnread(t);
    DecodeStream(t.published[|t.popped|..]);
  }

  /** Over every interleaving, whenever a pop has loaded the tail it goes on exactly if
      something was unread when it loaded the head; and whenever it holds the four length
      bytes it refuses exactly if the first unread message is empty. */
  lemma PopAnswersHonestly(s: State, steps: seq<Step>)
    requires Initial(s)
    ensures var t := Run(s, steps);
            && (t.consumer.SawHead? ==>
                 (Do(t, PopLoadTail).consumer.Waiting? <==> t.consumer.seen == |t.popped|))
            && (t.consumer.ReadingLength? && Complete(t.consumer.got, HEADER) ==>
                 |t.popped| < |t.published|
                 && (Do(t, PopCheck).consumer.Waiting? <==> t.published[|t.popped|] == []))
  {
    InitialInv(s);
    RunInv(s, steps);
    var t := Run(s, steps);
    PopLoadTailStep(t);
    if t.consumer.ReadingLength? && Complete(t.consumer.got, HEADER) {
      CheckDecides(t);
    }
  }

  ghost predicate Blocked(s: State) {
    Inv(s) && |s.popped| < |s.published| && s.published[|s.popped|] == []
  }

  lemma BlockedStep(s: State, a: Step)
    requires Blocked(s)
    ensures var t := Do(s, a); t.tail == s.tail && t.popped == s.popped && s.published <= t.published
  {
  }

  /** An empty message at the front stops delivery for good, however the rest interleaves. */
  lemma {:induction false} EmptyMessageBlocks(s: State, steps: seq<Step>)
    requires Blocked(s)
    ensures Run(s, steps).tail == s.tail && Run(s, steps).popped == s.popped
    decreases |steps|
  {
    if steps != [] {
      StepInv(s, steps[0]);
      BlockedStep(s, steps[0]);
      EmptyMessageBlocks(Do(s, steps[0]), steps[1..]);
    }
  }

  // ----- One whole call among arbitrary accesses of the other side -----

  predicate IsPop(a: Step) {
    a.PopLoadHead? || a.PopLoadTail? || a.PopReadLength? || a.PopCheck? || a.PopReadByte? || a.PopPublish?
  }

  /** The consumer's accesses in a schedule. */
  function Pops(steps: seq<Step>): seq<Step> {
    if steps == [] then [] else (if IsPop(steps[0]) then [steps[0]] else []) + Pops(steps[1..])
  }

  /** The producer's. */
  function Pushes(steps: seq<Step>): seq<Step> {
    if steps == [] then [] else (if IsPop(steps[0]) then [] else [steps[0]]) + Pushes(steps[1..])
  }

  /** Where a pop of `n` payload bytes stands. */
  datatype PopStage = PopStart | PopLoaded | PopLength(k: nat) | PopPayload(k: nat) | PopDone

  function NextPop(at: PopStage, n: nat): (Step, PopStage)
    requires !at.PopDone?
  {
    match at
    case PopStart => (PopLoadHead, PopLoaded)
    case PopLoaded => (PopLoadTail, PopLength(0))
    case PopLength(k) => if k < HEADER then (PopReadLength(k), PopLength(k + 1)) else (PopCheck, PopPayload(0))
    case PopPayload(k) => if k < n then (PopReadByte(k), PopPayload(k + 1)) else (PopPublish, PopDone)
  }

  function PopStepsLeft(at: PopStage, n: nat): nat {
    match at
    case PopStart => HEADER + n + 4
    case PopLoaded => HEADER + n + 3
    case PopLength(k) => if k < HEADER then HEADER - k + n + 2 else n + 2
    case PopPayload(k) => if k < n then n - k + 1 else 1
    case PopDone => 0
  }

  /** The accesses of a pop from there on, in the order of the code. */
  function PopFrom(at: PopStage, n: nat): seq<Step>
    decreases PopStepsLeft(at, n)
  {
    if at.PopDone? then [] else [NextPop(at, n).0] + PopFrom(NextPop(at, n).1, n)
  }

  /** A pop of `m` stands at `at`; `before` had been popped when it began. */
  ghost predicate PopAt(s: State, at: PopStage, before: seq<Message>, m: Message) {
    && Inv(s)
    && (if at.PopDone? then s.popped == before + [m]
        else s.popped == before && |before| < |s.published| && s.published[|before|] == m)
    && match at
       case PopStart | PopDone => s.consumer.Waiting?
       case PopLoaded => s.consumer.SawHead? && s.consumer.seen > |before|
       case PopLength(k) => k <= HEADER && s.consumer.ReadingLength? && Complete(s.consumer.got, k)
       case PopPayload(k) => k <= |m| && s.consumer.ReadingPayload? && Complete(s.consumer.got, k)
  }

  lemma LengthAdvances(s: State, k: nat, before: seq<Message>, m: Message)
    requires PopAt(s, PopLength(k), before, m) && m != []
    ensures k < HEADER ==> PopAt(Do(s, PopReadLength(k)), PopLength(k + 1), before, m)
    ensures k == HEADER ==> PopAt(Do(s, PopCheck), PopPayload(0), before, m)
  {
    if k < HEADER {
      ReadLengthStep(s, k);
    } else {
      CheckStep(s);
      CheckDecides(s);
    }
  }

  lemma PayloadAdvances(s: State, k: nat, before: seq<Message>, m: Message)
    requires PopAt(s, PopPayload(k), before, m) && k < |m|
    ensures PopAt(Do(s, PopReadByte(k)), PopPayload(k + 1), before, m)
  {
    ReadByteStep(s, k);
  }

  lemma PayloadDelivered(s: State, before: seq<Message>, m: Message)
    requires PopAt(s, PopPayload(|m|), before, m)
    ensures PopAt(Do(s, PopPublish), PopDone, before, m)
  {
    PopPublishStep(s);
    assert Collected(s.consumer.got, |m|) == m;
  }

  lemma PopAdvances(s: State, at: PopStage, before: seq<Message>, m: Message)
    requires PopAt(s, at, before, m) && !at.PopDone? && m != []
    ensures PopAt(Do(s, NextPop(at, |m|).0), NextPop(at, |m|).1, before, m)
  {
    match at {
      case PopStart => PopLoadHeadStep(s);
      case PopLoaded => PopLoadTailStep(s);
      case PopLength(k) => LengthAdvances(s, k, before, m);
      case PopPayload(k) =>
        if k < |m| {
          PayloadAdvances(s, k, before, m);
        } else {
          PayloadDelivered(s, before, m);
        }
    }
  }

  /** The producer leaves a pop where it stands. */
  lemma PopUndisturbed(s: State, a: Step, at: PopStage, before: seq<Message>, m: Message)
    requires PopAt(s, at, before, m) && !IsPop(a)
    ensures PopAt(Do(s, a), at, before, m)
  {
    StepInv(s, a);
  }

  lemma {:induction false} PopCompletes(s: State, steps: seq<Step>, at: PopStage, before: seq<Message>, m: Message)
    requires PopAt(s, at, before, m) && m != [] && Pops(steps) == PopFrom(at, |m|)
    ensures PopAt(Run(s, steps), PopDone, before, m)
    decreases |steps|
  {
    if steps != [] {
      var a, rest := steps[0], steps[1..];
      if IsPop(a) {
        assert Pops(steps)[0] == a && Pops(steps)[1..] == Pops(rest);
        PopAdvances(s, at, before, m);
        PopCompletes(Do(s, a), rest, NextPop(at, |m|).1, before, m);
      } else {
        PopUndisturbed(s, a, at, before, m);
        PopCompletes(Do(s, a), rest, at, before, m);
      }
    }
  }

  /** However the producer's accesses fall between those of a pop, the pop delivers the
      message that was first when it began, whole, unless that message is empty. */
  lemma PopDelivers(s: State, steps: seq<Step>)
    requires Inv(s) && s.consumer.Waiting? && |s.popped| < |s.published| && s.published[|s.popped|] != []
    requires Pops(steps) == PopFrom(PopStart, |s.published[|s.popped|]|)
    ensures Run(s, steps).consumer.Waiting?
    ensures Run(s, steps).popped == s.popped + [s.published[|s.popped|]]
  {
    PopCompletes(s, steps, PopStart, s.popped, s.published[|s.popped|]);
  }

  /** The stores of a frame from byte `k` on, and the publication. */
  function PushFrom(k: nat, n: nat): seq<Step>
    decreases n - k
  {
    if k < n then [PushWrite(k)] + PushFrom(k + 1, n) else [PushPublish]
  }

  /** A push of `msg` has stored the first `k` bytes of its frame. */
  ghost predicate PushAt(s: State, k: nat, head: nat, published: seq<Message>, msg: Message) {
    && |s.ring| == CAPACITY && s.head == head && s.published == published && k <= HEADER + |msg|
    && s.producer.Writing? && s.producer.msg == msg && s.producer.head == head
    && forall i :: 0 <= i < k ==> i in s.producer.done
  }

  lemma {:induction false} PushCompletes(s: State, steps: seq<Step>, k: nat, head: nat, published: seq<Message>,
                                        msg: Message)
    requires PushAt(s, k, head, published, msg) && Pushes(steps) == PushFrom(k, HEADER + |msg|)
    ensures Run(s, steps).producer.Resting?
    ensures Run(s, steps).published == if head + HEADER + |msg| < TWO_64 then published + [msg] else published
    decreases |steps|
  {
    if steps != [] {
      var a, rest := steps[0], steps[1..];
      if IsPop(a) {
        PushCompletes(Do(s, a), rest, k, head, published, msg);
      } else {
        assert Pushes(steps)[0] == a && Pushes(steps)[1..] == Pushes(rest);
        if k < HEADER + |msg| {
          PushCompletes(Do(s, a), rest, k + 1, head, published, msg);
        } else {
          RestingWithoutPushes(Do(s, a), rest);
        }
      }
    }
  }

  predicate OnlyWrites(steps: seq<Step>) {
    forall i :: 0 <= i < |steps| ==> IsPop(steps[i]) || steps[i].PushWrite? || steps[i].PushPublish?
  }

  /** With no push under way, stores and publications are not enabled. */
  lemma {:induction false} RestingStays(s: State, steps: seq<Step>)
    requires |s.ring| == CAPACITY && s.producer.Resting? && OnlyWrites(steps)
    ensures Run(s, steps).producer.Resting? && Run(s, steps).published == s.published
    decreases |steps|
  {
    if steps != [] {
      RestingStays(Do(s, steps[0]), steps[1..]);
    }
  }

  lemma {:induction false} RestingWithoutPushes(s: State, steps: seq<Step>)
    requires |s.ring| == CAPACITY && s.producer.Resting? && Pushes(steps) == []
    ensures Run(s, steps).producer.Resting? && Run(s, steps).published == s.published
    decreases |steps|
  {
    if steps != [] {
      RestingWithoutPushes(Do(s, steps[0]), steps[1..]);
    }
  }

  lemma {:induction false} WritesOnly(steps: seq<Step>, k: nat, n: nat)
    requires Pushes(steps) == PushFrom(k, n)
    ensures OnlyWrites(steps)
    decreases |steps|
  {
    if steps != [] {
      if IsPop(steps[0]) {
        WritesOnly(steps[1..], k, n);
      } else {
        assert Pushes(steps)[0] == steps[0] && Pushes(steps)[1..] == Pushes(steps[1..]);
        if k < n {
          WritesOnly(steps[1..], k + 1, n);
        } else {
          NoneLeft(steps[1..]);
        }
      }
    }
  }

  lemma {:induction false} NoneLeft(steps: seq<Step>)
    requires Pushes(steps) == []
    ensures OnlyWrites(steps)
  {
    if steps != [] {
      NoneLeft(steps[1..]);
    }
  }

  lemma {:induction false} LoadedStays(s: State, steps: seq<Step>)
    requires |s.ring| == CAPACITY && Pushes(steps) == []
    ensures var t := Run(s, steps); t.producer == s.producer && t.head == s.head && t.published == s.published
    decreases |steps|
  {
    if steps != [] {
      LoadedStays(Do(s, steps[0]), steps[1..]);
    }
  }

  lemma {:induction false} LoadsHead(s: State, steps: seq<Step>, msg: Message)
    requires Inv(s) && s.producer.Resting? && Sendable(msg) && Pushes(steps) == [PushLoadHead(msg)]
    ensures var t := Run(s, steps);
            t.producer == HasHead(msg, s.head) && t.head == s.head && t.published == s.published
    decreases |steps|
  {
    if steps != [] {
      if IsPop(steps[0]) {
        StepInv(s, steps[0]);
        LoadsHead(Do(s, steps[0]), steps[1..], msg);
      } else {
        assert Pushes(steps)[0] == steps[0] && Pushes(steps)[1..] == Pushes(steps[1..]);
        LoadedStays(Do(s, steps[0]), steps[1..]);
      }
    }
  }

  /** However the consumer's accesses fall between those of a push, the push publishes its
      message exactly if the frame fitted when it loaded the tail. */
  lemma PushPublishesExactlyIf(s: State, before: seq<Step>, after: seq<Step>, msg: Message)
    requires Inv(s) && s.producer.Resting? && Sendable(msg)
    requires Pushes(before) == [PushLoadHead(msg)] && Pushes(after) == PushFrom(0, HEADER + |msg|)
    ensures var u := Run(s, before);
            var t := Run(Do(u, PushLoadTail), after);
            && u.head == s.head && t.producer.Resting?
            && t.published ==
               if u.head - u.tail + |Frame(msg)| <= CAPACITY && u.head + |Frame(msg)| < TWO_64
               then s.published + [msg] else s.published
  {
    LoadsHead(s, before, msg);
    var u := Run(s, before);
    var v := Do(u, PushLoadTail);
    if v.producer.Writing? {
      PushCompletes(v, after, 0, s.head, s.published, msg);
    } else {
      WritesOnly(after, 0, HEADER + |msg|);
      RestingStays(v, after);
    }
  }
}
