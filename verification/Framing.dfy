/**
 The chamber's wire format: each message is preceded by its length as a
 little-endian u32.  `Decode` reads a run of bytes back into messages; it is a
 two-sided inverse of `Stream`.
 */
module Framing {
  import opened Bytes
  import opened Wrappers

  /** CHAMBER_PAYLOAD and RING_HEADER. */
  const CAPACITY: nat := 65536
  const HEADER: nat := 4
  const MAX_MESSAGE: nat := CAPACITY - HEADER

  type Message = seq<Byte>

  predicate Sendable(m: Message) {
    |m| <= MAX_MESSAGE
  }

  predicate AllSendable(ms: seq<Message>) {
    forall i :: 0 <= i < |ms| ==> Sendable(ms[i])
  }

  function Frame(m: Message): (f: seq<Byte>)
    ensures |f| == HEADER + |m|
    ensures f[..HEADER] == ToLE(|m|, HEADER) && f[HEADER..] == m
  {
    ToLE(|m|, HEADER) + m
  }

  function Stream(ms: seq<Message>): seq<Byte> {
    if ms == [] then [] else Frame(ms[0]) + Stream(ms[1..])
  }

  function Decode(b: seq<Byte>): Option<seq<Message>> {
    if b == [] then Some([])
    else if |b| < HEADER then None
    else
      var n := FromLE(b[..HEADER]);
      if n > MAX_MESSAGE || HEADER + n > |b| then None
      else Onto(b[HEADER..HEADER + n], Decode(b[HEADER + n..]))
  }

  function Onto(m: Message, rest: Option<seq<Message>>): Option<seq<Message>> {
    match rest
    case None => None
    case Some(ms) => Some([m] + ms)
  }

  lemma LengthField(m: Message)
    requires Sendable(m)
    ensures FromLE(Frame(m)[..HEADER]) == |m|
  {
    Widths();
    FromToLE(|m|, HEADER);
  }

  /** Round trip, messages to bytes to messages. */
  lemma {:induction false} DecodeStream(ms: seq<Message>)
    requires AllSendable(ms)
    ensures Decode(Stream(ms)) == Some(ms)
  {
    if ms != [] {
      LengthField(ms[0]);
      DecodeStream(ms[1..]);
      var b := Stream(ms);
      assert b[..HEADER] == Frame(ms[0])[..HEADER];
      assert b[HEADER..HEADER + |ms[0]|] == ms[0];
      assert b[HEADER + |ms[0]|..] == Stream(ms[1..]);
      assert ms == [ms[0]] + ms[1..];
    }
  }

  lemma DecodeNeeds(b: seq<Byte>)
    requires b != [] && Decode(b).Some?
    ensures HEADER <= |b| && FromLE(b[..HEADER]) <= MAX_MESSAGE && HEADER + FromLE(b[..HEADER]) <= |b|
  {
  }

  lemma DecodeFirst(b: seq<Byte>, n: nat)
    requires HEADER + n <= |b| && n == FromLE(b[..HEADER]) <= MAX_MESSAGE
    ensures Decode(b) == Onto(b[HEADER..HEADER + n], Decode(b[HEADER + n..]))
  {
  }

  lemma FrameOfBytes(b: seq<Byte>, n: nat)
    requires HEADER + n <= |b| && n == FromLE(b[..HEADER])
    ensures Frame(b[HEADER..HEADER + n]) == b[..HEADER + n]
  {
    ToFromLE(b[..HEADER]);
  }

  predicate IsStream(b: seq<Byte>, ms: seq<Message>) {
    AllSendable(ms) && Stream(ms) == b
  }

  lemma StreamOfCons(m: Message, rest: seq<Byte>, ms: seq<Message>)
    requires Sendable(m) && IsStream(rest, ms)
    ensures IsStream(Frame(m) + rest, [m] + ms)
  {
  }

  /** Round trip, bytes to messages to bytes. */
  lemma {:induction false} StreamDecode(b: seq<Byte>)
    requires Decode(b).Some?
    ensures IsStream(b, Decode(b).value)
    decreases |b|
  {
    if b != [] {
      DecodeNeeds(b);
      var n := FromLE(b[..HEADER]);
      DecodeFirst(b, n);
      FrameOfBytes(b, n);
      StreamDecode(b[HEADER + n..]);
      StreamOfCons(b[HEADER..HEADER + n], b[HEADER + n..], Decode(b[HEADER + n..]).value);
      assert b == b[..HEADER + n] + b[HEADER + n..];
    }
  }

  lemma {:induction false} StreamAppend(ms: seq<Message>, m: Message)
    ensures Stream(ms + [m]) == Stream(ms) + Frame(m)
  {
    if ms == [] {
      assert Stream([m]) == Frame(m) + Stream([]);
    } else {
      StreamAppend(ms[1..], m);
      assert (ms + [m])[1..] == ms[1..] + [m];
    }
  }

  lemma {:induction false} StreamConcat(xs: seq<Message>, ys: seq<Message>)
    ensures Stream(xs + ys) == Stream(xs) + Stream(ys)
  {
    if xs == [] {
      assert xs + ys == ys;
    } else {
      StreamConcat(xs[1..], ys);
      assert xs + ys == [xs[0]] + (xs[1..] + ys);
      StreamFirst(xs[0], xs[1..] + ys);
      Associates(Frame(xs[0]), Stream(xs[1..]), Stream(ys));
    }
  }

  lemma StreamFirst(m: Message, ms: seq<Message>)
    ensures Stream([m] + ms) == Frame(m) + Stream(ms)
  {
  }

  lemma Associates(a: seq<Byte>, b: seq<Byte>, c: seq<Byte>)
    ensures a + (b + c) == (a + b) + c
  {
  }

  /** Appending one sendable frame to decodable bytes appends one message. */
  lemma DecodeAppend(b: seq<Byte>, m: Message)
    requires Decode(b).Some? && Sendable(m)
    ensures Decode(b + Frame(m)) == Some(Decode(b).value + [m])
  {
    StreamDecode(b);
    StreamAppend(Decode(b).value, m);
    DecodeStream(Decode(b).value + [m]);
  }
}
