/**
 Inserting one UINT32 metadata pair into a GGUF file: the header is rewritten
 with the pair in front and everything after byte 24 is copied through.
 */
module Gguf {
  import opened Bytes
  import opened Wrappers

  const MAGIC: seq<Byte> := [71, 71, 85, 70]
  const HEAD := 24
  const UINT32: nat := 4
  const CHUNK := 0x10_0000

  // ----- The code -----

  /** The bytes of one character in UTF-8. */
  function Utf8Char(c: char): (b: seq<Byte>)
    ensures |b| >= 1 && (|b| == 1 <==> (c as int) < 0x80)
  {
    var x := c as int;
    if x < 0x80 then [x]
    else if x < 0x800 then [0xC0 + x / 64, 0x80 + x % 64]
    else if x < 0x1_0000 then [0xE0 + x / 4096, 0x80 + (x / 64) % 64, 0x80 + x % 64]
    else [0xF0 + x / 262144, 0x80 + (x / 4096) % 64, 0x80 + (x / 64) % 64, 0x80 + x % 64]
  }

  function Utf8(s: string): seq<Byte> {
    if s == [] then [] else Utf8Char(s[0]) + Utf8(s[1..])
  }

  /** The new pair; the length field counts characters, the key is written in bytes. */
  function Entry(key: string, value: nat): seq<Byte> {
    ToLE(|key|, 8) + Utf8(key) + ToLE(UINT32, 4) + ToLE(value, 4)
  }

  function KvCount(src: seq<Byte>): nat
    requires |src| >= HEAD
  {
    FromLE(src[16..24])
  }

  function Rewritten(src: seq<Byte>, key: string, value: nat): seq<Byte>
    requires |src| >= HEAD
  {
    src[..16] + ToLE(KvCount(src) + 1, 8) + Entry(key, value) + src[HEAD..]
  }

  datatype Outcome =
    | Inserted(dst: seq<Byte>)
    | NotGguf
    | HeaderTooShort
    | DoesNotPack
    | CountOverflow(partial: seq<Byte>)

  method AddKey(src: seq<Byte>, key: string, value: int) returns (r: Outcome)
    ensures r.NotGguf? <==> !(MAGIC <= src)
    ensures r.HeaderTooShort? <==> MAGIC <= src && |src| < HEAD
    ensures r.DoesNotPack? <==> MAGIC <= src && |src| >= HEAD && !(|key| < TWO_64 && 0 <= value < TWO_32)
    ensures r.CountOverflow? ==> KvCount(src) + 1 == TWO_64 && r.partial == src[..16]
    ensures r.Inserted? <==> MAGIC <= src && |src| >= HEAD && |key| < TWO_64 && 0 <= value < TWO_32
                             && KvCount(src) + 1 < TWO_64
    ensures r.Inserted? ==> r.dst == Rewritten(src, key, value)
  {
    var head := if |src| < HEAD then src else src[..HEAD];
    if |head| < 4 || head[..4] != MAGIC {
      return NotGguf;
    }
    if |head| < HEAD {
      return HeaderTooShort;
    }
    var count := FromLE(head[16..24]);
    assert head[16..24] == src[16..24];
    if |key| >= TWO_64 || value < 0 || value >= TWO_32 {
      return DoesNotPack;
    }
    var entry := Entry(key, value);
    var dst := head[..16];
    Widths();
    if count + 1 >= TWO_64 {
      return CountOverflow(dst);
    }
    dst := dst + ToLE(count + 1, 8);
    dst := dst + entry;
    dst := CopyRest(src, dst);
    return Inserted(dst);
  }

  /** The chunk loop, from byte 24 on: every byte once and in order. */
  method CopyRest(src: seq<Byte>, start: seq<Byte>) returns (dst: seq<Byte>)
    requires |src| >= HEAD
    ensures dst == start + src[HEAD..]
  {
    dst := start;
    var pos := HEAD;
    while true
      invariant HEAD <= pos <= |src|
      invariant dst == start + src[HEAD..pos]
      decreases |src| - pos
    {
      var end := if pos + CHUNK < |src| then pos + CHUNK else |src|;
      var chunk := src[pos..end];
      if chunk == [] {
        break;
      }
      assert src[HEAD..end] == src[HEAD..pos] + chunk;
      dst := dst + chunk;
      pos := end;
    }
  }

  // ----- Reading a GGUF file's metadata -----

  /** One pair as it lies in the file. */
  datatype Pair = Pair(key: seq<Byte>, kind: nat, value: seq<Byte>)

  /** How many bytes a value of a given type takes at the start of some bytes.  Nothing is
      assumed of it but that a UINT32 takes four. */
  type Sizes = (nat, seq<Byte>) -> Option<nat>

  ghost predicate Uint32TakesFour(sizes: Sizes) {
    forall b {:trigger sizes(UINT32, b)} :: |b| >= 4 ==> sizes(UINT32, b) == Some(4)
  }

  function ReadKey(b: seq<Byte>): Option<seq<Byte>> {
    if |b| < 8 then None
    else
      var n := FromLE(b[..8]);
      if 8 + n > |b| then None else Some(b[8..8 + n])
  }

  /** One pair and the bytes after it. */
  function ReadPair(sizes: Sizes, b: seq<Byte>): Option<(Pair, seq<Byte>)> {
    match ReadKey(b)
    case None => None
    case Some(key) =>
      var at := 8 + |key|;
      if |b| < at + 4 then None
      else
        var kind, rest := FromLE(b[at..at + 4]), b[at + 4..];
        match sizes(kind, rest)
        case None => None
        case Some(n) => if n > |rest| then None else Some((Pair(key, kind, rest[..n]), rest[n..]))
  }

  function ReadPairs(sizes: Sizes, b: seq<Byte>, n: nat): Option<(seq<Pair>, seq<Byte>)>
    decreases n
  {
    if n == 0 then Some(([], b))
    else match ReadPair(sizes, b)
      case None => None
      case Some((p, after)) =>
        match ReadPairs(sizes, after, n - 1)
        case None => None
        case Some((ps, rest)) => Some(([p] + ps, rest))
  }

  /** The sixteen bytes of magic, version and tensor count; the pairs; the rest. */
  datatype File = File(front: seq<Byte>, pairs: seq<Pair>, rest: seq<Byte>)

  function ReadFile(sizes: Sizes, bytes: seq<Byte>): Option<File> {
    if |bytes| < HEAD || !(MAGIC <= bytes) then None
    else match ReadPairs(sizes, bytes[HEAD..], KvCount(bytes))
      case None => None
      case Some((pairs, rest)) => Some(File(bytes[..16], pairs, rest))
  }

  predicate IsAscii(s: string) {
    forall i :: 0 <= i < |s| ==> (s[i] as int) < 0x80
  }

  lemma {:induction false} Utf8Length(s: string)
    ensures |Utf8(s)| >= |s| && (|Utf8(s)| == |s| <==> IsAscii(s))
  {
    if s != [] {
      Utf8Length(s[1..]);
      assert s == [s[0]] + s[1..];
    }
  }

  lemma WordReads(x: nat)
    ensures x < TWO_64 ==> FromLE(ToLE(x, 8)) == x
    ensures x < TWO_32 ==> FromLE(ToLE(x, 4)) == x
  {
    Widths();
    if x < TWO_64 {
      FromToLE(x, 8);
    }
    if x < TWO_32 {
      FromToLE(x, 4);
    }
  }

  lemma ThreePieces(a: seq<Byte>, b: seq<Byte>, c: seq<Byte>)
    ensures var s := a + b + c;
            s[..|a|] == a && s[|a|..|a| + |b|] == b && s[|a| + |b|..] == c
  {
  }

  /** A key field: the declared length decides how much of what follows is the key. */
  lemma ReadsKey(length: seq<Byte>, more: seq<Byte>)
    requires |length| == 8
    ensures ReadKey(length + more) == if FromLE(length) > |more| then None else Some(more[..FromLE(length)])
  {
    var b := length + more;
    assert b[..8] == length;
    if FromLE(length) <= |more| {
      assert b[8..8 + FromLE(length)] == more[..FromLE(length)];
    }
  }

  /** A whole pair, from its four pieces. */
  lemma ReadsPair(sizes: Sizes, length: seq<Byte>, key: seq<Byte>, kind: seq<Byte>, value: seq<Byte>, tail: seq<Byte>)
    requires |length| == 8 && FromLE(length) == |key| && |kind| == 4 && FromLE(kind) == UINT32 && |value| == 4
    requires Uint32TakesFour(sizes)
    ensures ReadPair(sizes, length + (key + (kind + (value + tail)))) == Some((Pair(key, UINT32, value), tail))
  {
    var rest := value + tail;
    var b := length + (key + (kind + rest));
    ReadsKey(length, key + (kind + rest));
    assert (key + (kind + rest))[..|key|] == key;
    var at := 8 + |key|;
    assert b == (length + key) + kind + rest;
    ThreePieces(length + key, kind, rest);
    assert b[at..at + 4] == kind && b[at + 4..] == rest;
    assert rest[..4] == value && rest[4..] == tail;
  }

  lemma EntryNested(key: string, value: nat, tail: seq<Byte>)
    ensures Entry(key, value) + tail ==
            ToLE(|key|, 8) + (Utf8(key) + (ToLE(UINT32, 4) + (ToLE(value, 4) + tail)))
  {
  }

  lemma HeadReplaced(front: seq<Byte>, word: seq<Byte>, entry: seq<Byte>, rest: seq<Byte>)
    requires |front| == 16 && |word| == 8
    ensures var dst := front + word + entry + rest;
            |dst| >= HEAD && dst[..16] == front && dst[16..24] == word && dst[HEAD..] == entry + rest
  {
  }

  lemma RewrittenParts(src: seq<Byte>, key: string, value: nat)
    requires |src| >= HEAD && KvCount(src) + 1 < TWO_64
    ensures var dst := Rewritten(src, key, value);
            && |dst| >= HEAD && dst[..16] == src[..16] && KvCount(dst) == KvCount(src) + 1
            && dst[HEAD..] == Entry(key, value) + src[HEAD..]
  {
    HeadReplaced(src[..16], ToLE(KvCount(src) + 1, 8), Entry(key, value), src[HEAD..]);
    WordReads(KvCount(src) + 1);
  }

  /** What the key field of the new entry reads as, whatever the key. */
  lemma EntryKey(key: string, value: nat, tail: seq<Byte>)
    requires |key| < TWO_64
    ensures |Utf8(key)| >= |key| && ReadKey(Entry(key, value) + tail) == Some(Utf8(key)[..|key|])
  {
    Utf8Length(key);
    WordReads(|key|);
    EntryNested(key, value, tail);
    var more := ToLE(UINT32, 4) + (ToLE(value, 4) + tail);
    ReadsKey(ToLE(|key|, 8), Utf8(key) + more);
    assert (Utf8(key) + more)[..|key|] == Utf8(key)[..|key|];
  }

  lemma EntryReads(sizes: Sizes, key: string, value: nat, tail: seq<Byte>)
    requires Uint32TakesFour(sizes) && IsAscii(key) && |key| < TWO_64 && value < TWO_32
    ensures ReadPair(sizes, Entry(key, value) + tail) == Some((Pair(Utf8(key), UINT32, ToLE(value, 4)), tail))
  {
    Utf8Length(key);
    WordReads(|key|);
    WordReads(UINT32);
    EntryNested(key, value, tail);
    ReadsPair(sizes, ToLE(|key|, 8), Utf8(key), ToLE(UINT32, 4), ToLE(value, 4), tail);
  }

  lemma MagicKept(src: seq<Byte>, key: string, value: nat)
    requires |src| >= HEAD && MAGIC <= src
    ensures MAGIC <= Rewritten(src, key, value)
  {
  }

  /** For an ASCII key, the output reads as the new pair followed by the original pairs, with
      the tensor section byte for byte the same; and it reads at all exactly if the input did. */
  lemma PairIsInserted(sizes: Sizes, src: seq<Byte>, key: string, value: nat)
    requires Uint32TakesFour(sizes) && |src| >= HEAD && MAGIC <= src
    requires IsAscii(key) && |key| < TWO_64 && value < TWO_32 && KvCount(src) + 1 < TWO_64
    ensures ReadFile(sizes, Rewritten(src, key, value)) ==
            match ReadFile(sizes, src)
            case None => None
            case Some(file) =>
              Some(file.(pairs := [Pair(Utf8(key), UINT32, ToLE(value, 4))] + file.pairs))
  {
    var dst := Rewritten(src, key, value);
    RewrittenParts(src, key, value);
    MagicKept(src, key, value);
    EntryReads(sizes, key, value, src[HEAD..]);
    ReadsInFront(sizes, src, dst, Pair(Utf8(key), UINT32, ToLE(value, 4)));
  }

  lemma ReadsInFront(sizes: Sizes, src: seq<Byte>, dst: seq<Byte>, p: Pair)
    requires |src| >= HEAD && MAGIC <= src && |dst| >= HEAD && MAGIC <= dst
    requires dst[..16] == src[..16] && KvCount(dst) == KvCount(src) + 1
    requires ReadPair(sizes, dst[HEAD..]) == Some((p, src[HEAD..]))
    ensures ReadFile(sizes, dst) ==
            match ReadFile(sizes, src)
            case None => None
            case Some(file) => Some(file.(pairs := [p] + file.pairs))
  {
  }

  lemma KeyIsCut(src: seq<Byte>, key: string, value: nat)
    requires |src| >= HEAD && |key| < TWO_64 && KvCount(src) + 1 < TWO_64
    ensures |Utf8(key)| >= |key|
    ensures ReadKey(Rewritten(src, key, value)[HEAD..]) == Some(Utf8(key)[..|key|])
  {
    RewrittenParts(src, key, value);
    EntryKey(key, value, src[HEAD..]);
  }

  /** The new key reads back exactly when it is ASCII: otherwise the length field, counted in
      characters, cuts the encoded key short. */
  lemma KeyReadsBackExactlyIfAscii(src: seq<Byte>, key: string, value: nat)
    requires |src| >= HEAD && |key| < TWO_64 && KvCount(src) + 1 < TWO_64
    ensures ReadKey(Rewritten(src, key, value)[HEAD..]) == Some(Utf8(key)) <==> IsAscii(key)
  {
    Utf8Length(key);
    KeyIsCut(src, key, value);
    if |Utf8(key)| == |key| {
      assert Utf8(key)[..|key|] == Utf8(key);
    }
  }

  lemma TwoByteCharacter(c: char)
    requires c == '\U{00E9}'
    ensures Utf8Char(c) == [0xC3, 0xA9]
  {
  }

  lemma Utf8OfOne(c: char)
    ensures Utf8([c]) == Utf8Char(c)
  {
  }

  lemma OneCharacterIsCut(src: seq<Byte>, c: char, value: nat)
    requires |src| >= HEAD && KvCount(src) + 1 < TWO_64
    ensures ReadKey(Rewritten(src, [c], value)[HEAD..]) == Some([Utf8Char(c)[0]])
  {
    Utf8OfOne(c);
    KeyIsCut(src, [c], value);
    assert Utf8Char(c)[..1] == [Utf8Char(c)[0]];
  }

  /** An input that shows it: of a key of one two-byte character, the first byte. */
  lemma NonAsciiKeyIsCut(src: seq<Byte>)
    requires |src| >= HEAD && KvCount(src) + 1 < TWO_64
    ensures Utf8(['\U{00E9}']) == [0xC3, 0xA9]
    ensures ReadKey(Rewritten(src, ['\U{00E9}'], 1)[HEAD..]) == Some([0xC3])
  {
    var c := '\U{00E9}';
    TwoByteCharacter(c);
    Utf8OfOne(c);
    OneCharacterIsCut(src, c, 1);
  }

  // ----- The bytes of a key -----

  /** The number that the continuation bytes of `b` add to `lead`, six bits from each. */
  function Continued(lead: nat, b: seq<Byte>): Option<nat>
    decreases |b|
  {
    if b == [] then Some(lead)
    else if 0x80 <= b[0] < 0xC0 then Continued(lead * 64 + (b[0] as int - 0x80), b[1..])
    else None
  }

  /** How many bytes the character starting with this byte takes, and what the byte says of it. */
  function Lead(b: Byte): Option<(nat, nat)> {
    var x := b as int;
    if x < 0x80 then Some((1, x))
    else if x < 0xC0 then None
    else if x < 0xE0 then Some((2, x - 0xC0))
    else if x < 0xF0 then Some((3, x - 0xE0))
    else Some((4, x - 0xF0))
  }

  /** The numbers of the characters that the bytes encode in UTF-8. */
  function Utf8Decode(b: seq<Byte>): Option<seq<nat>>
    decreases |b|
  {
    if b == [] then Some([])
    else if Lead(b[0]).None? then None
    else
      var (size, lead) := Lead(b[0]).value;
      if |b| < size then None
      else
        match Continued(lead, b[1..size])
        case None => None
        case Some(x) =>
          match Utf8Decode(b[size..])
          case None => None
          case Some(rest) => Some([x] + rest)
  }

  function Numbers(s: string): seq<nat> {
    seq(|s|, i requires 0 <= i < |s| => s[i] as int)
  }

  lemma ContinuedFirst(lead: nat, x: nat, b: seq<Byte>)
    requires x < 64
    ensures Continued(lead, [(0x80 + x) as Byte] + b) == Continued(lead * 64 + x, b)
  {
    assert ([(0x80 + x) as Byte] + b)[1..] == b;
  }

  lemma SixBits(x: nat)
    ensures x / 64 * 64 + x % 64 == x
  {
  }

  lemma Shifts(x: nat)
    ensures x / 4096 == x / 64 / 64 && x / 262144 == x / 64 / 64 / 64
  {
  }

  lemma TwoBytes(x: nat)
    requires x < 0x800
    ensures Continued(x / 64, [(0x80 + x % 64) as Byte]) == Some(x)
  {
    assert [(0x80 + x % 64) as Byte] == [(0x80 + x % 64) as Byte] + [];
    ContinuedFirst(x / 64, x % 64, []);
    SixBits(x);
  }

  lemma ThreeBytes(x: nat)
    ensures Continued(x / 4096, [(0x80 + (x / 64) % 64) as Byte, (0x80 + x % 64) as Byte]) == Some(x)
  {
    var b1, b2 := (0x80 + (x / 64) % 64) as Byte, (0x80 + x % 64) as Byte;
    assert [b1, b2] == [b1] + [b2] && [b2] == [b2] + [];
    Shifts(x);
    SixBits(x / 64);
    ContinuedFirst(x / 4096, (x / 64) % 64, [b2]);
    ContinuedFirst(x / 64, x % 64, []);
    SixBits(x);
  }

  lemma FourBytes(x: nat)
    ensures Continued(x / 262144, [(0x80 + (x / 4096) % 64) as Byte, (0x80 + (x / 64) % 64) as Byte,
                                   (0x80 + x % 64) as Byte]) == Some(x)
  {
    var b1, b2 := (0x80 + (x / 4096) % 64) as Byte, (0x80 + (x / 64) % 64) as Byte;
    var b3 := (0x80 + x % 64) as Byte;
    assert [b1, b2, b3] == [b1] + [b2, b3];
    Shifts(x);
    SixBits(x / 4096);
    ContinuedFirst(x / 262144, (x / 4096) % 64, [b2, b3]);
    ThreeBytes(x);
  }

  /** One character reads back, whatever follows. */
  lemma CharReadsBack(c: char)
    ensures var b := Utf8Char(c);
            && Lead(b[0]).Some? && Lead(b[0]).value.0 == |b|
            && Continued(Lead(b[0]).value.1, b[1..]) == Some(c as int)
  {
    var x := c as int;
    var b := Utf8Char(c);
    if x < 0x80 {
      assert b[1..] == [];
    } else if x < 0x800 {
      TwoBytes(x);
      assert b[1..] == [(0x80 + x % 64) as Byte];
    } else if x < 0x1_0000 {
      ThreeBytes(x);
      assert b[1..] == [(0x80 + (x / 64) % 64) as Byte, (0x80 + x % 64) as Byte];
    } else {
      FourBytes(x);
      assert b[1..] == [(0x80 + (x / 4096) % 64) as Byte, (0x80 + (x / 64) % 64) as Byte, (0x80 + x % 64) as Byte];
    }
  }

  lemma DecodeOneMore(c: char, rest: seq<Byte>)
    ensures Utf8Decode(Utf8Char(c) + rest) ==
            match Utf8Decode(rest) case None => None case Some(xs) => Some([c as int] + xs)
  {
    var b := Utf8Char(c);
    CharReadsBack(c);
    assert (b + rest)[0] == b[0] && (b + rest)[1..|b|] == b[1..] && (b + rest)[|b|..] == rest;
  }

  /** The key's bytes are its UTF-8: they decode to its characters, whatever these are... */
  lemma {:induction false} Utf8ReadsBack(s: string)
    ensures Utf8Decode(Utf8(s)) == Some(Numbers(s))
  {
    if s == [] {
      assert Utf8(s) == [] && Numbers(s) == [];
    } else {
      Utf8ReadsBack(s[1..]);
      DecodeOneMore(s[0], Utf8(s[1..]));
      assert Numbers(s) == [s[0] as int] + Numbers(s[1..]);
    }
  }

  /** ...and of an ASCII key they are the characters themselves. */
  lemma {:induction false} AsciiIsItself(s: string)
    requires IsAscii(s)
    ensures |Utf8(s)| == |s| && forall i :: 0 <= i < |s| ==> Utf8(s)[i] == s[i] as int
  {
    if s != [] {
      AsciiIsItself(s[1..]);
      assert Utf8(s) == [s[0] as int] + Utf8(s[1..]);
    }
  }
}
