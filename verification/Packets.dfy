/**
 * Packet framing (src/protocol/mod.rs) on byte strings: what a frame is, and how a byte stream is
 * read as one.
 */
module Packets {
  import opened Bytes
  import opened VarInt
  import opened Adapters

  const MAX_PACKET_SIZE: int := 0x1F_FFFF

  /** What the length fields at the front of the stream announce. */
  datatype Header =
    | HeaderError(error: ReadError, rest: bytes)
    | Uncompressed(body: bytes, lacking: nat, tail: bytes)
    | Compressed(size: nat, payload: bytes, lacking: nat, tail: bytes)

  function Classify(compression: bool, s: bytes): Header {
    var head := s[..Min(3, |s|)];
    DecodeRest(head);
    match Decode(head)
    case Failed(e, r) => HeaderError(e, s[|head| - |r|..])
    case Parsed(length, r) =>
      var after := s[|head| - |r|..];
      if length < 0 then HeaderError(NegativeLength, after)
      else ClassifyBounded(compression, length, after)
  }

  function ClassifyBounded(compression: bool, length: nat, s: bytes): Header {
    var body := s[..Min(length, |s|)];
    var tail := s[|body|..];
    if !compression then Uncompressed(body, length - |body|, tail)
    else
      match Decode(body)
      case Failed(e, r) => HeaderError(e, r + tail)
      case Parsed(size, r) =>
        if size < 0 then HeaderError(NegativeLength, r + tail)
        else if size == 0 then Uncompressed(r, length - |body|, tail)
        else Compressed(size, r, length - |body|, tail)
  }

  /**
   * A packet body: the id, then whatever the handler of that id makes of the rest, then the rest
   * is discarded. An id that is not in the table leaves the reader just past it.
   */
  function Body<R>(known: i32 -> bool, handlers: i32 -> Handler<R>, avail: bytes, lacking: nat)
    : (Outcome<R>, bytes)
  {
    match Decode(avail)
    case Failed(e, rest) => (Error(e), rest)
    case Parsed(id, rest) =>
      if !known(id) then (Error(UnknownPacket(id)), rest)
      else if lacking > 0 then (Error(StreamError), [])
      else (Done(Handle(handlers(id), [], rest, 0).0), [])
  }

  // ----- writing

  /** What a packet type gives the writer: the size it announces and the slices it then writes. */
  datatype Packet = Packet(size: nat, writes: seq<bytes>)

  function Payload(packet: Packet): bytes { Flatten(packet.writes) }

  /** A packet is honest when it writes as many bytes as it announces. */
  predicate Honest(packet: Packet) { packet.size == |Payload(packet)| }

  datatype FrameResult = Framed(bytes: bytes) | TooLarge(was: nat)

  /**
   * The three branches of `write_packet_internal`; `z` is what the pre-compression writer makes of
   * id and payload in the third.
   */
  function FrameOf(threshold: Option<nat>, id: i32, packet: Packet, z: bytes): FrameResult {
    var total := Size(id) + packet.size;
    match threshold
    case None =>
      if total > MAX_PACKET_SIZE then TooLarge(total)
      else Framed(Of(total) + (Of(id) + Payload(packet)))
    case Some(limit) =>
      if total < limit then
        if total + 1 > MAX_PACKET_SIZE then TooLarge(total + 1)
        else Framed(Of(total + 1) + (Of(0) + (Of(id) + Payload(packet))))
      else if total >= 0x8000_0000 then TooLarge(total)
      else
        var n := Size(total) + |z|;
        if n > MAX_PACKET_SIZE then TooLarge(n)
        else Framed(Of(n) + (Of(total) + z))
  }

  /** What the compressor makes of a packet. */
  function Packed(compress: bytes -> bytes, id: i32, packet: Packet): bytes {
    compress(Of(id) + Payload(packet))
  }

  /** The branch that compresses. */
  predicate Compresses(threshold: Option<nat>, id: i32, packet: Packet) {
    threshold.Some? && Size(id) + packet.size >= threshold.value
  }

  lemma CompressedFrame(threshold: Option<nat>, id: i32, packet: Packet, z: bytes)
    requires Compresses(threshold, id, packet)
    ensures var total := Size(id) + packet.size;
            FrameOf(threshold, id, packet, z) ==
            if total >= 0x8000_0000 then TooLarge(total)
            else if Size(total) + |z| > MAX_PACKET_SIZE then TooLarge(Size(total) + |z|)
            else Framed(Of(Size(total) + |z|) + (Of(total) + z))
  {
  }

  /**
   * A packet has a frame exactly when its length field takes at most three bytes and, compressed, its
   * size field is not negative; otherwise the number reported is the one that is too large.
   */
  lemma FramedIff(threshold: Option<nat>, id: i32, packet: Packet, z: bytes)
    ensures var total := |Of(id)| + packet.size;
      if Compresses(threshold, id, packet) then
        var n := |Encode(total)| + |z|;
        && (FrameOf(threshold, id, packet, z).Framed? <==> total < 0x8000_0000 && |Encode(n)| <= 3)
        && (FrameOf(threshold, id, packet, z).TooLarge? ==>
              FrameOf(threshold, id, packet, z).was == if total < 0x8000_0000 then n else total)
      else
        var n := if threshold.Some? then total + 1 else total;
        && (FrameOf(threshold, id, packet, z).Framed? <==> |Encode(n)| <= 3)
        && (FrameOf(threshold, id, packet, z).TooLarge? ==> FrameOf(threshold, id, packet, z).was == n)
  {
    SizeIsLength(id);
    Pow128Values();
    var total := Size(id) + packet.size;
    if Compresses(threshold, id, packet) {
      CompressedFrame(threshold, id, packet, z);
      if total < 0x8000_0000 {
        SizeIsLength(total);
        DigitsBound(Size(total) + |z|, 3);
      }
    } else {
      DigitsBound(if threshold.Some? then total + 1 else total, 3);
    }
  }

  /** An honest packet goes out compressed exactly if its id and payload reach the threshold. */
  lemma ThresholdIff(limit: nat, id: i32, packet: Packet, z: bytes, tail: bytes)
    requires FrameOf(Some(limit), id, packet, z).Framed? && Honest(packet)
    ensures Classify(true, FrameOf(Some(limit), id, packet, z).bytes + tail).Compressed? <==>
            |Of(id) + Payload(packet)| >= limit
  {
    SizeIsLength(id);
    FrameReadsBack(Some(limit), id, packet, z, tail);
  }

  lemma LengthPrefix(n: nat, rest: bytes)
    requires n <= MAX_PACKET_SIZE
    ensures |Of(n)| <= 3
    ensures Decode((Of(n) + rest)[..Min(3, |Of(n) + rest|)]).Parsed?
    ensures Decode((Of(n) + rest)[..Min(3, |Of(n) + rest|)]).value == n
    ensures Decode((Of(n) + rest)[..Min(3, |Of(n) + rest|)]).rest ==
            rest[..Min(3 - |Of(n)|, |rest|)]
  {
    EncodeFits(n, 3);
    var s := Of(n) + rest;
    var k := Min(3 - |Of(n)|, |rest|);
    assert s[..Min(3, |s|)] == Of(n) + rest[..k];
    RoundTrip(n, rest[..k]);
  }

  lemma ClassifyPrefixed(compression: bool, n: nat, rest: bytes)
    requires n <= MAX_PACKET_SIZE
    ensures Classify(compression, Of(n) + rest) == ClassifyBounded(compression, n, rest)
  {
    LengthPrefix(n, rest);
    var s := Of(n) + rest;
    var head := s[..Min(3, |s|)];
    assert s[|head| - |Decode(head).rest|..] == rest;
  }

  /** The length field a frame starts with, and what follows it. */
  lemma FrameShape(threshold: Option<nat>, id: i32, packet: Packet, z: bytes) returns (n: nat, rest: bytes)
    requires FrameOf(threshold, id, packet, z).Framed?
    ensures n <= MAX_PACKET_SIZE && FrameOf(threshold, id, packet, z).bytes == Of(n) + rest
    ensures n == |rest| <==> Compresses(threshold, id, packet) || Honest(packet)
    ensures Compresses(threshold, id, packet) ==> rest == Of(Size(id) + packet.size) + z
  {
    SizeIsLength(id);
    SizeIsLength(0);
    var total := Size(id) + packet.size;
    var body := Of(id) + Payload(packet);
    if Compresses(threshold, id, packet) {
      SizeIsLength(total);
      n, rest := Size(total) + |z|, Of(total) + z;
    } else if threshold.Some? {
      n, rest := total + 1, Of(0) + body;
    } else {
      n, rest := total, body;
    }
  }

  /**
   * Every frame starts with a length field of at most three bytes, and that field equals the number
   * of bytes that follow it exactly when the packet was honest or was compressed.
   */
  lemma SizeDiscipline(threshold: Option<nat>, id: i32, packet: Packet, z: bytes)
    requires FrameOf(threshold, id, packet, z).Framed?
    ensures var frame := FrameOf(threshold, id, packet, z).bytes;
      && Decode(frame).Parsed?
      && |frame| - |Decode(frame).rest| <= 3
      && (Decode(frame).value == |Decode(frame).rest| <==>
            Compresses(threshold, id, packet) || Honest(packet))
  {
    var n, rest := FrameShape(threshold, id, packet, z);
    Prefixed(n, rest);
  }

  /** The size field of a compressed frame is never the zero that marks an uncompressed one. */
  lemma MarkerIsUnambiguous(threshold: Option<nat>, id: i32, packet: Packet, z: bytes)
    requires FrameOf(threshold, id, packet, z).Framed? && Compresses(threshold, id, packet)
    ensures var inside := Decode(FrameOf(threshold, id, packet, z).bytes).rest;
            Decode(inside).Parsed? && Decode(inside).value == Size(id) + packet.size > 0
  {
    var n, rest := FrameShape(threshold, id, packet, z);
    Prefixed(n, rest);
    RoundTrip(Size(id) + packet.size, z);
  }

  lemma Prefixed(n: nat, rest: bytes)
    requires n <= MAX_PACKET_SIZE
    ensures Decode(Of(n) + rest) == Parsed(n, rest) && |Of(n)| <= 3
  {
    RoundTrip(n, rest);
    EncodeFits(n, 3);
  }

  /**
   * Reading a frame back. The reader only needs to agree on whether compression is on: it finds the
   * id and payload in the body, or the announced size and the compressed bytes, nothing lacking, and
   * exactly what followed the frame as the tail. Compressed, that needs no honest packet, but the
   * size announced is the packet's.
   */
  lemma FrameReadsBack(threshold: Option<nat>, id: i32, packet: Packet, z: bytes, tail: bytes)
    requires FrameOf(threshold, id, packet, z).Framed?
    requires Honest(packet) || Compresses(threshold, id, packet)
    ensures Classify(threshold.Some?, FrameOf(threshold, id, packet, z).bytes + tail) ==
      if Compresses(threshold, id, packet) then Compressed(Size(id) + packet.size, z, 0, tail)
      else Uncompressed(Of(id) + Payload(packet), 0, tail)
  {
    hide Decode, Classify;
    SizeIsLength(id);
    var total := Size(id) + packet.size;
    var body := Of(id) + Payload(packet);
    if Compresses(threshold, id, packet) {
      SizeIsLength(total);
      FrameBounded(true, Size(total) + |z|, Of(total) + z, tail);
      RoundTrip(total, z);
    } else if threshold.Some? {
      SizeIsLength(0);
      FrameBounded(true, total + 1, Of(0) + body, tail);
      RoundTrip(0, body);
    } else {
      FrameBounded(false, total, body, tail);
    }
  }

  /** A length field and as many bytes: the bound cuts exactly them. */
  lemma FrameBounded(compression: bool, n: nat, inside: bytes, tail: bytes)
    requires n <= MAX_PACKET_SIZE && n == |inside|
    ensures Classify(compression, Of(n) + inside + tail) ==
      if !compression then Uncompressed(inside, 0, tail)
      else
        match Decode(inside)
        case Failed(e, r) => HeaderError(e, r + tail)
        case Parsed(size, r) =>
          if size < 0 then HeaderError(NegativeLength, r + tail)
          else if size == 0 then Uncompressed(r, 0, tail)
          else Compressed(size, r, 0, tail)
  {
    ConcatAssoc(Of(n), inside, tail);
    ClassifyPrefixed(compression, n, inside + tail);
    assert (inside + tail)[..n] == inside && (inside + tail)[n..] == tail;
  }

  // ----- what is refused

  /** A length field that goes on after its third byte. */
  lemma LongLengthRefused(compression: bool, s: bytes)
    requires LeadingContinuations(s) >= 3
    ensures Classify(compression, s) == HeaderError(StreamError, s[3..])
  {
    var head := s[..3];
    LeadingAfter(head, []);
    assert head + [] == head;
  }

  /** A negative uncompressed size. */
  lemma NegativeSizeRefused(x: i32, inside: bytes, tail: bytes)
    requires x < 0 && |Of(x) + inside| <= MAX_PACKET_SIZE
    ensures Classify(true, Of(|Of(x) + inside|) + (Of(x) + inside) + tail) ==
            HeaderError(NegativeLength, inside + tail)
  {
    FrameBounded(true, |Of(x) + inside|, Of(x) + inside, tail);
    RoundTrip(x, inside);
  }

  /** A body with a known id whose payload stops short of the bound. */
  lemma ShortBodyRefused<R>(known: i32 -> bool, handlers: i32 -> Handler<R>, id: i32, payload: bytes,
                            lacking: nat)
    requires known(id) && lacking > 0
    ensures Body(known, handlers, Of(id) + payload, lacking) == (Error(StreamError), [])
  {
    RoundTrip(id, payload);
  }

  /** A frame cut short anywhere never makes a packet, whoever handles it. */
  lemma TruncatedNeverDone<R>(threshold: Option<nat>, id: i32, packet: Packet, z: bytes, k: nat,
                              known: i32 -> bool, handlers: i32 -> Handler<R>)
    requires FrameOf(threshold, id, packet, z).Framed? && Honest(packet)
    requires !Compresses(threshold, id, packet)
    requires k < |FrameOf(threshold, id, packet, z).bytes|
    ensures match Classify(threshold.Some?, FrameOf(threshold, id, packet, z).bytes[..k])
            case HeaderError(e, _) => e == StreamError
            case Uncompressed(body, lacking, tail) =>
              lacking > 0 && tail == [] && !Body(known, handlers, body, lacking).0.Done?
            case Compressed(_, _, _, _) => false
  {
    hide Decode, Classify;
    SizeIsLength(id);
    var total := Size(id) + packet.size;
    var body := Of(id) + Payload(packet);
    if threshold.Some? {
      SizeIsLength(0);
      assert Of(0) == [0];
      TruncatedFrame(true, total + 1, [0] + body, k);
    } else {
      TruncatedFrame(false, total, body, k);
    }
    BodyLacks(known, handlers);
  }

  lemma BodyLacks<R>(known: i32 -> bool, handlers: i32 -> Handler<R>)
    ensures forall avail, lacking: nat :: lacking > 0 ==> !Body(known, handlers, avail, lacking).0.Done?
  {
  }

  lemma TruncatedFrame(compression: bool, n: nat, inside: bytes, k: nat)
    requires n <= MAX_PACKET_SIZE && n == |inside| && k < |Of(n) + inside|
    requires compression ==> inside != [] && inside[0] == 0
    ensures match Classify(compression, (Of(n) + inside)[..k])
            case HeaderError(e, _) => e == StreamError
            case Uncompressed(_, lacking, tail) => lacking > 0 && tail == []
            case Compressed(_, _, _, _) => false
  {
    hide Decode, Classify, ClassifyBounded;
    EncodeFits(n, 3);
    if k < |Of(n)| {
      TruncatedLength(compression, n, k);
      assert (Of(n) + inside)[..k] == Of(n)[..k];
    } else {
      var part := inside[..k - |Of(n)|];
      assert (Of(n) + inside)[..k] == Of(n) + part;
      ClassifyPrefixed(compression, n, part);
      TruncatedInside(compression, n, part);
    }
  }

  lemma TruncatedInside(compression: bool, n: nat, part: bytes)
    requires |part| < n && (compression && part != [] ==> part[0] == 0)
    ensures match ClassifyBounded(compression, n, part)
            case HeaderError(e, _) => e == StreamError
            case Uncompressed(_, lacking, tail) => lacking > 0 && tail == []
            case Compressed(_, _, _, _) => false
  {
    assert part[..|part|] == part && part[|part|..] == [];
    if compression && part != [] {
      assert Of(0) == [0];
      assert part == Of(0) + part[1..];
      RoundTrip(0, part[1..]);
    }
  }

  lemma TruncatedLength(compression: bool, n: nat, k: nat)
    requires n <= MAX_PACKET_SIZE && k < |Of(n)|
    ensures Classify(compression, Of(n)[..k]).HeaderError?
    ensures Classify(compression, Of(n)[..k]).error == StreamError
  {
    EncodeFits(n, 3);
    EncodeShape(n, []);
    assert Of(n) + [] == Of(n);
    var s := Of(n)[..k];
    DecodeFails(s, []);
    assert s + [] == s && s[..Min(3, |s|)] == s;
  }

  /** A body with a known id is handled on its payload alone and used up. */
  lemma BodyReadsBack<R>(known: i32 -> bool, handlers: i32 -> Handler<R>, id: i32, payload: bytes)
    ensures Body(known, handlers, Of(id) + payload, 0) ==
      if known(id) then (Done(Handle(handlers(id), [], payload, 0).0), [])
      else (Error(UnknownPacket(id)), payload)
  {
    RoundTrip(id, payload);
  }

  /** The frame of a dishonest packet, read back, never ends where it was meant to. */
  lemma DishonestMisaligns(threshold: Option<nat>, id: i32, packet: Packet, z: bytes, tail: bytes)
    requires FrameOf(threshold, id, packet, z).Framed? && !Compresses(threshold, id, packet)
    ensures var c := Classify(threshold.Some?, FrameOf(threshold, id, packet, z).bytes + tail);
            (c.Uncompressed? && c.lacking == 0 && c.tail == tail) <==> Honest(packet)
  {
    if Honest(packet) {
      FrameReadsBack(threshold, id, packet, z, tail);
    } else {
      SizeIsLength(id);
      SizeIsLength(0);
      var total := Size(id) + packet.size;
      var body := Of(id) + Payload(packet);
      var inside := if threshold.Some? then Of(0) + body else body;
      var n := if threshold.Some? then total + 1 else total;
      ConcatAssoc(Of(n), inside, tail);
      ClassifyPrefixed(threshold.Some?, n, inside + tail);
      TailLength(threshold.Some?, n, inside + tail);
    }
  }

  lemma TailLength(compression: bool, n: nat, s: bytes)
    ensures var c := ClassifyBounded(compression, n, s);
            c.Uncompressed? ==> |c.tail| + n == |s| + c.lacking
  {
  }
}
