/** `read_packet` of src/protocol/mod.rs over the default streams. */
module Protocol {
  import opened Bytes
  import opened VarInt
  import opened Readers
  import opened Inflating
  import opened Adapters
  import opened Packets

  /** An outcome that shows that no read on the way to it came up short. */
  ghost predicate Witnessed<R>(known: i32 -> bool, handlers: i32 -> Handler<R>, avail: bytes,
                               outcome: Outcome<R>)
  {
    match Decode(avail)
    case Failed(_, _) => false
    case Parsed(id, _) =>
      if known(id) then outcome.Done? && Telling(handlers(id), outcome.value)
      else outcome == Error(UnknownPacket(id))
  }

  /** The id was read. */
  predicate PastId<R>(outcome: Outcome<R>) { outcome.Done? || outcome.error.UnknownPacket? }

  /** `handle_helper!`: id, handler, discard; `p` is where the reader stands. */
  method HandlePacket<R>(reader: PacketReader, known: i32 -> bool, handlers: i32 -> Handler<R>,
                         ghost p: Position)
    returns (outcome: Outcome<R>, ghost got: bytes)
    requires reader.Valid() && p == reader.At()
    modifies reader.Repr
    ensures reader.Valid() && (old(reader.starved) ==> reader.starved)
    ensures Advanced(reader.inflater.inflate, p, reader.At(), got)
    ensures !reader.starved ==>
      (outcome, Avail(reader.inflater.inflate, reader.At())) ==
      Body(known, handlers, Avail(reader.inflater.inflate, p), Lacking(reader.inflater.inflate, p))
    ensures outcome.Done? ==> Bound(reader.At()) == 0
    ensures Witnessed(known, handlers, Avail(reader.inflater.inflate, p), outcome) ==>
              (old(reader.Smooth()) ==> reader.Smooth())
    ensures old(reader.Smooth()) && p.inflating && p.bites == [] && p.delivered == 0 && PastId(outcome) ==>
      Started(reader.inflater.inflate, reader.inflater.bites)
  {
    hide Advanced, Placed, Avail, Lacking, Productive, Telling, Started, Witnessed, Body, Decode, Yields,
      PacketReader.Valid, PacketReader.At;
    ghost var inflate := reader.inflater.inflate;
    ghost var start := old(reader.Smooth()) && p.inflating && p.bites == [] && p.delivered == 0;
    reader.Parts();
    ghost var avail, lacking := Avail(inflate, p), Lacking(inflate, p);
    var id;
    id, got := reader.ReadVarInt();
    reader.Parts();
    ghost var q := reader.At();
    if id.Error? {
      FailedId(known, handlers, avail, lacking, id.error, Avail(inflate, q));
      return Error(id.error), got;
    }
    ReadId(known, handlers, avail, lacking, id.value, Avail(inflate, q));
    if start {
      AdvancedRefl(inflate, q);
      IdStarts(inflate, p, q, q, got, []);
    }
    if !known(id.value) { return Error(UnknownPacket(id.value)), got; }
    SameLacking(inflate, p, q, got);
    ghost var more;
    outcome, more := HandleKnown(reader, handlers(id.value), q);
    WitnessedById(known, handlers, avail, id.value, Avail(inflate, q), outcome);
    reader.Parts();
    AdvancedTrans(inflate, p, q, reader.At(), got, more);
    if start { IdStarts(inflate, p, q, reader.At(), got, more); }
    got := got + more;
  }

  lemma SameLacking(inflate: bytes -> bytes, p: Position, q: Position, got: bytes)
    requires Placed(inflate, p) && Advanced(inflate, p, q, got)
    ensures Placed(inflate, q) && Lacking(inflate, p) == Lacking(inflate, q)
  {
  }

  /** What a body comes to whose id could not be read. */
  lemma FailedId<R>(known: i32 -> bool, handlers: i32 -> Handler<R>, avail: bytes, lacking: nat,
                    error: ReadError, rest: bytes)
    requires error in {StreamError, OverSized}
    ensures Yields(Decode(avail), Error(error), rest) ==>
      Body(known, handlers, avail, lacking) == (Error(error), rest)
    ensures !Witnessed(known, handlers, avail, Error(error))
  {
  }

  /** And one whose id could. */
  lemma ReadId<R>(known: i32 -> bool, handlers: i32 -> Handler<R>, avail: bytes, lacking: nat,
                  id: i32, rest: bytes)
    ensures Yields(Decode(avail), Done(id), rest) ==>
      Body(known, handlers, avail, lacking) ==
        if !known(id) then (Error(UnknownPacket(id)), rest)
        else if lacking > 0 then (Error(StreamError), [])
        else (Done(Handle(handlers(id), [], rest, 0).0), [])
  {
  }

  lemma WitnessedById<R>(known: i32 -> bool, handlers: i32 -> Handler<R>, avail: bytes,
                         id: i32, rest: bytes, outcome: Outcome<R>)
    requires known(id)
    ensures Yields(Decode(avail), Done(id), rest) && Witnessed(known, handlers, avail, outcome) ==>
      outcome.Done? && Telling(handlers(id), outcome.value)
  {
  }

  /** The handler, and the discarding of what it left. */
  method HandleKnown<R>(reader: PacketReader, handler: Handler<R>, ghost p: Position)
    returns (outcome: Outcome<R>, ghost got: bytes)
    requires reader.Valid() && p == reader.At()
    modifies reader.Repr
    ensures reader.Valid() && (old(reader.starved) ==> reader.starved)
    ensures Advanced(reader.inflater.inflate, p, reader.At(), got)
    ensures !reader.starved ==>
      var inflate := reader.inflater.inflate;
      Avail(inflate, reader.At()) == [] &&
      outcome == if Lacking(inflate, p) > 0 then Error(StreamError)
                 else Done(Handle(handler, [], Avail(inflate, p), 0).0)
    ensures outcome.Done? ==> Bound(reader.At()) == 0
    ensures old(reader.Smooth()) && outcome.Done? && Telling(handler, outcome.value) ==> reader.Smooth()
  {
    ghost var inflate := reader.inflater.inflate;
    var result;
    ghost var more;
    result, got := reader.Run(handler);
    ghost var q := reader.At();
    var remaining := if reader.inflating then reader.inner else reader.limit;
    var ok;
    ok, more := reader.Discard(remaining);
    AdvancedTrans(inflate, p, q, reader.At(), got, more);
    got := got + more;
    if ok { outcome := Done(result); } else { outcome := Error(StreamError); }
  }

  /**
   * `read_packet`. Without an inflater in play the result and the stream left behind are those of
   * the pure reading, for every input and every schedule of short reads. A compressed packet is
   * left at whatever the inflater ate; see `Inflated` for its outcome.
   */
  method ReadPacket<R>(base: BufReader, inflater: Inflater, compression: bool,
                       known: i32 -> bool, handlers: i32 -> Handler<R>)
    returns (outcome: Outcome<R>)
    requires base.Valid() && inflater.Valid()
    modifies base.Repr, inflater
    ensures base.Valid() && inflater.Valid()
    ensures base.inner.state.Decrypting? <==> old(base.inner.state.Decrypting?)
    ensures match Classify(compression, old(base.View()))
      case HeaderError(e, rest) => outcome == Error(e) && base.View() == rest
      case Uncompressed(body, lacking, tail) =>
        outcome == Body(known, handlers, body, lacking).0 &&
        base.View() == Body(known, handlers, body, lacking).1 + tail
      case Compressed(size, payload, lacking, tail) =>
        Inflated(inflater.inflate, inflater.valid, CourseOf(base, inflater),
                 old(base.Later()) <= |tail| <= |old(base.View())| - 3,
                 base.View(), known, handlers, size, payload, tail, outcome)
  {
    hide Decode, Body, ClassifyBounded, Inflated, CourseOf;
    ghost var view, later := base.View(), base.Later();
    var length := ReadLength(base, inflater);
    if length.Error? { return Error(length.error); }
    if length.value < 0 { return Error(NegativeLength); }
    ghost var now := base.Later();
    outcome := ReadBounded(base, inflater, compression, length.value, known, handlers);
    match Classify(compression, view) {
      case Compressed(size, payload, lacking, tail) =>
        CoveredLess(inflater.inflate, inflater.valid, CourseOf(base, inflater), now <= |tail|,
                    later <= |tail| <= |view| - 3, base.View(), known, handlers, size, payload, tail,
                    outcome);
      case _ =>
    }
  }

  /** The packet length, under its bound of three bytes. */
  method ReadLength(base: BufReader, inflater: Inflater) returns (length: Outcome<i32>)
    requires base.Valid() && inflater.Valid()
    modifies base.Repr, inflater
    ensures base.Valid() && inflater.Valid()
    ensures base.inner.state.Decrypting? <==> old(base.inner.state.Decrypting?)
    ensures old(base.Later()) <= |old(base.View())| - 3 ==> base.Later() == old(base.Later())
    ensures var view := old(base.View());
            var head := view[..Min(3, |view|)];
            var rest := Decode(head).rest;
            |rest| <= |head| && base.View() == view[|head| - |rest|..] && Yields(Decode(head), length, rest)
  {
    hide Decode, Yields, Advanced, Productive, Dry, Steady, Needed, Within, Placed, Avail, Covered, Moved,
      Fed, Flatten, Streaming, Closed, PacketReader.Valid, PacketReader.At, PacketReader.Smooth;
    var head := new PacketReader(base, inflater, 3);
    ghost var p := head.At();
    head.Parts();
    ghost var got;
    length, got := head.ReadVarInt();
    head.Parts();
    RawView(inflater.inflate, p, head.At(), got);
    LengthLeft(p, head.At(), got, length);
  }

  lemma LengthLeft(p: Position, q: Position, got: bytes, length: Outcome<i32>)
    requires p.limit == 3 && p.view == got + q.view && Yields(Decode(Reach(p)), length, Reach(q))
    requires q.view[|Reach(q)|..] == p.view[|Reach(p)|..]
    ensures var rest := Decode(Reach(p)).rest;
            |rest| <= |Reach(p)| && q.view == p.view[|Reach(p)| - |rest|..] &&
            Yields(Decode(Reach(p)), length, rest)
    ensures p.later <= |p.view| - 3 ==> Covered(p)
  {
    hide Decode;
    assert |q.view| == |Reach(q)| + |p.view| - |Reach(p)|;
    assert p.view[|got|..] == q.view;
  }

  lemma CoveredLess<R>(inflate: bytes -> bytes, valid: bytes -> bool, c: Course, more: bool, less: bool,
                       view: bytes, known: i32 -> bool, handlers: i32 -> Handler<R>,
                       size: nat, payload: bytes, tail: bytes, outcome: Outcome<R>)
    requires Inflated(inflate, valid, c, more, view, known, handlers, size, payload, tail, outcome)
    requires less ==> more
    ensures Inflated(inflate, valid, c, less, view, known, handlers, size, payload, tail, outcome)
  {
  }

  /**
   * How the inflater went through a payload: its bites, whether no more input can be taken, whether
   * because some was found corrupt, and how much it takes at a time if it is eager, otherwise 0.
   */
  datatype Course = Course(bites: seq<bytes>, stuck: bool, broken: bool, grab: nat)

  ghost function CourseOf(base: BufReader, inflater: Inflater): Course
    reads inflater
  {
    Course(inflater.bites, InputStops(base, inflater), inflater.broken,
           if inflater.eager then inflater.most else 0)
  }

  /**
   * Every bite was taken while output was wanted; only a payload that is not valid is found corrupt;
   * and, all of it having been read ahead, the first bite of an eager inflater is as large as can be.
   */
  ghost predicate Ran(inflate: bytes -> bytes, valid: bytes -> bool, c: Course, covered: bool,
                      size: nat, payload: bytes)
  {
    && Needed(inflate, c.bites, size)
    && (c.broken ==> !valid(payload))
    && (covered && c.grab > 0 && c.bites != [] ==> |c.bites[0]| == Min(c.grab, |payload|))
  }

  /**
   * A compressed packet, once read. The stream stands after what the inflater took. If every slice
   * it took added output, and it was not stopped short of the end of the payload, the outcome is
   * that of the packet on the decompressed bytes; and an outcome that shows that no read came up
   * short is reached in no other way. A packet handled to the end was inflated to its announced size.
   */
  ghost predicate Inflated<R>(inflate: bytes -> bytes, valid: bytes -> bool, c: Course, covered: bool,
                              view: bytes, known: i32 -> bool, handlers: i32 -> Handler<R>,
                              size: nat, payload: bytes, tail: bytes, outcome: Outcome<R>)
  {
    var eaten := Flatten(c.bites);
    var all := inflate(payload);
    var avail := all[..Min(size, |all|)];
    && eaten <= payload
    && view == payload[|eaten|..] + tail
    && (Productive(inflate, c.bites) && (c.stuck ==> eaten == payload) ==>
          outcome == Body(known, handlers, avail, size - |avail|).0)
    && (Witnessed(known, handlers, avail, outcome) ==> Productive(inflate, c.bites))
    && (outcome.Done? ==> size <= |inflate(eaten)|)
    && (PastId(outcome) ==> Started(inflate, c.bites))
    && Ran(inflate, valid, c, covered, size, payload)
  }

  /** A packet whose bytes are taken as they are. */
  method ReadPlain<R>(packet: PacketReader, known: i32 -> bool, handlers: i32 -> Handler<R>,
                      ghost p: Position)
    returns (outcome: Outcome<R>)
    requires packet.Valid() && !packet.inflating && p == packet.At()
    modifies packet.Repr
    ensures packet.base.Valid() && packet.inflater.Valid()
    ensures packet.base.inner.state.Decrypting? <==> p.secret
    ensures var b := Body(known, handlers, Reach(p), p.limit - |Reach(p)|);
            outcome == b.0 && packet.base.View() == b.1 + p.view[|Reach(p)|..]
  {
    hide Body, Advanced, Productive, Dry, Steady, Witnessed, Placed, Avail, Covered, Started, Decode,
      PacketReader.Valid, PacketReader.At, PacketReader.Smooth;
    packet.Parts();
    ghost var got;
    outcome, got := HandlePacket(packet, known, handlers, p);
    packet.Parts();
    RawView(packet.inflater.inflate, p, packet.At(), got);
  }

  /** The part of `read_packet` inside the bound of the packet length. */
  method ReadBounded<R>(base: BufReader, inflater: Inflater, compression: bool, length: nat,
                        known: i32 -> bool, handlers: i32 -> Handler<R>)
    returns (outcome: Outcome<R>)
    requires base.Valid() && inflater.Valid()
    modifies base.Repr, inflater
    ensures base.Valid() && inflater.Valid()
    ensures base.inner.state.Decrypting? <==> old(base.inner.state.Decrypting?)
    ensures match ClassifyBounded(compression, length, old(base.View()))
      case HeaderError(e, rest) => outcome == Error(e) && base.View() == rest
      case Uncompressed(body, lacking, tail) =>
        outcome == Body(known, handlers, body, lacking).0 &&
        base.View() == Body(known, handlers, body, lacking).1 + tail
      case Compressed(size, payload, lacking, tail) =>
        Inflated(inflater.inflate, inflater.valid, CourseOf(base, inflater), old(base.Later()) <= |tail|,
                 base.View(), known, handlers, size, payload, tail, outcome)
  {
    hide Decode, Body, Inflated, Advanced, Productive, Dry;
    var packet := new PacketReader(base, inflater, length);
    ghost var p := packet.At();
    if compression {
      outcome := ReadMarked(packet, known, handlers, p);
    } else {
      outcome := ReadPlain(packet, known, handlers, p);
    }
  }

  /** With compression on: the uncompressed size comes first, zero marking a packet left as it is. */
  method ReadMarked<R>(packet: PacketReader, known: i32 -> bool, handlers: i32 -> Handler<R>,
                       ghost p: Position)
    returns (outcome: Outcome<R>)
    requires packet.Valid() && !packet.inflating && p == packet.At()
    modifies packet.Repr
    ensures packet.base.Valid() && packet.inflater.Valid()
    ensures packet.base.inner.state.Decrypting? <==> p.secret
    ensures var tail := p.view[|Reach(p)|..];
            var view := packet.base.View();
      match Decode(Reach(p))
      case Failed(e, r) => outcome == Error(e) && view == r + tail
      case Parsed(size, r) =>
        if size < 0 then outcome == Error(NegativeLength) && view == r + tail
        else if size == 0 then
          var (o, rest) := Body(known, handlers, r, p.limit - |Reach(p)|);
          outcome == o && view == rest + tail
        else
          Inflated(packet.inflater.inflate, packet.inflater.valid, CourseOf(packet.base, packet.inflater),
                   Covered(p), view, known, handlers, size, r, tail, outcome)
  {
    hide Decode, Body, Inflated, Advanced, Productive, Dry, Lacking, Within, Steady, CourseOf, Covered;
    ghost var inflate := packet.inflater.inflate;
    var size;
    ghost var got;
    size, got := packet.ReadVarInt();
    ghost var q := packet.At();
    RawView(inflate, p, q, got);
    if size.Error? { return Error(size.error); }
    if size.value < 0 { return Error(NegativeLength); }
    outcome := ReadSized(packet, size.value, known, handlers, q);
    if size.value > 0 {
      CoveredLess(inflate, packet.inflater.valid, CourseOf(packet.base, packet.inflater),
                  Covered(q), Covered(p), packet.base.View(), known, handlers, size.value,
                  Reach(q), q.view[|Reach(q)|..], outcome);
    }
  }

  /** What follows the uncompressed size, from position q on. */
  method ReadSized<R>(packet: PacketReader, size: nat, known: i32 -> bool, handlers: i32 -> Handler<R>,
                      ghost q: Position)
    returns (outcome: Outcome<R>)
    requires packet.Valid() && !packet.inflating && q == packet.At()
    modifies packet.Repr
    ensures packet.base.Valid() && packet.inflater.Valid()
    ensures packet.base.inner.state.Decrypting? <==> q.secret
    ensures var tail, view := q.view[|Reach(q)|..], packet.base.View();
      if size == 0 then
        var b := Body(known, handlers, Reach(q), q.limit - |Reach(q)|);
        outcome == b.0 && view == b.1 + tail
      else
        Inflated(packet.inflater.inflate, packet.inflater.valid, CourseOf(packet.base, packet.inflater),
                 Covered(q), view, known, handlers, size, Reach(q), tail, outcome)
  {
    hide *;
    if size == 0 {
      outcome := ReadPlain(packet, known, handlers, q);
    } else {
      outcome := HandleCompressed(packet, size, known, handlers, q);
    }
  }

  method HandleCompressed<R>(packet: PacketReader, size: nat,
                             known: i32 -> bool, handlers: i32 -> Handler<R>, ghost q: Position)
    returns (outcome: Outcome<R>)
    requires packet.Valid() && !packet.inflating && q == packet.At()
    modifies packet.Repr
    ensures packet.base.Valid() && packet.inflater.Valid()
    ensures packet.base.inner.state.Decrypting? <==> q.secret
    ensures Inflated(packet.inflater.inflate, packet.inflater.valid,
                     CourseOf(packet.base, packet.inflater), Covered(q), packet.base.View(),
                     known, handlers, size, Reach(q), q.view[|Reach(q)|..], outcome)
  {
    hide Body, Witnessed, Productive, Inflated, Avail, Dry, Advanced;
    ghost var inflate := packet.inflater.inflate;
    packet.WithDecompression(size);
    ghost var p := packet.At();
    ghost var got;
    outcome, got := HandlePacket(packet, known, handlers, p);
    Settle(inflate, packet.inflater.valid, p, packet.At(), got, CourseOf(packet.base, packet.inflater),
           packet.starved, known, handlers, outcome);
  }

  /** From where the stacked reader came to stand to what is known of the packet. */
  lemma Settle<R>(inflate: bytes -> bytes, valid: bytes -> bool, p: Position, q: Position, got: bytes,
                  c: Course, starved: bool,
                  known: i32 -> bool, handlers: i32 -> Handler<R>, outcome: Outcome<R>)
    requires Placed(inflate, p) && p.inflating && p.bites == [] && p.delivered == 0
    requires Advanced(inflate, p, q, got) && q.bites == c.bites && q.grab == c.grab
    requires Steady(inflate, valid, c.broken, q)
    requires starved ==> Dry(inflate, c.stuck, q)
    requires !starved ==>
      (outcome, Avail(inflate, q)) ==
      Body(known, handlers, Avail(inflate, p), Lacking(inflate, p))
    requires outcome.Done? ==> Bound(q) == 0
    requires Witnessed(known, handlers, Avail(inflate, p), outcome) ==> Productive(inflate, c.bites)
    requires PastId(outcome) ==> Started(inflate, c.bites)
    ensures Inflated(inflate, valid, c, Covered(p), q.view, known, handlers, p.inner,
                     Reach(p), p.view[|Reach(p)|..], outcome)
    ensures q.secret == p.secret
  {
    hide Body, Witnessed, Productive, Needed, Started, Streaming;
    InflatedView(inflate, p, q, got);
    SettleRan(inflate, valid, p, q, got, c, Covered(p));
    if q.eaten == Reach(p) {
      assert q.limit == p.limit - |q.eaten|;
      assert Reach(q) == [];
    }
  }

  lemma SettleRan(inflate: bytes -> bytes, valid: bytes -> bool, p: Position, q: Position, got: bytes,
                  c: Course, covered: bool)
    requires Placed(inflate, p) && p.inflating && p.bites == [] && p.delivered == 0
    requires Advanced(inflate, p, q, got) && q.bites == c.bites && q.grab == c.grab
    requires Steady(inflate, valid, c.broken, q) && covered == Covered(p)
    ensures Ran(inflate, valid, c, covered, p.inner, Reach(p))
  {
    hide Needed, Streaming, Avail;
    var i := p.limit - q.limit;
    assert Reach(q) == Reach(p)[i..];
    ConcatAssoc(p.eaten, Reach(p)[..i], Reach(q));
    assert Reach(p)[..i] + Reach(p)[i..] == Reach(p);
    assert p.eaten + Reach(p) == Reach(p);
    assert q.delivered + q.inner == p.inner;
  }
}
