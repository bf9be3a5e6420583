/** Sessions run on the real layers: the buffered, encrypting writer and the decrypting reader. */
module Delivery {
  import opened Bytes
  import opened VarInt
  import opened Cfb8
  import opened Readers
  import opened Inflating
  import opened Adapters
  import opened Packets
  import opened SyncWriters
  import opened PreCompression
  import opened Sending
  import opened Protocol
  import opened Session
  import Combinators

  /** No packet in the list is large enough to be compressed. */
  ghost predicate NothingCompresses(threshold: Option<nat>, steps: seq<Step>)
    decreases |steps|
  {
    steps == [] ||
    ((steps[0].Send? ==> !Compresses(threshold, steps[0].id, steps[0].packet)) &&
     NothingCompresses(After(threshold, steps[0]), steps[1..]))
  }

  /** Without a threshold nothing is ever compressed. */
  lemma {:induction false} NoThresholdNothingCompresses(threshold: Option<nat>, steps: seq<Step>)
    requires threshold == None
    requires forall i :: 0 <= i < |steps| && steps[i].SetThreshold? ==> steps[i].threshold == None
    ensures NothingCompresses(threshold, steps)
    decreases |steps|
  {
    if steps != [] { NoThresholdNothingCompresses(After(threshold, steps[0]), steps[1..]); }
  }

  /** Nor a packet below a threshold, and one at or above it is. */
  lemma OnePacketCompresses(limit: nat, id: i32, packet: Packet)
    ensures NothingCompresses(Some(limit), [Send(id, packet)]) <==> |Of(id)| + packet.size < limit
  {
    SizeIsLength(id);
    assert [Send(id, packet)][1..] == [];
  }

  /** The packet has a frame. */
  predicate FitsStep(compress: bytes -> bytes, threshold: Option<nat>, step: Step) {
    step.Send? ==> FrameBy(compress, threshold, step.id, step.packet).Framed?
  }

  ghost predicate Fits(compress: bytes -> bytes, threshold: Option<nat>, steps: seq<Step>)
    decreases |steps|
  {
    steps == [] ||
    (FitsStep(compress, threshold, steps[0]) && Fits(compress, After(threshold, steps[0]), steps[1..]))
  }

  /** The compressor takes no empty write. */
  ghost predicate NoEmptySlices(steps: seq<Step>) {
    forall i :: 0 <= i < |steps| && steps[i].Send? ==> [] !in steps[i].packet.writes
  }

  lemma TailSlices(steps: seq<Step>)
    requires steps != [] && NoEmptySlices(steps)
    ensures steps[0].Send? ==> [] !in steps[0].packet.writes
    ensures NoEmptySlices(steps[1..])
  {
    forall i | 0 <= i < |steps| - 1 ensures steps[1..][i] == steps[i + 1] {}
  }

  method SendStep(writer: DefaultWriter, deflater: Deflater, threshold: Option<nat>, step: Step)
    returns (fate: WriteResult, next: Option<nat>)
    requires writer.Valid() && deflater.Valid() && writer.Buffered() == 0
    requires writer.sink.wire == writer.Base() + writer.OnWire(writer.Accepted())
    modifies writer.Repr(), deflater
    ensures deflater.Valid() && writer.state == old(writer.state)
    ensures next == After(threshold, step)
    ensures var z := StepPacked(deflater.codec.compress, step);
      fate.Written? ==>
        Sound(deflater.codec.inflate, threshold, step, z) && Sent(writer, StepBytes(threshold, step, z))
    ensures fate.Written? ==> FitsStep(deflater.codec.compress, threshold, step)
    ensures fate.Overflowed? ==>
      deflater.left == 1 && step.Send? && Compresses(threshold, step.id, step.packet)
    ensures writer.sink.healthy && writer.capacity > 0 && deflater.healthy &&
            (step.Send? ==> [] !in step.packet.writes) && !fate.Overflowed? ==>
      (fate.Written? <==> FitsStep(deflater.codec.compress, threshold, step))
  {
    next := After(threshold, step);
    match step {
      case SetThreshold(_) =>
        fate := Written;
      case Send(id, packet) =>
        assert deflater.codec.Complete(Of(id) + Payload(packet));
        fate := WritePacket(writer, deflater, threshold, id, packet);
    }
  }

  /**
   * The sender's program, one step after another, stopping at the first error. Where nothing fails,
   * every step is taken exactly if every packet has a frame, or else the growth guess underflows.
   */
  method SendAll(writer: DefaultWriter, deflater: Deflater, threshold: Option<nat>, steps: seq<Step>)
    returns (fate: WriteResult, last: Option<nat>)
    requires writer.Valid() && deflater.Valid() && writer.Buffered() == 0
    requires writer.sink.wire == writer.Base() + writer.OnWire(writer.Accepted())
    modifies writer.Repr(), deflater
    ensures deflater.Valid() && writer.state == old(writer.state)
    ensures fate.Written? ==>
      && AllSound(deflater.codec.inflate, threshold, steps, PackedAll(deflater.codec.compress, steps))
      && Sent(writer, WireBy(deflater.codec.compress, threshold, steps))
      && last == FinalThreshold(threshold, steps)
      && Fits(deflater.codec.compress, threshold, steps)
    ensures fate.Overflowed? ==> deflater.left == 1 && !NothingCompresses(threshold, steps)
    ensures writer.sink.healthy && writer.capacity > 0 && deflater.healthy && NoEmptySlices(steps) &&
            !fate.Overflowed? ==>
      (fate.Written? <==> Fits(deflater.codec.compress, threshold, steps))
    decreases |steps|
  {
    hide Sound, FitsStep, StepBytes, StepPacked, Compresses, FrameOf, NoEmptySlices, After;
    if steps == [] {
      fate, last := Written, threshold;
      assert writer.Accepted() + [] == writer.Accepted();
      return;
    }
    ghost var before, compress := writer.Accepted(), deflater.codec.compress;
    if NoEmptySlices(steps) { TailSlices(steps); }
    fate, last := SendStep(writer, deflater, threshold, steps[0]);
    if !fate.Written? { return; }
    fate, last := SendAll(writer, deflater, last, steps[1..]);
    assert PackedAll(compress, steps)[1..] == PackedAll(compress, steps[1..]);
    ConcatAssoc(before, StepBytes(threshold, steps[0], StepPacked(compress, steps[0])),
                WireBy(compress, After(threshold, steps[0]), steps[1..]));
  }

  /** How the inflater took one compressed payload. */
  datatype Cut = Cut(bites: seq<bytes>, payload: bytes)

  /** The slices cover the payload and each of them added output. */
  ghost predicate Clean(inflate: bytes -> bytes, cut: Cut) {
    Productive(inflate, cut.bites) && Flatten(cut.bites) == cut.payload
  }

  ghost predicate AllClean(inflate: bytes -> bytes, cuts: seq<Cut>) {
    forall i :: 0 <= i < |cuts| ==> Clean(inflate, cuts[i])
  }

  lemma CleanConcat(inflate: bytes -> bytes, a: seq<Cut>, b: seq<Cut>)
    ensures AllClean(inflate, a + b) <==> AllClean(inflate, a) && AllClean(inflate, b)
  {
    if AllClean(inflate, a + b) {
      forall i | 0 <= i < |a| ensures Clean(inflate, a[i]) { assert (a + b)[i] == a[i]; }
      forall i | 0 <= i < |b| ensures Clean(inflate, b[i]) { assert (a + b)[|a| + i] == b[i]; }
    }
  }

  lemma OneClean(inflate: bytes -> bytes, cut: Cut)
    ensures AllClean(inflate, [cut]) <==> Clean(inflate, cut)
  {
    if AllClean(inflate, [cut]) { assert [cut][0] == cut; }
  }

  /**
   * What reading a packet that announces `size` comes to when nothing comes up short: the handler sees
   * that much of the payload, or the payload falls short of it.
   */
  function Ideal<R>(known: i32 -> bool, handlers: i32 -> Handler<R>, id: i32, payload: bytes, size: nat)
    : Outcome<R>
  {
    if !known(id) then Error(UnknownPacket(id))
    else if size > |payload| then Error(StreamError)
    else Done(Handle(handlers(id), [], payload[..size], 0).0)
  }

  /** The part of the payload inside the announced size. */
  function Shown(payload: bytes, size: nat): bytes { payload[..Min(size, |payload|)] }

  /** A compressed packet is read right and to its end by clean cuts; and, where it shows, only by them. */
  lemma CleanIff<R>(inflate: bytes -> bytes, valid: bytes -> bool, c: Course, covered: bool, view: bytes,
                    known: i32 -> bool, handlers: i32 -> Handler<R>, id: i32, payload: bytes, size: nat,
                    z: bytes, tail: bytes, outcome: Outcome<R>)
    requires inflate(z) == Of(id) + payload
    requires Inflated(inflate, valid, c, covered, view, known, handlers, Size(id) + size, z, tail, outcome)
    ensures Clean(inflate, Cut(c.bites, z)) ==>
      outcome == Ideal(known, handlers, id, payload, size) && view == tail
    ensures Productive(inflate, c.bites) && !c.stuck ==>
      outcome == Ideal(known, handlers, id, payload, size)
    ensures Witnessed(known, handlers, Of(id) + Shown(payload, size), outcome) && view == tail ==>
      Clean(inflate, Cut(c.bites, z))
    ensures Flatten(c.bites) <= z && view == z[|Flatten(c.bites)|..] + tail
  {
    hide Witnessed, Productive, Body, Ideal, Ran, Started;
    SizeIsLength(id);
    var inner := Of(id) + payload;
    assert inner[..Min(Size(id) + size, |inner|)] == Of(id) + Shown(payload, size);
    IdealIsBody(known, handlers, id, payload, size);
    assert |view| == |z| - |Flatten(c.bites)| + |tail|;
    assert Flatten(c.bites) == z ==> z[|z|..] + tail == tail;
  }

  lemma IdealIsBody<R>(known: i32 -> bool, handlers: i32 -> Handler<R>, id: i32, payload: bytes, size: nat)
    ensures Body(known, handlers, Of(id) + Shown(payload, size), size - |Shown(payload, size)|).0 ==
            Ideal(known, handlers, id, payload, size)
  {
    RoundTrip(id, Shown(payload, size));
  }

  /** An uncompressed body, and an honest packet. */
  lemma IdealWhole<R>(known: i32 -> bool, handlers: i32 -> Handler<R>, id: i32, payload: bytes)
    ensures Body(known, handlers, Of(id) + payload, 0) ==
            (Ideal(known, handlers, id, payload, |payload|), if known(id) then [] else payload)
    ensures Ideal(known, handlers, id, payload, |payload|) ==
            if known(id) then Done(Handle(handlers(id), [], payload, 0).0) else Error(UnknownPacket(id))
    ensures Shown(payload, |payload|) == payload
  {
    BodyReadsBack(known, handlers, id, payload);
    assert payload[..|payload|] == payload;
  }

  /** A result that no run with a short read has witnesses that there was none. */
  lemma IdealWitnesses<R>(known: i32 -> bool, handlers: i32 -> Handler<R>, id: i32, payload: bytes)
    requires known(id) ==> Telling(handlers(id), Handle(handlers(id), [], payload, 0).0)
    ensures Witnessed(known, handlers, Of(id) + payload, Ideal(known, handlers, id, payload, |payload|))
  {
    RoundTrip(id, payload);
    IdealWhole(known, handlers, id, payload);
  }

  /** With a handler that collects it, a compressed payload comes back exactly if the packet was honest. */
  lemma CollectedIffHonest(known: i32 -> bool, handlers: i32 -> Handler<Option<bytes>>,
                           id: i32, packet: Packet)
    requires known(id) && handlers(id) == Collect()
    ensures Ideal(known, handlers, id, Payload(packet), packet.size) == Done(Some(Payload(packet))) <==>
            Honest(packet)
  {
    hide Handle, Collect;
    var payload := Payload(packet);
    assert payload[..|payload|] == payload;
    if packet.size <= |payload| { CollectReturnsAll(payload[..packet.size]); }
  }

  /**
   * The whole frame having been read ahead, an eager inflater that takes as much at a time cuts cleanly:
   * it takes the payload in one slice.
   */
  lemma WholeIsClean<R>(inflate: bytes -> bytes, valid: bytes -> bool, c: Course, view: bytes,
                        known: i32 -> bool, handlers: i32 -> Handler<R>, id: i32, payload: bytes,
                        z: bytes, tail: bytes, outcome: Outcome<R>)
    requires Streaming(inflate) && inflate(z) == Of(id) + payload
    requires Inflated(inflate, valid, c, true, view, known, handlers, Size(id) + |payload|, z, tail, outcome)
    requires Within(c.bites, c.grab) && |z| <= c.grab && valid(z) && (c.stuck ==> c.broken)
    ensures Clean(inflate, Cut(c.bites, z))
  {
    hide Body, Witnessed, Streaming, Productive, Within, Needed;
    SizeIsLength(id);
    CleanIff(inflate, valid, c, true, view, known, handlers, id, payload, |payload|, z, tail, outcome);
    IdealWhole(known, handlers, id, payload);
    NothingProductive(inflate, c.bites);
    assert c.bites != [];
    OneWholeBite(c.bites, c.grab, z);
    OneBiteProductive(inflate, z);
  }

  lemma NothingProductive(inflate: bytes -> bytes, bites: seq<bytes>)
    ensures bites == [] ==> Productive(inflate, bites)
  {
  }

  /** Such a frame is at least three bytes long. */
  lemma CompressedLength(inflate: bytes -> bytes, threshold: Option<nat>, id: i32, packet: Packet, z: bytes)
    requires Streaming(inflate) && Sound(inflate, threshold, Send(id, packet), z)
    requires Compresses(threshold, id, packet)
    ensures |FrameBytes(threshold, id, packet, z)| >= 3
  {
    SizeIsLength(id);
    CompressedFrame(threshold, id, packet, z);
    var total := Size(id) + packet.size;
    SizeIsLength(total);
    SizeIsLength(Size(total) + |z|);
    assert z != [];
  }

  /**
   * One `read_packet`, `aligned` saying that the stream stands at the start of the given frame. An
   * uncompressed frame is always read right and, its id being known, to its end; of an unknown one the
   * payload is left. A compressed one is read right and to its end by clean cuts, and by no others
   * if its outcome shows that no read came up short. An eager inflater that can take the payload at
   * once cuts it cleanly if the whole frame has been read ahead.
   */
  method ReceiveOne<R>(base: BufReader, inflater: Inflater, ghost threshold: Option<nat>,
                       compression: bool, known: i32 -> bool, handlers: i32 -> Handler<R>,
                       ghost id: i32, ghost packet: Packet, ghost z: bytes, ghost tail: bytes,
                       ghost aligned: bool)
    returns (outcome: Outcome<R>, ghost cuts: seq<Cut>)
    requires base.Valid() && inflater.Valid() && compression == threshold.Some?
    requires Sound(inflater.inflate, threshold, Send(id, packet), z)
    requires Honest(packet) || Compresses(threshold, id, packet)
    requires aligned ==> base.View() == FrameBytes(threshold, id, packet, z) + tail
    modifies base.Repr, inflater
    ensures base.Valid() && inflater.Valid()
    ensures base.inner.state.Decrypting? <==> old(base.inner.state.Decrypting?)
    ensures cuts == if Compresses(threshold, id, packet) then [Cut(inflater.bites, z)] else []
    ensures aligned && !Compresses(threshold, id, packet) ==>
      outcome == Ideal(known, handlers, id, Payload(packet), packet.size) &&
      base.View() == if known(id) then tail else Payload(packet) + tail
    ensures aligned && Compresses(threshold, id, packet) ==>
      && (AllClean(inflater.inflate, cuts) ==>
            outcome == Ideal(known, handlers, id, Payload(packet), packet.size) && base.View() == tail)
      && (Witnessed(known, handlers, Of(id) + Shown(Payload(packet), packet.size), outcome) &&
          base.View() == tail ==>
            AllClean(inflater.inflate, cuts))
      && inflater.eaten <= z && base.View() == z[|inflater.eaten|..] + tail
      && (PastId(outcome) ==> Started(inflater.inflate, inflater.bites))
      && Needed(inflater.inflate, inflater.bites, Size(id) + packet.size)
      && (inflater.broken ==> !inflater.valid(z))
    ensures aligned && Compresses(threshold, id, packet) && Honest(packet) &&
            old(base.Later()) <= |tail| && inflater.eager && |z| <= inflater.most && inflater.valid(z) ==>
      AllClean(inflater.inflate, cuts)
  {
    hide Decode, Classify, Body, Of, Handle, Ideal, Inflated, Witnessed, Productive, Within, Started, Needed,
      PastId, Shown, AllClean;
    FrameReadsBack(threshold, id, packet, z, tail);
    IdealWhole(known, handlers, id, Payload(packet));
    ghost var covered := base.Later() <= |tail| <= |base.View()| - 3;
    if Compresses(threshold, id, packet) {
      CompressedLength(inflater.inflate, threshold, id, packet, z);
      assert aligned && base.Later() <= |tail| ==> covered && base.capacity > 0;
    }
    outcome := ReadPacket(base, inflater, compression, known, handlers);
    cuts := [];
    if Compresses(threshold, id, packet) {
      cuts := [Cut(inflater.bites, z)];
      if aligned {
        CompressedRead(inflater.inflate, inflater.valid, CourseOf(base, inflater), covered, base.View(),
                       known, handlers, id, packet, z, tail, outcome);
      }
    } else {
      NoCuts(inflater.inflate, tail);
    }
  }

  /** What `ReceiveOne` says of a compressed frame. */
  lemma CompressedRead<R>(inflate: bytes -> bytes, valid: bytes -> bool, c: Course, covered: bool,
                          view: bytes, known: i32 -> bool, handlers: i32 -> Handler<R>, id: i32,
                          packet: Packet, z: bytes, tail: bytes, outcome: Outcome<R>)
    requires Streaming(inflate) && inflate(z) == Of(id) + Payload(packet)
    requires Inflated(inflate, valid, c, covered, view, known, handlers, Size(id) + packet.size, z, tail,
                      outcome)
    ensures AllClean(inflate, [Cut(c.bites, z)]) ==>
      outcome == Ideal(known, handlers, id, Payload(packet), packet.size) && view == tail
    ensures Witnessed(known, handlers, Of(id) + Shown(Payload(packet), packet.size), outcome) &&
            view == tail ==>
      AllClean(inflate, [Cut(c.bites, z)])
    ensures Flatten(c.bites) <= z && view == z[|Flatten(c.bites)|..] + tail
    ensures PastId(outcome) ==> Started(inflate, c.bites)
    ensures Needed(inflate, c.bites, Size(id) + packet.size) && (c.broken ==> !valid(z))
    ensures covered && Honest(packet) && Within(c.bites, c.grab) && |z| <= c.grab && valid(z) &&
            (c.stuck ==> c.broken) ==>
      AllClean(inflate, [Cut(c.bites, z)])
  {
    hide Inflated, Witnessed, Productive, Within, Started, Needed, PastId, Shown, Ideal, Of, Streaming;
    OneClean(inflate, Cut(c.bites, z));
    CleanIff(inflate, valid, c, covered, view, known, handlers, id, Payload(packet), packet.size, z, tail,
             outcome);
    CourseRan(inflate, valid, c, covered, view, known, handlers, Size(id) + packet.size, z, tail, outcome);
    if covered && Honest(packet) && Within(c.bites, c.grab) && |z| <= c.grab && valid(z) &&
       (c.stuck ==> c.broken)
    {
      WholeIsClean(inflate, valid, c, view, known, handlers, id, Payload(packet), z, tail, outcome);
    }
  }

  lemma CourseRan<R>(inflate: bytes -> bytes, valid: bytes -> bool, c: Course, covered: bool, view: bytes,
                     known: i32 -> bool, handlers: i32 -> Handler<R>, size: nat,
                     z: bytes, tail: bytes, outcome: Outcome<R>)
    requires Inflated(inflate, valid, c, covered, view, known, handlers, size, z, tail, outcome)
    ensures PastId(outcome) ==> Started(inflate, c.bites)
    ensures Needed(inflate, c.bites, size) && (c.broken ==> !valid(z))
  {
  }

  /**
   * An id that is not in the table is reported without discarding. The stream then stands at the end
   * of the frame exactly when there was no payload, or, compressed, when the whole was taken in
   * slices that each added output.
   */
  method ReceiveUnknown<R>(base: BufReader, inflater: Inflater, ghost threshold: Option<nat>,
                           compression: bool, known: i32 -> bool, handlers: i32 -> Handler<R>,
                           ghost id: i32, ghost packet: Packet, ghost z: bytes, ghost tail: bytes)
    returns (outcome: Outcome<R>)
    requires base.Valid() && inflater.Valid() && compression == threshold.Some?
    requires Sound(inflater.inflate, threshold, Send(id, packet), z) && Honest(packet) && !known(id)
    requires base.View() == FrameBytes(threshold, id, packet, z) + tail
    modifies base.Repr, inflater
    ensures base.Valid() && inflater.Valid()
    ensures outcome == Error(UnknownPacket(id)) && base.View() == tail <==>
      if Compresses(threshold, id, packet) then Clean(inflater.inflate, Cut(inflater.bites, z))
      else Payload(packet) == []
    ensures !Compresses(threshold, id, packet) ==>
      outcome == Error(UnknownPacket(id)) && base.View() == Payload(packet) + tail
  {
    ghost var cuts;
    outcome, cuts := ReceiveOne(base, inflater, threshold, compression, known, handlers,
                                id, packet, z, tail, true);
    IdealWhole(known, handlers, id, Payload(packet));
    IdealWitnesses(known, handlers, id, Payload(packet));
    OneClean(inflater.inflate, Cut(inflater.bites, z));
    assert |Payload(packet) + tail| == |Payload(packet)| + |tail|;
  }

  /**
   * A value of any serialisable type, written in whatever pieces under the size its type announces,
   * framed and read by a handler that takes all it may: uncompressed it always comes back; compressed
   * it comes back, with the stream at the end of the frame, exactly when the cut was clean.
   */
  method ReceiveTyped(base: BufReader, inflater: Inflater, ghost threshold: Option<nat>,
                      compression: bool, known: i32 -> bool,
                      handlers: i32 -> Handler<Option<bytes>>, t: Combinators.Ty,
                      ghost id: i32, ghost v: Combinators.Val, ghost pieces: seq<bytes>,
                      ghost z: bytes, ghost tail: bytes)
    returns (value: Option<Combinators.Val>)
    requires base.Valid() && inflater.Valid() && compression == threshold.Some?
    requires Combinators.HasType(v, t) && Flatten(pieces) == Combinators.Write(v, t)
    requires known(id) && handlers(id) == Collect()
    requires Sound(inflater.inflate, threshold, Send(id, Packet(Combinators.Size(v, t), pieces)), z)
    requires base.View() ==
             FrameBytes(threshold, id, Packet(Combinators.Size(v, t), pieces), z) + tail
    modifies base.Repr, inflater
    ensures base.Valid() && inflater.Valid()
    ensures value == Some(v) && base.View() == tail <==>
      (Compresses(threshold, id, Packet(Combinators.Size(v, t), pieces)) ==>
         Clean(inflater.inflate, Cut(inflater.bites, z)))
  {
    hide *;
    ghost var packet := Packet(Combinators.Size(v, t), pieces);
    TypedIsHonest(v, t, pieces);
    var outcome;
    ghost var cuts;
    outcome, cuts := ReceiveOne(base, inflater, threshold, compression, known, handlers,
                                id, packet, z, tail, true);
    OneClean(inflater.inflate, Cut(inflater.bites, z));
    value := ParsedAs(t, outcome);
    ghost var compressed := Compresses(threshold, id, packet);
    IdealWhole(known, handlers, id, Payload(packet));
    TypedIff(known, handlers, t, id, v, outcome, base.View() == tail,
             compressed ==> Clean(inflater.inflate, Cut(inflater.bites, z)));
  }

  function ParsedAs(t: Combinators.Ty, outcome: Outcome<Option<bytes>>): Option<Combinators.Val> {
    if outcome.Done? && outcome.value.Some? then
      match Combinators.Read(t, outcome.value.value)
      case Parsed(w, _) => Some(w)
      case Failed(_, _) => None
    else None
  }

  lemma TypedIsHonest(v: Combinators.Val, t: Combinators.Ty, pieces: seq<bytes>)
    requires Combinators.HasType(v, t) && Flatten(pieces) == Combinators.Write(v, t)
    ensures Honest(Packet(Combinators.Size(v, t), pieces))
    ensures Payload(Packet(Combinators.Size(v, t), pieces)) == Combinators.Write(v, t)
    ensures Packet(Combinators.Size(v, t), pieces).size == |Combinators.Write(v, t)|
  {
    Combinators.SizeIsBytesWritten(v, t);
  }

  /** Bytes that such a handler returns at all witness that no read came up short. */
  lemma TypedIff(known: i32 -> bool, handlers: i32 -> Handler<Option<bytes>>, t: Combinators.Ty,
                 id: i32, v: Combinators.Val, outcome: Outcome<Option<bytes>>,
                 aligned: bool, clean: bool)
    requires Combinators.HasType(v, t) && known(id) && handlers(id) == Collect()
    requires clean ==>
      outcome == Done(Handle(handlers(id), [], Combinators.Write(v, t), 0).0) && aligned
    requires Witnessed(known, handlers, Of(id) + Combinators.Write(v, t), outcome) && aligned ==> clean
    ensures ParsedAs(t, outcome) == Some(v) && aligned <==> clean
  {
    hide Handle, Telling, Of, Collect;
    var data := Combinators.Write(v, t);
    RoundTrip(id, data);
    CollectReturnsAll(data);
    Combinators.ReadsBack(v, t, []);
    assert data + [] == data;
    if outcome.Done? && outcome.value.Some? { CollectTells(outcome.value.value); }
  }

  /** One step of the receiver's program; `rest` is the stream behind it. */
  method ReceiveStep<R>(base: BufReader, inflater: Inflater, compression: bool, mirror: ReadStep,
                        known: i32 -> bool, handlers: i32 -> Handler<R>,
                        ghost threshold: Option<nat>, ghost step: Step, ghost z: bytes,
                        ghost rest: bytes, ghost aligned: bool)
    returns (outcomes: seq<Outcome<R>>, next: bool, ghost marks: seq<bytes>, ghost cuts: seq<Cut>)
    requires base.Valid() && inflater.Valid() && compression == threshold.Some?
    requires Sound(inflater.inflate, threshold, step, z)
    requires Proper(known, [step]) && Mirrors([step], [mirror])
    requires aligned ==> base.View() == StepBytes(threshold, step, z) + rest
    modifies base.Repr, inflater
    ensures base.Valid() && inflater.Valid()
    ensures base.inner.state.Decrypting? <==> old(base.inner.state.Decrypting?)
    ensures next == After(threshold, step).Some?
    ensures |outcomes| == |StepExpected(handlers, step)| && |marks| == |StepStands(step, rest)|
    ensures aligned && AllClean(inflater.inflate, cuts) ==>
      outcomes == StepExpected(handlers, step) && marks == StepStands(step, rest) && base.View() == rest
    ensures aligned && StepTelling(handlers, step) ==>
      (outcomes == StepExpected(handlers, step) && marks == StepStands(step, rest) <==>
       AllClean(inflater.inflate, cuts))
    ensures (step.Send? ==> !Compresses(threshold, step.id, step.packet)) ==> cuts == []
  {
    hide Productive, Within, Telling, FrameOf, Handle, Witnessed, Compresses;
    assert [step][0] == step && [mirror][0] == mirror;
    outcomes, next, marks, cuts := [], compression, [], [];
    match mirror {
      case Adopt(t) =>
        next := t.Some?;
        assert [] + rest == rest;
      case Receive =>
        var outcome;
        outcome, cuts := ReceiveOne(base, inflater, threshold, compression, known, handlers,
                                    step.id, step.packet, z, rest, aligned);
        outcomes, marks := [outcome], [base.View()];
        IdealWhole(known, handlers, step.id, Payload(step.packet));
        if StepTelling(handlers, step) {
          IdealWitnesses(known, handlers, step.id, Payload(step.packet));
        }
    }
  }

  /**
   * The receiver's program over any transport schedule. If every compressed payload is taken cleanly,
   * the handlers' results are those of the sent payloads, after every packet the stream stands at
   * the end of its frame, and in the end at `tail`; and if the results are such as to show a short
   * read, in no other case. Sessions in which nothing compresses need no such condition.
   */
  method ReceiveAll<R>(base: BufReader, inflater: Inflater, compression: bool, mirror: seq<ReadStep>,
                       known: i32 -> bool, handlers: i32 -> Handler<R>,
                       ghost threshold: Option<nat>, ghost steps: seq<Step>, ghost zs: seq<bytes>,
                       ghost tail: bytes, ghost aligned: bool)
    returns (outcomes: seq<Outcome<R>>, last: bool, ghost marks: seq<bytes>, ghost cuts: seq<Cut>)
    requires base.Valid() && inflater.Valid() && compression == threshold.Some?
    requires |steps| == |zs| && AllSound(inflater.inflate, threshold, steps, zs)
    requires Proper(known, steps) && Mirrors(steps, mirror)
    requires aligned ==> base.View() == Wire(threshold, steps, zs) + tail
    modifies base.Repr, inflater
    ensures base.Valid() && inflater.Valid()
    ensures base.inner.state.Decrypting? <==> old(base.inner.state.Decrypting?)
    ensures aligned && AllClean(inflater.inflate, cuts) ==>
      outcomes == Expected(handlers, steps) && marks == Stands(threshold, steps, zs, tail) &&
      base.View() == tail
    ensures aligned && AllTelling(handlers, steps) ==>
      (outcomes == Expected(handlers, steps) && marks == Stands(threshold, steps, zs, tail) <==>
       AllClean(inflater.inflate, cuts))
    ensures last == FinalThreshold(threshold, steps).Some?
    ensures NothingCompresses(threshold, steps) ==> cuts == []
    decreases |mirror|
  {
    hide AllClean, Sound, StepBytes, StepExpected, StepStands, After, AllTelling, StepTelling, Proper, Mirrors;
    if mirror == [] {
      NoSteps(steps, mirror);
      outcomes, last, marks, cuts := [], compression, [], [];
      NoCuts(inflater.inflate, tail);
      return;
    }
    HeadAndTail(known, steps, mirror);
    ghost var step, z := steps[0], zs[0];
    ghost var now := After(threshold, step);
    ghost var rest := Wire(now, steps[1..], zs[1..]);
    ConcatAssoc(StepBytes(threshold, step, z), rest, tail);
    outcomes, last, marks, cuts := ReceiveStep(base, inflater, compression, mirror[0], known, handlers,
                                               threshold, step, z, rest + tail, aligned);
    ghost var here := aligned && AllClean(inflater.inflate, cuts);
    var others;
    ghost var later, more;
    others, last, later, more := ReceiveAll(base, inflater, last, mirror[1..], known, handlers,
                                            now, steps[1..], zs[1..], tail, here);
    CleanConcat(inflater.inflate, cuts, more);
    if AllTelling(handlers, steps) { TailTelling(handlers, steps); }
    SameParts(outcomes, others, StepExpected(handlers, step), Expected(handlers, steps[1..]));
    SameParts(marks, later, StepStands(step, rest + tail), Stands(now, steps[1..], zs[1..], tail));
    outcomes, marks, cuts := outcomes + others, marks + later, cuts + more;
  }

  lemma NoSteps(steps: seq<Step>, mirror: seq<ReadStep>)
    requires Mirrors(steps, mirror)
    ensures steps == [] <==> mirror == []
  {
  }

  lemma NoCuts(inflate: bytes -> bytes, tail: bytes)
    ensures AllClean(inflate, []) && [] + tail == tail
  {
  }

  lemma HeadAndTail(known: i32 -> bool, steps: seq<Step>, mirror: seq<ReadStep>)
    requires mirror != [] && Proper(known, steps) && Mirrors(steps, mirror)
    ensures steps != [] && |steps| == |mirror|
    ensures Proper(known, [steps[0]]) && Mirrors([steps[0]], [mirror[0]])
    ensures Proper(known, steps[1..]) && Mirrors(steps[1..], mirror[1..])
  {
    TailProper(known, steps, mirror);
  }

  /** Two concatenations with fronts of the same length are equal exactly when their parts are. */
  lemma SameParts<T>(a: seq<T>, b: seq<T>, c: seq<T>, d: seq<T>)
    requires |a| == |c|
    ensures a + b == c + d <==> a == c && b == d
  {
    assert (a + b)[..|a|] == a && (a + b)[|a|..] == b;
    assert (c + d)[..|c|] == c && (c + d)[|c|..] == d;
  }

  /** The sending side: steps in the clear, the switch, steps enciphered. */
  method SendSession(writer: DefaultWriter, deflater: Deflater, cipher: Cipher,
                     plain: seq<Step>, secret: seq<Step>)
    returns (fate: WriteResult, opening: bytes, closing: bytes)
    requires writer.Valid() && deflater.Valid() && writer.state.Standard? && writer.sink.wire == []
    requires writer.Buffered() == 0 && writer.Base() == [] && writer.Accepted() == []
    modifies writer.Repr(), deflater
    ensures fate.Written? ==>
      var compress, last := deflater.codec.compress, FinalThreshold(None, plain);
      && AllSound(deflater.codec.inflate, None, plain, PackedAll(compress, plain))
      && AllSound(deflater.codec.inflate, last, secret, PackedAll(compress, secret))
      && opening == WireBy(compress, None, plain)
      && closing == Encrypt(cipher, cipher.iv, WireBy(compress, last, secret))
      && writer.sink.wire == opening + closing
      && FitsBoth(compress, plain, secret)
    ensures fate.Overflowed? ==> deflater.left == 1 && !NeitherCompresses(plain, secret)
    ensures writer.sink.healthy && writer.capacity > 0 && deflater.healthy &&
            NoEmptySlices(plain) && NoEmptySlices(secret) && !fate.Overflowed? ==>
      (fate.Written? <==> FitsBoth(deflater.codec.compress, plain, secret))
  {
    hide AllSound, Wire, Fits, NoEmptySlices, NothingCompresses, FinalThreshold, PackedAll;
    opening, closing := [], [];
    var threshold;
    fate, threshold := SendAll(writer, deflater, None, plain);
    if !fate.Written? { return; }
    ghost var sent := WireBy(deflater.codec.compress, None, plain);
    assert [] + sent == sent;
    opening := writer.sink.wire;
    writer.WithEncryption(cipher);
    assert opening + Encrypt(cipher, cipher.iv, []) == opening;
    fate, threshold := SendAll(writer, deflater, threshold, secret);
    if !fate.Written? { return; }
    ghost var later := WireBy(deflater.codec.compress, FinalThreshold(None, plain), secret);
    assert [] + later == later;
    closing := writer.sink.wire[|opening|..];
  }

  /** Every packet of the session has a frame. */
  ghost predicate FitsBoth(compress: bytes -> bytes, plain: seq<Step>, secret: seq<Step>) {
    Fits(compress, None, plain) && Fits(compress, FinalThreshold(None, plain), secret)
  }

  ghost predicate NeitherCompresses(plain: seq<Step>, secret: seq<Step>) {
    NothingCompresses(None, plain) && NothingCompresses(FinalThreshold(None, plain), secret)
  }

  /**
   * The receiving side over any schedule of short reads: `early` of the enciphered bytes are in
   * transit when the switch comes, `late` arrive after it. With nothing read ahead at the switch and
   * clean cuts everything is delivered.
   */
  method ReceiveSession<R>(base: BufReader, inflater: Inflater, cipher: Cipher, ghost early: bytes,
                           late: bytes, plainMirror: seq<ReadStep>, secretMirror: seq<ReadStep>,
                           known: i32 -> bool, handlers: i32 -> Handler<R>,
                           ghost plain: seq<Step>, ghost plainZs: seq<bytes>,
                           ghost secret: seq<Step>, ghost secretZs: seq<bytes>)
    returns (outcomes: seq<Outcome<R>>, ghost ahead: bytes, ghost cuts: seq<Cut>)
    requires base.Valid() && inflater.Valid() && base.inner.state.Standard?
    requires |plainZs| == |plain| && |secretZs| == |secret|
    requires AllSound(inflater.inflate, None, plain, plainZs)
    requires AllSound(inflater.inflate, FinalThreshold(None, plain), secret, secretZs)
    requires Proper(known, plain) && Mirrors(plain, plainMirror)
    requires Proper(known, secret) && Mirrors(secret, secretMirror)
    requires base.View() == Wire(None, plain, plainZs) + early
    requires early + late ==
             Encrypt(cipher, cipher.iv, Wire(FinalThreshold(None, plain), secret, secretZs))
    modifies base.Repr, inflater
    ensures AllClean(inflater.inflate, cuts) ==> ahead <= early
    ensures ahead == [] && AllClean(inflater.inflate, cuts) ==>
      outcomes == Expected(handlers, plain) + Expected(handlers, secret) && base.View() == []
    ensures NothingCompresses(None, plain) && NothingCompresses(FinalThreshold(None, plain), secret) ==>
      cuts == []
  {
    var first, on, second;
    ghost var marks, more;
    first, on, marks, cuts := ReceiveAll(base, inflater, false, plainMirror, known, handlers,
                                         None, plain, plainZs, early, true);
    ghost var clean := AllClean(inflater.inflate, cuts);
    ahead := base.ahead;
    second, more := ReceiveSecret(base, inflater, on, cipher, early, late, secretMirror, known, handlers,
                                  FinalThreshold(None, plain), secret, secretZs, clean);
    CleanConcat(inflater.inflate, cuts, more);
    cuts := cuts + more;
    outcomes := first + second;
  }

  /** The switch, and the enciphered part of the session. */
  method ReceiveSecret<R>(base: BufReader, inflater: Inflater, compression: bool, cipher: Cipher,
                          ghost early: bytes, late: bytes, mirror: seq<ReadStep>,
                          known: i32 -> bool, handlers: i32 -> Handler<R>,
                          ghost threshold: Option<nat>, ghost steps: seq<Step>, ghost zs: seq<bytes>,
                          ghost clean: bool)
    returns (outcomes: seq<Outcome<R>>, ghost cuts: seq<Cut>)
    requires base.Valid() && inflater.Valid() && base.inner.state.Standard?
    requires compression == threshold.Some? && (clean ==> base.View() == early)
    requires |steps| == |zs| && AllSound(inflater.inflate, threshold, steps, zs)
    requires Proper(known, steps) && Mirrors(steps, mirror)
    requires early + late == Encrypt(cipher, cipher.iv, Wire(threshold, steps, zs))
    modifies base.Repr, inflater
    ensures clean && old(base.ahead) == [] && AllClean(inflater.inflate, cuts) ==>
      outcomes == Expected(handlers, steps) && base.View() == []
    ensures NothingCompresses(threshold, steps) ==> cuts == []
  {
    hide AllClean, AllSound, Proper, Mirrors, Wire, Encrypt, Decrypt, Advance, NothingCompresses, Expected;
    ghost var plain := Wire(threshold, steps, zs);
    ghost var ready := clean && base.ahead == [];
    if ready { assert base.inner.source.incoming == early; }
    base.WithEncryption(cipher);
    base.Arrive(late);
    Inverse(cipher, cipher.iv, plain);
    assert plain + [] == plain;
    if ready {
      assert base.inner.View() == Decrypt(cipher, cipher.iv, early + late);
      assert base.View() == [] + base.inner.View() == base.inner.View();
    }
    var last;
    ghost var marks;
    outcomes, last, marks, cuts := ReceiveAll(base, inflater, compression, mirror, known, handlers,
                                              threshold, steps, zs, [], ready);
  }

  /** A sender from scratch. */
  method RunSender(codec: Codec, cipher: Cipher, capacity: nat, healthy: bool,
                   plain: seq<Step>, secret: seq<Step>)
    returns (fate: WriteResult, opening: bytes, closing: bytes)
    requires codec.Sane()
    ensures fate.Written? ==>
      var last := FinalThreshold(None, plain);
      && AllSound(codec.inflate, None, plain, PackedAll(codec.compress, plain))
      && AllSound(codec.inflate, last, secret, PackedAll(codec.compress, secret))
      && opening == WireBy(codec.compress, None, plain)
      && closing == Encrypt(cipher, cipher.iv, WireBy(codec.compress, last, secret))
      && FitsBoth(codec.compress, plain, secret)
    ensures fate.Overflowed? ==> !NeitherCompresses(plain, secret)
    ensures healthy && capacity > 0 && NoEmptySlices(plain) && NoEmptySlices(secret) && !fate.Overflowed? ==>
      (fate.Written? <==> FitsBoth(codec.compress, plain, secret))
  {
    hide AllSound, Wire, Encrypt, FitsBoth, FinalThreshold, PackedAll, NoEmptySlices, NeitherCompresses;
    var deflater := new Deflater(codec, healthy);
    var sink := new Sink(healthy);
    var writer := new DefaultWriter(sink, capacity);
    fate, opening, closing := SendSession(writer, deflater, cipher, plain, secret);
  }

  /** A receiver from scratch, `early` bytes of the enciphered part having been sent by the switch. */
  method RunReceiver<R>(codec: Codec, cipher: Cipher, most: nat, eager: bool, capacity: nat,
                        early: nat, opening: bytes, closing: bytes,
                        plainMirror: seq<ReadStep>, secretMirror: seq<ReadStep>,
                        known: i32 -> bool, handlers: i32 -> Handler<R>,
                        ghost plain: seq<Step>, ghost plainZs: seq<bytes>,
                        ghost secret: seq<Step>, ghost secretZs: seq<bytes>)
    returns (outcomes: seq<Outcome<R>>, ghost ahead: bytes, ghost cuts: seq<Cut>)
    requires Streaming(codec.inflate) && Closed(codec.valid) && most > 0
    requires |plainZs| == |plain| && |secretZs| == |secret|
    requires AllSound(codec.inflate, None, plain, plainZs)
    requires AllSound(codec.inflate, FinalThreshold(None, plain), secret, secretZs)
    requires Proper(known, plain) && Mirrors(plain, plainMirror)
    requires Proper(known, secret) && Mirrors(secret, secretMirror)
    requires opening == Wire(None, plain, plainZs)
    requires closing == Encrypt(cipher, cipher.iv, Wire(FinalThreshold(None, plain), secret, secretZs))
    ensures AllClean(codec.inflate, cuts) ==> |ahead| <= early
    ensures ahead == [] && AllClean(codec.inflate, cuts) ==>
      outcomes == Expected(handlers, plain) + Expected(handlers, secret)
    ensures NothingCompresses(None, plain) && NothingCompresses(FinalThreshold(None, plain), secret) ==>
      cuts == []
  {
    hide AllClean, AllSound, Proper, Mirrors, Wire, Encrypt, NothingCompresses, Expected, FinalThreshold,
      Streaming, Closed, Productive, Within;
    var sent := if early < |closing| then early else |closing|;
    var first, second := closing[..sent], closing[sent..];
    CutAt(closing, sent);
    var source := new Source(opening + first);
    var base := new BufReader(source, capacity);
    var inflater := new Inflater(codec.inflate, codec.valid, most, eager);
    outcomes, ahead, cuts := ReceiveSession(base, inflater, cipher, first, second,
                                            plainMirror, secretMirror, known, handlers,
                                            plain, plainZs, secret, secretZs);
  }

  lemma CutAt(s: bytes, k: nat)
    requires k <= |s|
    ensures s[..k] + s[k..] == s && |s[..k]| == k
  {
  }

  /** How a session went, and everything it has shown if it was completed. */
  datatype Report<+R> = Report(fate: WriteResult, wire: bytes, outcomes: seq<Outcome<R>>)

  /**
   * A whole session between two stream providers: packets and threshold changes in the clear, the
   * switch to encryption on both sides, packets and threshold changes enciphered. The wire carries
   * the plain frames followed by the one-shot CFB8 encryption of the later ones, no byte being lost
   * at the switch. `early` of the enciphered bytes have been sent when the receiver switches; if
   * none of them has been read ahead, its results are exactly those of the sent payloads. Where
   * nothing fails the session is completed exactly if every packet has a frame, or else the growth
   * guess underflows, which takes a packet that is compressed.
   */
  method RunSession<R>(aes: (Block, Block) -> Block, key: Block, codec: Codec, most: nat, eager: bool,
                       writeCapacity: nat, readCapacity: nat, healthy: bool, early: nat,
                       plain: seq<Step>, plainMirror: seq<ReadStep>,
                       secret: seq<Step>, secretMirror: seq<ReadStep>,
                       known: i32 -> bool, handlers: i32 -> Handler<R>)
    returns (report: Report<R>, ghost ahead: bytes, ghost cuts: seq<Cut>)
    requires codec.Sane() && most > 0
    requires Proper(known, plain) && Mirrors(plain, plainMirror)
    requires Proper(known, secret) && Mirrors(secret, secretMirror)
    ensures report.fate.Written? ==>
      && report.wire == WireBy(codec.compress, None, plain) +
                        Encrypt(WithKey(aes, key), key,
                                WireBy(codec.compress, FinalThreshold(None, plain), secret))
      && (AllClean(codec.inflate, cuts) ==> |ahead| <= early)
      && (ahead == [] && AllClean(codec.inflate, cuts) ==>
            report.outcomes == Expected(handlers, plain) + Expected(handlers, secret))
      && (NeitherCompresses(plain, secret) ==> cuts == [])
      && FitsBoth(codec.compress, plain, secret)
    ensures report.fate.Overflowed? ==> !NeitherCompresses(plain, secret)
    ensures healthy && writeCapacity > 0 && NoEmptySlices(plain) && NoEmptySlices(secret) &&
            !report.fate.Overflowed? ==>
      (report.fate.Written? <==> FitsBoth(codec.compress, plain, secret))
  {
    var cipher := WithKey(aes, key);
    assert cipher.iv == key && Streaming(codec.inflate) && Closed(codec.valid);
    assert NeitherCompresses(plain, secret) <==>
      NothingCompresses(None, plain) && NothingCompresses(FinalThreshold(None, plain), secret);
    assert WireBy(codec.compress, None, plain) == Wire(None, plain, PackedAll(codec.compress, plain));
    ghost var last := FinalThreshold(None, plain);
    assert WireBy(codec.compress, last, secret) == Wire(last, secret, PackedAll(codec.compress, secret));
    hide *;
    var fate, opening, closing := RunSender(codec, cipher, writeCapacity, healthy, plain, secret);
    ahead, cuts := [], [];
    if !fate.Written? { return Report(fate, [], []), ahead, cuts; }
    var outcomes;
    outcomes, ahead, cuts := RunReceiver(codec, cipher, most, eager, readCapacity, early, opening, closing,
                                         plainMirror, secretMirror, known, handlers,
                                         plain, PackedAll(codec.compress, plain),
                                         secret, PackedAll(codec.compress, secret));
    report := Report(fate, opening + closing, outcomes);
  }

  // ----- compressed packets that no one reads right

  /**
   * With the stored codec and an inflater that takes no more than two bytes at a time, no compressed
   * frame of an honest packet is ever left at its end, whoever reads it and whatever comes of it: the
   * trailer would be a slice of its own, and by then nothing is wanted any more.
   */
  method SmallBitesFail<R>(base: BufReader, inflater: Inflater, ghost threshold: Option<nat>,
                           known: i32 -> bool, handlers: i32 -> Handler<R>,
                           ghost id: i32, ghost packet: Packet, ghost tail: bytes)
    returns (outcome: Outcome<R>)
    requires base.Valid() && inflater.Valid() && inflater.inflate == Unstored && inflater.most <= 2
    requires Honest(packet) && Compresses(threshold, id, packet)
    requires FrameOf(threshold, id, packet, Stored(Of(id) + Payload(packet))).Framed?
    requires base.View() ==
             FrameBytes(threshold, id, packet, Stored(Of(id) + Payload(packet))) + tail
    modifies base.Repr, inflater
    ensures base.View() != tail
  {
    hide Productive, FrameOf, Inflated, Handle, FrameBytes, Needed, Started, Of, Payload, Within, Stored,
      Unstored, Sound, Compresses, Honest, Ideal, Witnessed;
    ghost var inner := Of(id) + Payload(packet);
    StoredSound(threshold, id, packet);
    ghost var cuts;
    outcome, cuts := ReceiveOne(base, inflater, threshold, true, known, handlers,
                                id, packet, Stored(inner), tail, true);
    if inflater.eaten == Stored(inner) {
      WithinLess(inflater.bites, inflater.most, 2);
      SmallBitesUnneeded(inner, inflater.bites);
    }
    NotAtEnd(Stored(inner), inflater.eaten, tail);
  }

  lemma StoredSound(threshold: Option<nat>, id: i32, packet: Packet)
    requires Compresses(threshold, id, packet)
    requires FrameOf(threshold, id, packet, Stored(Of(id) + Payload(packet))).Framed?
    ensures Sound(Unstored, threshold, Send(id, packet), Stored(Of(id) + Payload(packet)))
    ensures threshold.Some? && Of(id) + Payload(packet) != []
    ensures Honest(packet) ==> |Of(id) + Payload(packet)| == Size(id) + packet.size
  {
    StoredRoundTrip(Of(id) + Payload(packet));
    SizeIsLength(id);
  }

  /**
   * And if it takes a single byte at a time, no packet gets as far as its handler, nor to its id: the
   * first slice adds nothing, which is taken for the end of the stream.
   */
  method OneByteBitesFail<R>(base: BufReader, inflater: Inflater, ghost threshold: Option<nat>,
                             known: i32 -> bool, handlers: i32 -> Handler<R>,
                             ghost id: i32, ghost packet: Packet, ghost tail: bytes)
    returns (outcome: Outcome<R>)
    requires base.Valid() && inflater.Valid() && inflater.inflate == Unstored && inflater.most == 1
    requires Compresses(threshold, id, packet)
    requires FrameOf(threshold, id, packet, Stored(Of(id) + Payload(packet))).Framed?
    requires base.View() ==
             FrameBytes(threshold, id, packet, Stored(Of(id) + Payload(packet))) + tail
    modifies base.Repr, inflater
    ensures outcome.Error? && !outcome.error.UnknownPacket?
  {
    hide Productive, FrameOf, Inflated, Handle, FrameBytes, Needed, Started, Of, Payload, Within, Witnessed;
    StoredRoundTrip(Of(id) + Payload(packet));
    ghost var cuts;
    outcome, cuts := ReceiveOne(base, inflater, threshold, true, known, handlers, id, packet,
                                Stored(Of(id) + Payload(packet)), tail, true);
    OneByteStartsNothing(inflater.bites);
  }

  lemma NotAtEnd(z: bytes, eaten: bytes, tail: bytes)
    requires eaten <= z
    ensures z[|eaten|..] + tail == tail <==> eaten == z
  {
    assert |z[|eaten|..] + tail| == |z| - |eaten| + |tail|;
    if eaten == z { assert z[|z|..] + tail == tail; }
  }

  lemma WithinLess(bites: seq<bytes>, a: nat, b: nat)
    requires Within(bites, a) && a <= b
    ensures Within(bites, b)
  {
  }

  /** The bytes of the run below. */
  lemma FailingFrame()
    ensures var packet := Packet(1, [[7]]);
      && Payload(packet) == [7] && Honest(packet) && Compresses(Some(0), 0, packet)
      && Of(0) + Payload(packet) == [0, 7]
      && FrameOf(Some(0), 0, packet, Stored([0, 7])) == Framed(Of(7) + (Of(2) + Stored([0, 7])))
  {
    assert Flatten([[7]]) == [7] + Flatten([]);
    TrailerAddsNothing([0, 7], 4);
    SizeIsLength(0);
    SizeIsLength(2);
    assert Of(0) == [0] && Of(2) == [2];
  }

  /** A threshold of zero and a packet: what is on the wire is its compressed frame. */
  lemma FirstFrameCompressed()
    ensures WireBy(Stored, None, [SetThreshold(Some(0)), Send(0, Packet(1, [[7]]))]) ==
            [7, 2, 1, 0, 1, 7, 0, 0]
  {
    hide Stored, Of, FrameOf, Payload, Wire, PackedAll;
    var packet := Packet(1, [[7]]);
    FailingFrame();
    OneFrame(Stored, packet);
    SevenBytes();
    assert [7] + ([2] + [1, 0, 1, 7, 0, 0]) == [7, 2, 1, 0, 1, 7, 0, 0];
  }

  lemma OneFrame(compress: bytes -> bytes, packet: Packet)
    requires FrameBy(compress, Some(0), 0, packet).Framed?
    ensures WireBy(compress, None, [SetThreshold(Some(0)), Send(0, packet)]) ==
            FrameBy(compress, Some(0), 0, packet).bytes
  {
    hide FrameOf;
    var steps := [SetThreshold(Some(0)), Send(0, packet)];
    var zs := PackedAll(compress, steps);
    assert steps[1..] == [Send(0, packet)] && steps[1..][1..] == [];
    assert zs[1..] == PackedAll(compress, steps[1..]);
    var frame := FrameBy(compress, Some(0), 0, packet).bytes;
    assert Wire(Some(0), steps[1..], zs[1..]) == frame + [];
    assert [] + (frame + []) == frame;
  }

  lemma SevenBytes()
    ensures Of(7) == [7] && Of(2) == [2] && Stored([0, 7]) == [1, 0, 1, 7, 0, 0]
  {
    assert [0, 7][1..] == [7] && [7][1..] == [];
    assert Stored([7]) == [1, 7] + Stored([]);
    assert Stored([0, 7]) == [1, 0] + Stored([7]);
  }

  /**
   * From scratch: packet 0 with payload [7], threshold 0, a handler that reads everything. The stream
   * never ends where the packet does.
   */
  method FailingRun(capacity: nat) returns (outcome: Outcome<Option<bytes>>, base: BufReader)
    ensures base.View() != []
  {
    hide Stored, FrameOf, Of, Payload, Collect, Telling, Compresses, Honest, Unstored, StoredValid;
    ghost var packet := Packet(1, [[7]]);
    FailingFrame();
    StoredRoundTrip([]);
    StoredIsClosed();
    var frame := Of(7) + (Of(2) + Stored([0, 7]));
    var source := new Source(frame);
    base := new BufReader(source, capacity);
    var inflater := new Inflater(Unstored, StoredValid, 2, false);
    assert frame + [] == frame;
    outcome := SmallBitesFail(base, inflater, Some(0), _ => true, _ => Collect(), 0, packet, []);
  }

  /**
   * The same packet, an eager inflater, and the whole of it read ahead, if the transport gave it at
   * once: then it is read right and to its end.
   */
  method WholeRun(capacity: nat) returns (outcome: Outcome<Option<bytes>>, base: BufReader, loaded: bool)
    ensures loaded ==> outcome == Done(Some([7])) && base.View() == []
  {
    hide Stored, FrameOf, Of, Payload, Collect, Telling, Compresses, Honest, Unstored, StoredValid, Ideal,
      Productive, Handle;
    ghost var packet := Packet(1, [[7]]);
    FailingFrame();
    StoredRoundTrip([0, 7]);
    StoredIsClosed();
    StoredIsValid([0, 7]);
    var z := Stored([0, 7]);
    var frame := Of(7) + (Of(2) + z);
    var source := new Source(frame);
    base := new BufReader(source, capacity);
    base.FillBuf();
    loaded := |base.ahead| == |frame|;
    var inflater := new Inflater(Unstored, StoredValid, |z| + 1, true);
    assert frame + [] == frame;
    assert loaded ==> base.Later() == 0;
    ghost var cuts;
    outcome, cuts := ReceiveOne(base, inflater, Some(0), true, _ => true, _ => Collect(), 0, packet, z,
                                [], true);
    IdealCollected();
  }

  lemma IdealCollected()
    ensures Ideal(_ => true, _ => Collect(), 0, [7], 1) == Done(Some([7]))
  {
    hide Handle;
    CollectReturnsAll([7]);
    assert [7][..1] == [7];
  }
}
