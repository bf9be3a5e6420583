/** Whole sessions: many packets, changing compression thresholds, one switch to encryption. */
module Session {
  import opened Bytes
  import opened Bits
  import opened VarInt
  import opened Cfb8
  import opened Adapters
  import opened Packets

  /** What the sending program does. */
  datatype Step = SetThreshold(threshold: Option<nat>) | Send(id: i32, packet: Packet)

  /** What the receiving program does. */
  datatype ReadStep = Adopt(threshold: Option<nat>) | Receive

  function FrameBytes(threshold: Option<nat>, id: i32, packet: Packet, z: bytes): bytes {
    match FrameOf(threshold, id, packet, z) case Framed(b) => b case TooLarge(_) => []
  }

  function After(threshold: Option<nat>, step: Step): Option<nat> {
    match step case SetThreshold(t) => t case Send(_, _) => threshold
  }

  /** What one step adds to the stream; `z` is what the compressor made of its packet. */
  function StepBytes(threshold: Option<nat>, step: Step, z: bytes): bytes {
    match step case SetThreshold(_) => [] case Send(id, p) => FrameBytes(threshold, id, p, z)
  }

  function Wire(threshold: Option<nat>, steps: seq<Step>, zs: seq<bytes>): bytes
    requires |steps| == |zs|
    decreases |steps|
  {
    if steps == [] then []
    else StepBytes(threshold, steps[0], zs[0]) + Wire(After(threshold, steps[0]), steps[1..], zs[1..])
  }

  /**
   * A threshold change adds nothing to the stream, and what comes after it goes out under the new
   * threshold.
   */
  lemma {:induction false} WireSwitches(threshold: Option<nat>, a: seq<Step>, t: Option<nat>, b: seq<Step>,
                                        za: seq<bytes>, zb: seq<bytes>)
    requires |a| == |za| && |b| == |zb|
    ensures Wire(threshold, a + [SetThreshold(t)] + b, za + [[]] + zb) ==
            Wire(threshold, a, za) + Wire(t, b, zb)
    decreases |a|
  {
    var steps, zs := a + [SetThreshold(t)] + b, za + [[]] + zb;
    if a == [] {
      assert steps == [SetThreshold(t)] + b && zs == [[]] + zb;
      assert steps[1..] == b && zs[1..] == zb;
    } else {
      assert steps[1..] == a[1..] + [SetThreshold(t)] + b && zs[1..] == za[1..] + [[]] + zb;
      var next := After(threshold, a[0]);
      WireSwitches(next, a[1..], t, b, za[1..], zb);
      ConcatAssoc(StepBytes(threshold, a[0], za[0]), Wire(next, a[1..], za[1..]), Wire(t, b, zb));
    }
  }

  /** A packet adds its frame under the threshold in force, and leaves that as it is. */
  lemma {:induction false} WireSends(threshold: Option<nat>, a: seq<Step>, id: i32, packet: Packet, z: bytes,
                                     za: seq<bytes>)
    requires |a| == |za|
    requires FrameOf(FinalThreshold(threshold, a), id, packet, z).Framed?
    ensures Wire(threshold, a + [Send(id, packet)], za + [z]) ==
            Wire(threshold, a, za) + FrameOf(FinalThreshold(threshold, a), id, packet, z).bytes
    decreases |a|
  {
    var steps, zs := a + [Send(id, packet)], za + [z];
    if a == [] {
      assert steps[1..] == [] && zs[1..] == [];
    } else {
      assert steps[1..] == a[1..] + [Send(id, packet)] && zs[1..] == za[1..] + [z];
      var next := After(threshold, a[0]);
      WireSends(next, a[1..], id, packet, z, za[1..]);
      ConcatAssoc(StepBytes(threshold, a[0], za[0]), Wire(next, a[1..], za[1..]),
                  FrameOf(FinalThreshold(threshold, a), id, packet, z).bytes);
    }
  }

  /** The threshold in force is the last one set. */
  lemma {:induction false} LastThreshold(threshold: Option<nat>, a: seq<Step>, t: Option<nat>, id: i32,
                                         packet: Packet)
    ensures FinalThreshold(threshold, []) == threshold
    ensures FinalThreshold(threshold, a + [SetThreshold(t)]) == t
    ensures FinalThreshold(threshold, a + [Send(id, packet)]) == FinalThreshold(threshold, a)
    decreases |a|
  {
    if a == [] {
      assert [SetThreshold(t)][1..] == [] && [Send(id, packet)][1..] == [];
      assert a + [SetThreshold(t)] == [SetThreshold(t)] && a + [Send(id, packet)] == [Send(id, packet)];
    } else {
      LastThreshold(After(threshold, a[0]), a[1..], t, id, packet);
      assert (a + [SetThreshold(t)])[1..] == a[1..] + [SetThreshold(t)];
      assert (a + [Send(id, packet)])[1..] == a[1..] + [Send(id, packet)];
    }
  }

  /** What the compressor makes of each packet. */
  function PackedAll(compress: bytes -> bytes, steps: seq<Step>): (zs: seq<bytes>)
    ensures |zs| == |steps|
  {
    if steps == [] then [] else [StepPacked(compress, steps[0])] + PackedAll(compress, steps[1..])
  }

  function StepPacked(compress: bytes -> bytes, step: Step): bytes {
    match step case SetThreshold(_) => [] case Send(id, p) => Packed(compress, id, p)
  }

  lemma {:induction false} PackedAt(compress: bytes -> bytes, steps: seq<Step>, i: nat)
    requires i < |steps|
    ensures PackedAll(compress, steps)[i] ==
            if steps[i].Send? then compress(Of(steps[i].id) + Payload(steps[i].packet)) else []
  {
    if i > 0 { PackedAt(compress, steps[1..], i - 1); }
  }

  /** The stream that a sender with this compressor puts out. */
  function WireBy(compress: bytes -> bytes, threshold: Option<nat>, steps: seq<Step>): bytes {
    Wire(threshold, steps, PackedAll(compress, steps))
  }

  function FinalThreshold(threshold: Option<nat>, steps: seq<Step>): Option<nat>
    decreases |steps|
  {
    if steps == [] then threshold else FinalThreshold(After(threshold, steps[0]), steps[1..])
  }

  /** One packet as it was sent: not too large, and if compressed, by something that decompresses. */
  ghost predicate Sound(inflate: bytes -> bytes, threshold: Option<nat>, step: Step, z: bytes) {
    step.Send? ==>
      && FrameOf(threshold, step.id, step.packet, z).Framed?
      && (Compresses(threshold, step.id, step.packet) ==>
            inflate(z) == Of(step.id) + Payload(step.packet))
  }

  ghost predicate AllSound(inflate: bytes -> bytes, threshold: Option<nat>, steps: seq<Step>, zs: seq<bytes>)
    requires |steps| == |zs|
    decreases |steps|
  {
    steps == [] ||
    (Sound(inflate, threshold, steps[0], zs[0]) &&
     AllSound(inflate, After(threshold, steps[0]), steps[1..], zs[1..]))
  }

  /** Honest packets with ids the receiver's table knows. */
  ghost predicate Proper(known: i32 -> bool, steps: seq<Step>) {
    forall i :: 0 <= i < |steps| && steps[i].Send? ==>
      known(steps[i].id) && Honest(steps[i].packet)
  }

  /** The receiver mirrors the sender; threshold values may differ, being on or off may not. */
  predicate Mirrors(steps: seq<Step>, mirror: seq<ReadStep>) {
    |steps| == |mirror| && forall i :: 0 <= i < |steps| ==> Mirrored(steps[i], mirror[i])
  }

  predicate Mirrored(step: Step, mirror: ReadStep) {
    match step
    case SetThreshold(t) => mirror.Adopt? && mirror.threshold.Some? == t.Some?
    case Send(_, _) => mirror.Receive?
  }

  /** What each handler makes of the payload it was meant to see, in order. */
  function Expected<R>(handlers: i32 -> Handler<R>, steps: seq<Step>): seq<Outcome<R>> {
    if steps == [] then [] else StepExpected(handlers, steps[0]) + Expected(handlers, steps[1..])
  }

  function StepExpected<R>(handlers: i32 -> Handler<R>, step: Step): seq<Outcome<R>> {
    match step
    case SetThreshold(_) => []
    case Send(id, p) => [Done(Handle(handlers(id), [], Payload(p), 0).0)]
  }

  /** Where the stream stands after each packet has been read, in order. */
  function Stands(threshold: Option<nat>, steps: seq<Step>, zs: seq<bytes>, tail: bytes): seq<bytes>
    requires |steps| == |zs|
    decreases |steps|
  {
    if steps == [] then []
    else
      var next := After(threshold, steps[0]);
      StepStands(steps[0], Wire(next, steps[1..], zs[1..]) + tail) +
      Stands(next, steps[1..], zs[1..], tail)
  }

  function StepStands(step: Step, rest: bytes): seq<bytes> { if step.Send? then [rest] else [] }

  /** What mirroring comes to for a single step: values may differ, being set may not. */
  lemma MirrorsOne(t: Option<nat>, u: Option<nat>, id: i32, packet: Packet, known: i32 -> bool)
    ensures Mirrors([SetThreshold(t)], [Adopt(u)]) <==> t.Some? == u.Some?
    ensures Mirrors([Send(id, packet)], [Receive])
    ensures !Mirrors([SetThreshold(t)], [Receive]) && !Mirrors([Send(id, packet)], [Adopt(u)])
    ensures Proper(known, [SetThreshold(t)])
    ensures Proper(known, [Send(id, packet)]) <==> known(id) && packet.size == |Payload(packet)|
  {
    assert [Send(id, packet)][0] == Send(id, packet) && [SetThreshold(t)][0] == SetThreshold(t);
    assert [Receive][0] == Receive && [Adopt(u)][0] == Adopt(u);
  }

  /** And for any steps it is that step by step. */
  lemma MirrorsAll(a: seq<Step>, b: seq<Step>, ma: seq<ReadStep>, mb: seq<ReadStep>, known: i32 -> bool)
    requires |a| == |ma|
    ensures Mirrors(a + b, ma + mb) <==> Mirrors(a, ma) && Mirrors(b, mb)
    ensures Proper(known, a + b) <==> Proper(known, a) && Proper(known, b)
  {
    if Mirrors(a + b, ma + mb) { MirrorsParts(a, b, ma, mb); }
    if Proper(known, a + b) {
      forall i | 0 <= i < |a| && a[i].Send? ensures known(a[i].id) && Honest(a[i].packet) {
        assert (a + b)[i] == a[i];
      }
      forall i | 0 <= i < |b| && b[i].Send? ensures known(b[i].id) && Honest(b[i].packet) {
        assert (a + b)[|a| + i] == b[i];
      }
    }
  }

  lemma MirrorsParts(a: seq<Step>, b: seq<Step>, ma: seq<ReadStep>, mb: seq<ReadStep>)
    requires |a| == |ma| && Mirrors(a + b, ma + mb)
    ensures Mirrors(a, ma) && Mirrors(b, mb)
  {
    forall i | 0 <= i < |a| ensures Mirrored(a[i], ma[i]) {
      assert (a + b)[i] == a[i] && (ma + mb)[i] == ma[i];
    }
    forall i | 0 <= i < |b| ensures Mirrored(b[i], mb[i]) {
      assert (a + b)[|a| + i] == b[i] && (ma + mb)[|a| + i] == mb[i];
    }
  }

  /** Results come in the order of the packets. */
  lemma {:induction false} ExpectedInOrder<R>(handlers: i32 -> Handler<R>, a: seq<Step>, id: i32,
                                              packet: Packet, t: Option<nat>)
    ensures Expected(handlers, a + [Send(id, packet)]) ==
            Expected(handlers, a) + [Done(Handle(handlers(id), [], Payload(packet), 0).0)]
    ensures Expected(handlers, a + [SetThreshold(t)]) == Expected(handlers, a)
    ensures Expected(handlers, []) == []
    decreases |a|
  {
    hide Handle;
    var sent, changed := a + [Send(id, packet)], a + [SetThreshold(t)];
    if a == [] {
      assert sent == [Send(id, packet)] && changed == [SetThreshold(t)];
      assert sent[1..] == [] && changed[1..] == [];
    } else {
      ExpectedInOrder(handlers, a[1..], id, packet, t);
      assert sent[1..] == a[1..] + [Send(id, packet)] && changed[1..] == a[1..] + [SetThreshold(t)];
    }
  }

  /** A packet read leaves the stream at what was sent after it. */
  lemma StandsAfter(threshold: Option<nat>, id: i32, packet: Packet, z: bytes, steps: seq<Step>,
                    zs: seq<bytes>, tail: bytes, t: Option<nat>)
    requires |steps| == |zs|
    ensures Stands(threshold, [Send(id, packet)] + steps, [z] + zs, tail) ==
            [Wire(threshold, steps, zs) + tail] + Stands(threshold, steps, zs, tail)
    ensures Stands(threshold, [SetThreshold(t)] + steps, [[]] + zs, tail) == Stands(t, steps, zs, tail)
  {
    assert ([Send(id, packet)] + steps)[1..] == steps && ([z] + zs)[1..] == zs;
    assert ([SetThreshold(t)] + steps)[1..] == steps && ([[]] + zs)[1..] == zs;
  }

  /** The handler could not have had its expected result from a run in which a read came up short. */
  ghost predicate StepTelling<R>(handlers: i32 -> Handler<R>, step: Step) {
    step.Send? ==>
      Telling(handlers(step.id), Handle(handlers(step.id), [], Payload(step.packet), 0).0)
  }

  ghost predicate AllTelling<R>(handlers: i32 -> Handler<R>, steps: seq<Step>) {
    forall i :: 0 <= i < |steps| ==> StepTelling(handlers, steps[i])
  }

  lemma CollectorsTell(handlers: i32 -> Handler<Option<bytes>>, steps: seq<Step>)
    requires forall id: i32 :: handlers(id) == Collect()
    ensures AllTelling(handlers, steps)
  {
    hide Handle, Telling, Collect;
    forall i | 0 <= i < |steps| ensures StepTelling(handlers, steps[i]) {
      if steps[i].Send? { CollectReturnsAll(Payload(steps[i].packet)); }
    }
  }

  lemma TailTelling<R>(handlers: i32 -> Handler<R>, steps: seq<Step>)
    requires steps != [] && AllTelling(handlers, steps)
    ensures StepTelling(handlers, steps[0]) && AllTelling(handlers, steps[1..])
  {
    forall i | 0 <= i < |steps| - 1 ensures steps[1..][i] == steps[i + 1] {}
  }

  lemma TailProper(known: i32 -> bool, steps: seq<Step>, mirror: seq<ReadStep>)
    requires steps != [] && Proper(known, steps) && Mirrors(steps, mirror)
    ensures Proper(known, steps[1..]) && Mirrors(steps[1..], mirror[1..])
  {
    forall i | 0 <= i < |steps| - 1
      ensures steps[1..][i] == steps[i + 1] && mirror[1..][i] == mirror[i + 1]
    {
    }
  }

  // ----- the switch to encryption, as the reader sees it

  /**
   * Switching the reader with bytes read ahead leaves those bytes undecrypted: for every cipher the
   * reader's view is the decryption of all that was still unread exactly when nothing was read ahead.
   */
  lemma SwitchNeedsEmptyLookAhead(ahead: bytes, rest: bytes)
    ensures (forall c: Cipher :: ahead + Decrypt(c, c.iv, rest) == Decrypt(c, c.iv, ahead + rest)) <==>
            ahead == []
  {
    if ahead == [] {
      assert ahead + rest == rest;
    } else {
      var ones: Block := seq(16, _ => 1);
      var c := Cipher(_ => ones, ones);
      DecryptSplit(c, c.iv, ahead, rest);
      var d := Decrypt(c, c.iv, ahead + rest);
      assert d[0] == XorByte(ahead[0], 1);
      FlipsLowBit(ahead[0]);
      assert (ahead + Decrypt(c, c.iv, rest))[0] == ahead[0] != d[0];
    }
  }

  lemma FlipsLowBit(b: byte)
    ensures XorByte(b, 1) != b
  {
    assert BitXor(b, 1) % 2 != b % 2;
  }
}
