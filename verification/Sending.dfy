/** `write_packet_internal` of src/protocol/mod.rs over the default buffered, encryptable writer. */
module Sending {
  import opened Bytes
  import opened VarInt
  import opened Packets
  import opened SyncWriters
  import opened PreCompression

  datatype WriteResult = Written | OverSized(was: nat) | WriteFailed | Overflowed

  /** `to_writer` of a VarInt on the stream. */
  method WriteVarInt(writer: DefaultWriter, x: i32) returns (ok: bool)
    requires writer.Valid()
    modifies writer.Repr()
    ensures writer.state == old(writer.state)
    ensures ok ==> writer.Valid() && writer.Base() == old(writer.Base())
    ensures ok ==> writer.Accepted() == old(writer.Accepted()) + Of(x)
    ensures writer.sink.healthy && writer.capacity > 0 ==> ok
  {
    var out := Serialize(x);
    ok := writer.WriteAll(out.value);
  }

  /** `to_writer` of the packet: its slices, one write each. */
  method WriteSlices(writer: DefaultWriter, slices: seq<bytes>) returns (ok: bool)
    requires writer.Valid()
    modifies writer.Repr()
    ensures writer.state == old(writer.state)
    ensures ok ==> writer.Valid() && writer.Base() == old(writer.Base())
    ensures ok ==> writer.Accepted() == old(writer.Accepted()) + Flatten(slices)
    ensures writer.sink.healthy && writer.capacity > 0 ==> ok
  {
    hide Flatten;
    ghost var before := writer.Accepted();
    NoSlices(before, slices);
    var i := 0;
    while i < |slices|
      invariant 0 <= i <= |slices|
      invariant writer.Valid() && writer.state == old(writer.state)
      invariant writer.Base() == old(writer.Base())
      invariant writer.Accepted() == before + Flatten(slices[..i])
    {
      ok := writer.WriteAll(slices[i]);
      if !ok { return; }
      SliceStep(before, slices, i);
      i := i + 1;
    }
    ok := true;
  }

  lemma NoSlices(before: bytes, slices: seq<bytes>)
    ensures before + Flatten(slices[..0]) == before
    ensures slices[..|slices|] == slices
  {
  }

  lemma SliceStep(before: bytes, slices: seq<bytes>, i: nat)
    requires i < |slices|
    ensures before + Flatten(slices[..i]) + slices[i] == before + Flatten(slices[..i + 1])
  {
    assert slices[..i + 1] == slices[..i] + [slices[i]];
    FlattenAppend(slices[..i], slices[i]);
    ConcatAssoc(before, Flatten(slices[..i]), slices[i]);
  }

  /** `with_pre_compression!`: id and payload through the compressor, then flushed. */
  method Compress(deflater: Deflater, id: i32, packet: Packet) returns (r: Intake, payload: bytes)
    requires deflater.Valid()
    modifies deflater
    ensures deflater.Valid()
    ensures r.Accepted? ==> payload == Packed(deflater.codec.compress, id, packet)
    ensures deflater.healthy && [] !in packet.writes ==> !r.Broken?
    ensures r.Underflow? ==> deflater.left == 1
  {
    deflater.Reset();
    var pre := new PreCompressor(deflater);
    var idBytes := Serialize(id);
    payload := [];
    r := pre.Write(idBytes.value);
    if !r.Accepted? { return; }
    var i := 0;
    while i < |packet.writes|
      invariant 0 <= i <= |packet.writes|
      invariant pre.Valid() && pre.deflater == deflater && fresh(pre)
      invariant !deflater.stream.finishing
      invariant deflater.stream.fed == Of(id) + Flatten(packet.writes[..i])
    {
      r := pre.Write(packet.writes[i]);
      if !r.Accepted? { return; }
      SliceStep(Of(id), packet.writes, i);
      i := i + 1;
    }
    assert packet.writes[..i] == packet.writes;
    var ok := pre.Flush();
    if !ok { return Broken, []; }
    var size;
    size, payload := pre.Finish();
    r := Accepted;
  }

  /** The frame of a packet, given the compressor. */
  function FrameBy(compress: bytes -> bytes, threshold: Option<nat>, id: i32, packet: Packet): FrameResult {
    FrameOf(threshold, id, packet, Packed(compress, id, packet))
  }

  /**
   * On success exactly the packet's frame has been appended to the stream and everything is on the
   * wire. A packet whose frame is too large leaves writer and wire as they were. Where nothing fails
   * and the growth guess does not underflow, a packet is written if and only if it has a frame.
   */
  method WritePacket(writer: DefaultWriter, deflater: Deflater, threshold: Option<nat>,
                     id: i32, packet: Packet)
    returns (r: WriteResult)
    requires writer.Valid() && deflater.Valid()
    modifies writer.Repr(), deflater
    ensures deflater.Valid() && writer.state == old(writer.state)
    ensures r.Written? ==>
      && FrameBy(deflater.codec.compress, threshold, id, packet).Framed?
      && Sent(writer, FrameBy(deflater.codec.compress, threshold, id, packet).bytes)
      && writer.sink.pushed == writer.sink.wire
    ensures r.OverSized? ==>
      FrameBy(deflater.codec.compress, threshold, id, packet) == TooLarge(r.was)
    ensures r.OverSized? || r.Overflowed? ==> unchanged(writer.Repr())
    ensures r.Overflowed? ==> Compresses(threshold, id, packet) && deflater.left == 1
    ensures writer.sink.healthy && writer.capacity > 0 && !r.Overflowed? &&
            (Compresses(threshold, id, packet) ==> deflater.healthy && [] !in packet.writes) ==>
      (r.Written? <==> FrameBy(deflater.codec.compress, threshold, id, packet).Framed?) &&
      !r.WriteFailed?
  {
    var total := Size(id) + packet.size;
    if threshold.Some? && total >= threshold.value {
      r := WriteCompressed(writer, deflater, threshold, id, packet);
      return;
    }
    var marked := if threshold.Some? then total + 1 else total;
    if marked > MAX_PACKET_SIZE { return WriteResult.OverSized(marked); }
    var ok := WriteStored(writer, marked, threshold.Some?, id, packet);
    r := if ok then Written else WriteFailed;
  }

  /** The frame has been appended and nothing is left in the buffer. */
  twostate predicate Sent(writer: DefaultWriter, frame: bytes)
    reads writer, writer.Repr()
  {
    && writer.Valid() && writer.Base() == old(writer.Base())
    && writer.Accepted() == old(writer.Accepted()) + frame
    && writer.Buffered() == 0
    && writer.sink.wire == writer.Base() + writer.OnWire(writer.Accepted())
  }

  /** Length, the zero marker when compression is on, id, payload, flush. */
  method WriteStored(writer: DefaultWriter, n: i32, marker: bool, id: i32, packet: Packet)
    returns (ok: bool)
    requires writer.Valid()
    modifies writer.Repr()
    ensures writer.state == old(writer.state)
    ensures ok ==> Sent(writer, if marker then Of(n) + (Of(0) + (Of(id) + Payload(packet)))
                                else Of(n) + (Of(id) + Payload(packet)))
    ensures ok ==> writer.sink.pushed == writer.sink.wire
    ensures writer.sink.healthy && writer.capacity > 0 ==> ok
  {
    ghost var before := writer.Accepted();
    ok := WriteVarInt(writer, n);
    if !ok { return; }
    if marker {
      ok := WriteVarInt(writer, 0);
      if !ok { return; }
    }
    ok := WriteVarInt(writer, id);
    if !ok { return; }
    ok := WriteSlices(writer, packet.writes);
    if !ok { return; }
    Assemble(before, Of(n), Of(0), Of(id), Payload(packet));
    ok := writer.Flush();
  }

  /** Length, uncompressed size, the payload that `initialize` writes, flush. */
  method WriteDeflated(writer: DefaultWriter, n: i32, total: i32, payload: bytes) returns (ok: bool)
    requires writer.Valid()
    modifies writer.Repr()
    ensures writer.state == old(writer.state)
    ensures ok ==> Sent(writer, Of(n) + (Of(total) + payload))
    ensures ok ==> writer.sink.pushed == writer.sink.wire
    ensures writer.sink.healthy && writer.capacity > 0 ==> ok
  {
    ghost var before := writer.Accepted();
    ok := WriteVarInt(writer, n);
    if !ok { return; }
    ok := WriteVarInt(writer, total);
    if !ok { return; }
    // The writes of id and packet that the source repeats after `initialize` go nowhere.
    ok := writer.WriteAll(payload);
    if !ok { return; }
    Assemble(before, Of(n), [], Of(total), payload);
    ok := writer.Flush();
  }

  lemma Assemble(a: bytes, b: bytes, c: bytes, d: bytes, e: bytes)
    ensures a + b + d + e == a + (b + (d + e))
    ensures a + b + c + d + e == a + (b + (c + (d + e)))
  {
  }

  method WriteCompressed(writer: DefaultWriter, deflater: Deflater, threshold: Option<nat>,
                         id: i32, packet: Packet)
    returns (r: WriteResult)
    requires writer.Valid() && deflater.Valid() && Compresses(threshold, id, packet)
    modifies writer.Repr(), deflater
    ensures deflater.Valid() && writer.state == old(writer.state)
    ensures r.Written? ==>
      && FrameBy(deflater.codec.compress, threshold, id, packet).Framed?
      && Sent(writer, FrameBy(deflater.codec.compress, threshold, id, packet).bytes)
      && writer.sink.pushed == writer.sink.wire
    ensures r.OverSized? ==>
      FrameBy(deflater.codec.compress, threshold, id, packet) == TooLarge(r.was)
    ensures r.OverSized? || r.Overflowed? ==> unchanged(writer.Repr())
    ensures r.Overflowed? ==> deflater.left == 1
    ensures writer.sink.healthy && writer.capacity > 0 && deflater.healthy && [] !in packet.writes ==>
      !r.WriteFailed?
  {
    hide Deflater.Valid, Payload, Of, FrameOf, Compresses;
    var total := Size(id) + packet.size;
    var compressed, payload := Compress(deflater, id, packet);
    match compressed {
      case Broken => return WriteFailed;
      case Underflow => return Overflowed;
      case Accepted =>
    }
    CompressedFrame(threshold, id, packet, payload);
    if total >= 0x8000_0000 { return WriteResult.OverSized(total); }
    var n := Size(total) + |payload|;
    if n > MAX_PACKET_SIZE { return WriteResult.OverSized(n); }
    var ok := WriteDeflated(writer, n, total, payload);
    r := if ok then Written else WriteFailed;
  }
}
