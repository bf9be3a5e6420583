/**
 * The polled writers of src/defaults/asynchronous/tokio.rs (futures.rs repeats them): a buffer that
 * is filled, then written out from an offset, across calls that may return Pending at any point.
 */
module AsyncWriters {
  import opened Bytes
  import opened Cfb8

  datatype Phase = Fill | Write(offset: nat)

  datatype Poll = Ready(count: nat) | Pending | Error

  /** The underlying stream: every poll may be Pending, or take any non-zero part of the slice. */
  class AsyncSink {
    var wire: bytes
    const healthy: bool
    ghost var pendings: nat  // how often it has answered Pending

    constructor (healthy: bool)
      ensures wire == [] && this.healthy == healthy
    {
      this.healthy := healthy;
      wire, pendings := [], 0;
    }

    method PollWrite(data: bytes) returns (reply: Poll)
      modifies this
      ensures reply.Ready? ==> reply.count <= |data| && wire == old(wire) + data[..reply.count]
      ensures reply.Ready? && data != [] ==> reply.count > 0
      ensures !reply.Ready? ==> wire == old(wire)
      ensures pendings == old(pendings) + if reply.Pending? then 1 else 0
      ensures healthy ==> !reply.Error?
    {
      var block: bool := *;
      var fail: bool := *;
      if block { pendings := pendings + 1; return Pending; }
      if !healthy && fail { return Error; }
      var n: int := *;
      if n <= 0 || n > |data| { n := |data|; }
      wire := wire + data[..n];
      return Ready(n);
    }
  }

  // ----- the control skeleton of the two poll loops

  datatype Control = Control(phase: Phase, buffered: nat)
  datatype Turn = Again(control: Control) | Return(control: Control, count: nat)

  ghost predicate InRange(c: Control, capacity: nat) {
    && c.buffered <= capacity
    && match c.phase
       case Fill => true
       case Write(offset) => offset < c.buffered || (offset == 0 && c.buffered == 0)
  }

  /** One pass of the loop in `poll_write`, the sink taking `taken` bytes if it is asked. */
  function WriteTurn(c: Control, capacity: nat, offered: nat, taken: nat): Turn {
    match c.phase
    case Fill =>
      if c.buffered < capacity then
        var n := Min(capacity - c.buffered, offered);
        Return(Control(Fill, c.buffered + n), n)
      else Again(Control(Write(0), c.buffered))
    case Write(offset) =>
      if offset + taken == c.buffered then Again(Control(Fill, 0))
      else Again(Control(Write(offset + taken), c.buffered))
  }

  /** One pass of the loop in `poll_flush`. */
  function FlushTurn(c: Control, taken: nat): Turn {
    match c.phase
    case Fill => Again(Control(Write(0), c.buffered))
    case Write(offset) =>
      if offset + taken == c.buffered then Return(Control(Fill, 0), 0)
      else Again(Control(Write(offset + taken), c.buffered))
  }

  /** What a sink with the given appetite takes: at least one byte of a non-empty rest. */
  function Bite(c: Control, appetite: nat): nat {
    if c.phase.Fill? || c.buffered <= c.phase.offset then 0
    else Min(c.buffered - c.phase.offset, Max(1, appetite))
  }

  /** `turns` passes of the poll_write loop against a sink that is never Pending. */
  function WriteTurns(c: Control, capacity: nat, offered: nat, appetite: nat -> nat, turns: nat): Turn
  {
    if turns == 0 then Again(c)
    else
      match WriteTurns(c, capacity, offered, appetite, turns - 1)
      case Return(d, n) => Return(d, n)
      case Again(d) => WriteTurn(d, capacity, offered, Bite(d, appetite(turns - 1)))
  }

  /** The measure of both loops: phase first, then what is left to write. */
  function Left(c: Control): nat {
    match c.phase
    case Fill => if c.buffered == 0 then 1 else c.buffered + 3
    case Write(offset) => 2 + if offset <= c.buffered then c.buffered - offset else 0
  }

  lemma TurnShrinks(c: Control, capacity: nat, offered: nat, appetite: nat)
    requires InRange(c, capacity) && capacity > 0
    ensures var t := WriteTurn(c, capacity, offered, Bite(c, appetite));
            t.Again? ==> InRange(t.control, capacity) && Left(t.control) < Left(c)
  {
  }

  lemma {:induction false} WriteReturns(c: Control, capacity: nat, offered: nat,
                                        appetite: nat -> nat, turns: nat)
    requires InRange(c, capacity) && capacity > 0
    ensures var t := WriteTurns(c, capacity, offered, appetite, turns);
            t.Again? ==> InRange(t.control, capacity) && Left(t.control) + turns <= Left(c)
  {
    if turns > 0 {
      WriteReturns(c, capacity, offered, appetite, turns - 1);
      var t := WriteTurns(c, capacity, offered, appetite, turns - 1);
      if t.Again? { TurnShrinks(t.control, capacity, offered, appetite(turns - 1)); }
    }
  }

  lemma {:induction false} ZeroCapacitySpins(c: Control, offered: nat, appetite: nat -> nat, turns: nat)
    requires InRange(c, 0)
    ensures var t := WriteTurns(c, 0, offered, appetite, turns);
            t.Again? && InRange(t.control, 0)
  {
    if turns > 0 { ZeroCapacitySpins(c, offered, appetite, turns - 1); }
  }

  /**
   * `poll_write` against a sink that always takes something returns exactly when the buffer has
   * room for a byte: made with a buffer size of zero, it spins forever.
   */
  lemma PollWriteReturnsIff(c: Control, capacity: nat, offered: nat, appetite: nat -> nat)
    requires InRange(c, capacity)
    ensures (exists turns: nat :: WriteTurns(c, capacity, offered, appetite, turns).Return?) <==>
            capacity > 0
  {
    if capacity > 0 {
      var turns := Left(c) + 1;
      WriteReturns(c, capacity, offered, appetite, turns);
      assert WriteTurns(c, capacity, offered, appetite, turns).Return?;
    } else {
      forall turns: nat ensures WriteTurns(c, 0, offered, appetite, turns).Again? {
        ZeroCapacitySpins(c, offered, appetite, turns);
      }
    }
  }

  // ----- the plain buffered writer

  class AsyncBufferedWriter {
    const sink: AsyncSink
    const capacity: nat
    var buffer: bytes
    var phase: Phase
    ghost const base: bytes
    ghost var accepted: bytes

    ghost function Shape(): Control
      reads this
    {
      Control(phase, |buffer|)
    }

    ghost function Unwritten(): bytes
      reads this
    {
      match phase
      case Fill => buffer
      case Write(offset) => if offset <= |buffer| then buffer[offset..] else []
    }

    /** Conservation, whatever the phase. */
    ghost predicate Valid()
      reads this, sink
    {
      InRange(Shape(), capacity) && sink.wire + Unwritten() == base + accepted
    }

    constructor (sink: AsyncSink, capacity: nat)
      ensures Valid() && this.sink == sink && this.capacity == capacity
      ensures phase == Fill && buffer == [] && accepted == [] && base == sink.wire
    {
      this.sink, this.capacity := sink, capacity;
      base := sink.wire;
      buffer, phase, accepted := [], Fill, [];
    }

    /** One inner write from the offset on; the offset moves, or the buffer is empty again. */
    method Push(offset: nat) returns (reply: Poll)
      requires Valid() && phase == Write(offset)
      modifies this, sink
      ensures Valid() && accepted == old(accepted) && old(sink.wire) <= sink.wire
      ensures reply.Ready? ==>
        if offset + reply.count == |old(buffer)| then
          phase == Fill && buffer == [] && sink.wire == base + accepted
        else
          phase == Write(offset + reply.count) && buffer == old(buffer) && reply.count > 0
      ensures !reply.Ready? ==> phase == old(phase)
      ensures sink.pendings == old(sink.pendings) + if reply.Pending? then 1 else 0
      ensures sink.healthy ==> !reply.Error?
    {
      ghost var w := sink.wire;
      reply := sink.PollWrite(buffer[offset..]);
      if reply.Ready? {
        ConserveTake(w, buffer, offset, reply.count);
        phase := Write(offset + reply.count);
        if offset + reply.count == |buffer| {
          WholeSlices(sink.wire, accepted);
          buffer, phase := [], Fill;
        }
      }
    }

    method PollWrite(data: bytes) returns (reply: Poll)
      requires Valid() && capacity > 0
      modifies this, sink
      ensures Valid() && old(sink.wire) <= sink.wire
      ensures reply.Ready? ==> reply.count <= |data| && accepted == old(accepted) + data[..reply.count]
      ensures reply.Ready? ==> reply.count == Min(|data|,
        if old(phase.Fill? && |buffer| < capacity) then capacity - |old(buffer)| else capacity)
      ensures !reply.Ready? ==> accepted == old(accepted)
      ensures old(phase.Fill? && |buffer| < capacity) ==> reply.Ready? && sink.wire == old(sink.wire)
      ensures reply.Pending? <==> sink.pendings > old(sink.pendings)
      ensures sink.healthy ==> !reply.Error?
    {
      while true
        invariant Valid() && accepted == old(accepted) && old(sink.wire) <= sink.wire
        invariant phase.Fill? && |buffer| < capacity ==>
                    buffer == if old(phase.Fill? && |buffer| < capacity) then old(buffer) else []
        invariant old(phase.Fill? && |buffer| < capacity) ==>
                    phase.Fill? && buffer == old(buffer) && sink.wire == old(sink.wire)
        invariant sink.pendings == old(sink.pendings)
        decreases Left(Shape())
      {
        ghost var before := Shape();
        match phase
        case Fill =>
          var room := capacity - |buffer|;
          if room > 0 {
            var amount := Min(room, |data|);
            ConserveAppend(sink.wire, buffer, base, accepted, data[..amount]);
            buffer := buffer + data[..amount];
            accepted := accepted + data[..amount];
            assert WriteTurn(before, capacity, |data|, 0) == Return(Shape(), amount);
            return Ready(amount);
          }
          phase := Write(0);
          assert WriteTurn(before, capacity, |data|, 0) == Again(Shape());
        case Write(offset) =>
          reply := Push(offset);
          if !reply.Ready? { return; }
          assert WriteTurn(before, capacity, |data|, reply.count) == Again(Shape());
      }
      assert false;
      reply := Pending;
    }

    method PollFlush() returns (reply: Poll)
      requires Valid()
      modifies this, sink
      ensures Valid() && accepted == old(accepted) && old(sink.wire) <= sink.wire
      ensures reply.Ready? ==> phase == Fill && buffer == [] && sink.wire == base + accepted
      ensures reply.Pending? <==> sink.pendings > old(sink.pendings)
      ensures sink.healthy ==> !reply.Error?
    {
      while true
        invariant Valid() && accepted == old(accepted) && old(sink.wire) <= sink.wire
        invariant sink.pendings == old(sink.pendings)
        decreases phase.Fill?, Left(Shape())
      {
        ghost var before := Shape();
        match phase
        case Fill =>
          phase := Write(0);
          assert FlushTurn(before, 0) == Again(Shape());
        case Write(offset) =>
          reply := Push(offset);
          if !reply.Ready? { return; }
          assert FlushTurn(before, reply.count) ==
                 if phase.Fill? then Return(Shape(), 0) else Again(Shape());
          if phase.Fill? { return Ready(0); }
      }
      assert false;
      reply := Pending;
    }
  }

  // ----- the encrypting writer

  class AsyncEncryptionWriter {
    const cipher: Cipher
    const sink: AsyncSink
    const capacity: nat
    var register: Block
    var buffer: bytes  // plaintext in Fill, ciphertext in Write
    var phase: Phase
    ghost const base: bytes
    ghost var accepted: bytes

    ghost function Shape(): Control
      reads this
    {
      Control(phase, |buffer|)
    }

    /**
     * Every byte enciphered exactly once and in order: in Fill the buffer is the plaintext tail of
     * what was accepted and the sink holds the encryption of the rest; in Write the sink and the
     * unwritten part of the buffer together are the one-shot encryption of everything accepted.
     */
    ghost predicate Valid()
      reads this, sink
    {
      && InRange(Shape(), capacity)
      && match phase
         case Fill =>
           && |buffer| <= |accepted|
           && var done := accepted[..|accepted| - |buffer|];
           && accepted == done + buffer
           && sink.wire == base + Encrypt(cipher, cipher.iv, done)
           && register == Advance(cipher.iv, Encrypt(cipher, cipher.iv, done))
         case Write(offset) =>
           && sink.wire + buffer[offset..] == base + Encrypt(cipher, cipher.iv, accepted)
           && register == Advance(cipher.iv, Encrypt(cipher, cipher.iv, accepted))
    }

    constructor (cipher: Cipher, sink: AsyncSink, capacity: nat)
      ensures Valid() && this.cipher == cipher && this.sink == sink && this.capacity == capacity
      ensures phase == Fill && buffer == [] && accepted == [] && base == sink.wire
    {
      this.cipher, this.sink, this.capacity := cipher, sink, capacity;
      base := sink.wire;
      register, buffer, phase, accepted := cipher.iv, [], Fill, [];
    }

    /** The Fill -> Write(0) edge: the buffer is enciphered in place. */
    method Seal()
      requires Valid() && phase.Fill?
      modifies this
      ensures Valid() && phase == Write(0) && |buffer| == |old(buffer)| && accepted == old(accepted)
    {
      ghost var done := accepted[..|accepted| - |buffer|];
      StreamOn(cipher, done, buffer, register);
      var secret := Encrypt(cipher, register, buffer);
      assert sink.wire + secret == base + Encrypt(cipher, cipher.iv, accepted);
      assert secret[0..] == secret;
      register := Advance(register, secret);
      buffer, phase := secret, Write(0);
    }

    /** Take plaintext into the free part of the buffer. */
    method Absorb(data: bytes)
      requires Valid() && phase.Fill? && |buffer| + |data| <= capacity
      modifies this
      ensures Valid() && phase == Fill && accepted == old(accepted) + data
      ensures |buffer| == |old(buffer)| + |data|
    {
      ghost var done := accepted[..|accepted| - |buffer|];
      buffer := buffer + data;
      accepted := accepted + data;
      assert accepted[..|accepted| - |buffer|] == done;
    }

    /** One inner write from the offset on; the offset moves, or the buffer is empty again. */
    method Push(offset: nat) returns (reply: Poll)
      requires Valid() && phase == Write(offset)
      modifies this, sink
      ensures Valid() && accepted == old(accepted) && old(sink.wire) <= sink.wire
      ensures reply.Ready? ==>
        if offset + reply.count == |old(buffer)| then
          phase == Fill && buffer == [] && sink.wire == base + Encrypt(cipher, cipher.iv, accepted)
        else
          phase == Write(offset + reply.count) && |buffer| == |old(buffer)| && reply.count > 0
      ensures !reply.Ready? ==> phase == old(phase)
      ensures sink.pendings == old(sink.pendings) + if reply.Pending? then 1 else 0
      ensures sink.healthy ==> !reply.Error?
    {
      ghost var w := sink.wire;
      reply := sink.PollWrite(buffer[offset..]);
      if reply.Ready? {
        ConserveTake(w, buffer, offset, reply.count);
        phase := Write(offset + reply.count);
        if offset + reply.count == |buffer| {
          WholeSlices(sink.wire, accepted);
          buffer, phase := [], Fill;
        }
      }
    }

    method PollWrite(data: bytes) returns (reply: Poll)
      requires Valid() && capacity > 0
      modifies this, sink
      ensures Valid() && old(sink.wire) <= sink.wire
      ensures reply.Ready? ==>
        reply.count <= |data| && accepted == old(accepted) + data[..reply.count]
      ensures reply.Ready? ==> reply.count == Min(|data|,
        if old(phase.Fill? && |buffer| < capacity) then capacity - |old(buffer)| else capacity)
      ensures !reply.Ready? ==> accepted == old(accepted)
      ensures old(phase.Fill? && |buffer| < capacity) ==> reply.Ready? && sink.wire == old(sink.wire)
      ensures reply.Pending? <==> sink.pendings > old(sink.pendings)
      ensures sink.healthy ==> !reply.Error?
    {
      hide Encrypt, Advance;
      while true
        invariant Valid() && accepted == old(accepted) && old(sink.wire) <= sink.wire
        invariant phase.Fill? && |buffer| < capacity ==>
                    |buffer| == if old(phase.Fill? && |buffer| < capacity) then |old(buffer)| else 0
        invariant old(phase.Fill? && |buffer| < capacity) ==>
                    phase.Fill? && buffer == old(buffer) && sink.wire == old(sink.wire)
        invariant sink.pendings == old(sink.pendings)
        decreases Left(Shape())
      {
        match phase
        case Fill =>
          var room := capacity - |buffer|;
          if room > 0 {
            var amount := Min(room, |data|);
            Absorb(data[..amount]);
            return Ready(amount);
          }
          Seal();
        case Write(offset) =>
          reply := Push(offset);
          if !reply.Ready? { return; }
      }
      assert false;
      reply := Pending;
    }

    method PollFlush() returns (reply: Poll)
      requires Valid()
      modifies this, sink
      ensures Valid() && accepted == old(accepted) && old(sink.wire) <= sink.wire
      ensures reply.Ready? ==> phase == Fill && buffer == []
      ensures reply.Ready? ==> sink.wire == base + Encrypt(cipher, cipher.iv, accepted)
      ensures reply.Pending? <==> sink.pendings > old(sink.pendings)
      ensures sink.healthy ==> !reply.Error?
    {
      while true
        invariant Valid() && accepted == old(accepted) && old(sink.wire) <= sink.wire
        invariant sink.pendings == old(sink.pendings)
        decreases phase.Fill?, Left(Shape())
      {
        match phase
        case Fill =>
          Seal();
        case Write(offset) =>
          reply := Push(offset);
          if !reply.Ready? { return; }
          if phase.Fill? { return Ready(0); }
      }
      assert false;
      reply := Pending;
    }
  }

  lemma ConserveAppend(wire: bytes, buffer: bytes, base: bytes, accepted: bytes, more: bytes)
    requires wire + buffer == base + accepted
    ensures wire + (buffer + more) == base + (accepted + more)
  {
    assert wire + (buffer + more) == (wire + buffer) + more;
    assert base + (accepted + more) == (base + accepted) + more;
  }

  lemma WholeSlices(a: bytes, b: bytes)
    ensures a + [] == a && b[..|b|] == b && b + [] == b
  {
  }

  lemma ConserveTake(wire: bytes, buffer: bytes, offset: nat, n: nat)
    requires offset + n <= |buffer|
    ensures (wire + buffer[offset..][..n]) + buffer[offset + n..] == wire + buffer[offset..]
  {
    assert buffer[offset..] == buffer[offset..][..n] + buffer[offset + n..];
  }
}
