/** The blocking writers of src/defaults/sync.rs over a sink that may take only part of a write. */
module SyncWriters {
  import opened Bytes
  import opened Cfb8

  /**
   * The underlying stream. Each `Write` takes any number of the offered bytes; a sink that is not
   * `healthy` may also fail or take nothing. `wire` is everything it has taken, `pushed` what of it
   * has been flushed.
   */
  class Sink {
    var wire: bytes
    ghost var pushed: bytes
    const healthy: bool

    constructor (healthy: bool)
      ensures wire == [] && this.healthy == healthy
    {
      this.healthy := healthy;
      wire, pushed := [], [];
    }

    method Write(data: bytes) returns (taken: Option<nat>)
      modifies this
      ensures taken.None? ==> wire == old(wire)
      ensures taken.Some? ==> taken.value <= |data| && wire == old(wire) + data[..taken.value]
      ensures healthy ==> taken.Some? && (data != [] ==> taken.value > 0)
    {
      var fail: bool := *;
      if !healthy && fail { return None; }
      var n: int := *;
      if n < 0 || n > |data| || (healthy && n == 0) { n := |data|; }
      wire := wire + data[..n];
      return Some(n);
    }

    method Flush() returns (ok: bool)
      modifies this`pushed
      ensures ok ==> pushed == wire
      ensures healthy ==> ok
    {
      var fail: bool := *;
      ok := healthy || !fail;
      if ok { pushed := wire; }
    }

    /** `std::io::Write::write_all`: taking nothing of a non-empty slice is the WriteZero error. */
    method WriteAll(data: bytes) returns (ok: bool)
      modifies this
      ensures ok ==> wire == old(wire) + data
      ensures !ok ==> old(wire) <= wire < old(wire) + data
      ensures healthy ==> ok
    {
      var i := 0;
      while i < |data|
        invariant 0 <= i <= |data|
        invariant wire == old(wire) + data[..i]
      {
        var taken := Write(data[i..]);
        if taken.None? || taken.value == 0 {
          assert old(wire) + data == wire + data[i..];
          return false;
        }
        assert data[..i + taken.value] == data[..i] + data[i..][..taken.value];
        i := i + taken.value;
      }
      assert data[..i] == data;
      return true;
    }
  }

  /** How many bytes one `write` call takes, given the room before it. */
  function Share(capacity: nat, buffered: nat, offered: nat): nat
    requires buffered <= capacity
  {
    Min(if buffered < capacity then capacity - buffered else capacity, offered)
  }

  class BufferedWriter {
    const sink: Sink
    const capacity: nat
    var buffer: bytes
    ghost const base: bytes    // what the sink held when this writer was made
    ghost var accepted: bytes  // every byte a `Write` call has reported as taken

    /** Conservation: nothing is lost, repeated or reordered. */
    ghost predicate Valid()
      reads this, sink
    {
      |buffer| <= capacity && sink.wire + buffer == base + accepted
    }

    constructor (sink: Sink, capacity: nat)
      ensures Valid() && this.sink == sink && this.capacity == capacity
      ensures buffer == [] && accepted == [] && base == sink.wire
    {
      this.sink, this.capacity := sink, capacity;
      base := sink.wire;
      buffer, accepted := [], [];
    }

    method Write(data: bytes) returns (taken: Option<nat>)
      requires Valid()
      modifies this, sink
      ensures taken.Some? ==>
        Valid() && taken.value == Share(capacity, |old(buffer)|, |data|) &&
        accepted == old(accepted) + data[..taken.value] &&
        (taken.value == |data| || |buffer| == capacity)
      ensures |old(buffer)| < capacity ==> taken.Some? && sink.wire == old(sink.wire)
      ensures old(sink.wire) <= sink.wire <= base + old(accepted)
      ensures sink.healthy ==> taken.Some?
    {
      var room := capacity - |buffer|;
      if room == 0 {
        var ok := sink.WriteAll(buffer);
        if !ok { return None; }
        buffer := [];
        room := capacity;
      }
      var amount := Min(room, |data|);
      assert sink.wire + buffer == base + accepted;
      assert sink.wire + (buffer + data[..amount]) == (sink.wire + buffer) + data[..amount];
      assert base + (accepted + data[..amount]) == (base + accepted) + data[..amount];
      buffer := buffer + data[..amount];
      accepted := accepted + data[..amount];
      return Some(amount);
    }

    method Flush() returns (ok: bool)
      requires Valid()
      modifies this, sink
      ensures ok ==> Valid() && buffer == [] && accepted == old(accepted)
      ensures ok ==> sink.pushed == sink.wire == base + accepted
      ensures old(sink.wire) <= sink.wire <= base + old(accepted)
      ensures sink.healthy ==> ok
    {
      if buffer != [] {
        ok := sink.WriteAll(buffer);
        if !ok { return; }
        buffer := [];
      }
      ok := sink.Flush();
    }
  }

  class EncryptionWriter {
    const cipher: Cipher
    const sink: Sink
    const capacity: nat
    var register: Block
    var buffer: bytes          // plaintext until the moment it is written out
    ghost const base: bytes
    ghost var accepted: bytes

    ghost function Done(): bytes
      reads this
      requires |buffer| <= |accepted|
    {
      accepted[..|accepted| - |buffer|]
    }

    /** The sink holds the one-shot CFB8 encryption of the accepted bytes that left the buffer. */
    ghost predicate Valid()
      reads this, sink
    {
      && |buffer| <= capacity && |buffer| <= |accepted|
      && accepted == Done() + buffer
      && sink.wire == base + Encrypt(cipher, cipher.iv, Done())
      && register == Advance(cipher.iv, Encrypt(cipher, cipher.iv, Done()))
    }

    constructor (cipher: Cipher, sink: Sink, capacity: nat)
      ensures Valid() && this.sink == sink && this.capacity == capacity && this.cipher == cipher
      ensures buffer == [] && accepted == [] && base == sink.wire
    {
      this.cipher, this.sink, this.capacity := cipher, sink, capacity;
      base := sink.wire;
      register, buffer, accepted := cipher.iv, [], [];
    }

    /** What has reached the sink is a prefix of what is to reach it. */
    lemma WireIsPrefix()
      requires Valid()
      ensures sink.wire <= base + Encrypt(cipher, cipher.iv, accepted)
    {
      StreamOn(cipher, Done(), buffer, register);
      ConcatAssoc(base, Encrypt(cipher, cipher.iv, Done()), Encrypt(cipher, register, buffer));
    }

    /** Encipher the buffer in place and write all of it out. */
    method Drain() returns (ok: bool)
      requires Valid()
      modifies this, sink
      ensures ok ==> Valid() && buffer == [] && accepted == old(accepted)
      ensures old(sink.wire) <= sink.wire <= base + Encrypt(cipher, cipher.iv, old(accepted))
      ensures sink.healthy ==> ok
    {
      var secret := Encrypt(cipher, register, buffer);
      StreamOn(cipher, Done(), buffer, register);
      assert old(sink.wire) + secret == base + Encrypt(cipher, cipher.iv, accepted);
      register := Advance(register, secret);
      ok := sink.WriteAll(secret);
      if !ok { return; }
      buffer := [];
      assert Done() == accepted;
    }

    method Write(data: bytes) returns (taken: Option<nat>)
      requires Valid()
      modifies this, sink
      ensures taken.Some? ==>
        Valid() && taken.value == Share(capacity, |old(buffer)|, |data|) &&
        accepted == old(accepted) + data[..taken.value] &&
        (taken.value == |data| || |buffer| == capacity)
      ensures |old(buffer)| < capacity ==> taken.Some? && sink.wire == old(sink.wire)
      ensures old(sink.wire) <= sink.wire <= base + Encrypt(cipher, cipher.iv, old(accepted))
      ensures sink.healthy ==> taken.Some?
    {
      hide Encrypt, Advance;
      WireIsPrefix();
      var room := capacity - |buffer|;
      if room == 0 {
        var ok := Drain();
        if !ok { return None; }
        room := capacity;
      }
      var amount := Min(room, |data|);
      ghost var done := Done();
      buffer := buffer + data[..amount];
      accepted := accepted + data[..amount];
      assert Done() == done;
      return Some(amount);
    }

    method Flush() returns (ok: bool)
      requires Valid()
      modifies this, sink
      ensures ok ==> Valid() && buffer == [] && accepted == old(accepted)
      ensures ok ==> sink.pushed == sink.wire == base + Encrypt(cipher, cipher.iv, accepted)
      ensures old(sink.wire) <= sink.wire <= base + Encrypt(cipher, cipher.iv, old(accepted))
      ensures sink.healthy ==> ok
    {
      if buffer != [] {
        ok := Drain();
        if !ok { return; }
      }
      assert Done() == accepted;
      ok := sink.Flush();
    }
  }

  datatype WriterState =
    | Standard(plain: BufferedWriter)
    | Encrypting(secret: EncryptionWriter)

  /** `DefaultWriter`: a buffered writer that can be switched, once, to an encrypting one. */
  class DefaultWriter {
    const sink: Sink
    const capacity: nat
    var state: WriterState

    ghost function Repr(): set<object>
      reads this
    {
      {this, sink, match state case Standard(w) => w as object case Encrypting(w) => w}
    }

    ghost predicate Valid()
      reads this, Repr()
    {
      match state
      case Standard(w) => w.sink == sink && w.capacity == capacity && w.Valid()
      case Encrypting(w) => w.sink == sink && w.capacity == capacity && w.Valid()
    }

    /** Every byte taken since the current state was entered. */
    ghost function Accepted(): bytes
      reads this, Repr()
    {
      match state case Standard(w) => w.accepted case Encrypting(w) => w.accepted
    }

    ghost function Base(): bytes
      reads this, Repr()
    {
      match state case Standard(w) => w.base case Encrypting(w) => w.base
    }

    function Buffered(): nat
      reads this, Repr()
    {
      match state case Standard(w) => |w.buffer| case Encrypting(w) => |w.buffer|
    }

    /** What the given bytes look like on the wire in the current state. */
    ghost function OnWire(data: bytes): bytes
      reads this, Repr()
    {
      match state
      case Standard(_) => data
      case Encrypting(w) => Encrypt(w.cipher, w.cipher.iv, data)
    }

    constructor (sink: Sink, capacity: nat)
      ensures Valid() && fresh(Repr() - {sink}) && this.sink == sink && this.capacity == capacity
      ensures state.Standard? && Accepted() == [] && Base() == sink.wire && Buffered() == 0
    {
      this.sink, this.capacity := sink, capacity;
      var w := new BufferedWriter(sink, capacity);
      state := Standard(w);
    }

    /**
     * `with_encryption`: keeps the sink, clears the buffer. What the sink then holds is everything
     * that was accepted exactly when the buffer was empty; otherwise its bytes are lost.
     */
    method WithEncryption(cipher: Cipher)
      requires Valid() && state.Standard?
      modifies this
      ensures Valid() && fresh(Repr() - old(Repr()))
      ensures state.Encrypting? && state.secret.cipher == cipher
      ensures Accepted() == [] && Buffered() == 0 && Base() == old(sink.wire) == sink.wire
      ensures old(Base() + Accepted()) == sink.wire <==> old(Buffered()) == 0
    {
      var w := new EncryptionWriter(cipher, sink, capacity);
      assert |old(Base() + Accepted())| == |sink.wire| + old(Buffered());
      state := Encrypting(w);
    }

    method Write(data: bytes) returns (taken: Option<nat>)
      requires Valid()
      modifies Repr()
      ensures state == old(state)
      ensures taken.Some? ==>
        Valid() &&
        taken.value == Share(capacity, old(Buffered()), |data|) &&
        Accepted() == old(Accepted()) + data[..taken.value]
      ensures Base() == old(Base())
      ensures old(sink.wire) <= sink.wire <= Base() + OnWire(old(Accepted()))
      ensures sink.healthy ==> taken.Some?
    {
      match state
      case Standard(w) => taken := w.Write(data);
      case Encrypting(w) => taken := w.Write(data);
    }

    method Flush() returns (ok: bool)
      requires Valid()
      modifies Repr()
      ensures state == old(state)
      ensures Base() == old(Base())
      ensures ok ==> Valid() && Buffered() == 0 && Accepted() == old(Accepted())
      ensures ok ==> sink.pushed == sink.wire == Base() + OnWire(Accepted())
      ensures old(sink.wire) <= sink.wire <= Base() + OnWire(old(Accepted()))
      ensures sink.healthy ==> ok
    {
      match state
      case Standard(w) => ok := w.Flush();
      case Encrypting(w) => ok := w.Flush();
    }

    /** A longer stream has a longer image on the wire. */
    lemma OnWireGrows(a: bytes, b: bytes)
      ensures OnWire(a) <= OnWire(a + b)
    {
      match state
      case Standard(_) =>
      case Encrypting(w) => EncryptSplit(w.cipher, w.cipher.iv, a, b);
    }

    lemma WireIsPrefix()
      requires Valid()
      ensures sink.wire <= Base() + OnWire(Accepted())
    {
      match state
      case Standard(w) => assert sink.wire + w.buffer == w.base + w.accepted;
      case Encrypting(w) => w.WireIsPrefix();
    }

    /**
     * `Writer::write`, which is `write_all` over the buffered `write`. A writer made with capacity
     * zero takes nothing, so every non-empty write ends in the WriteZero error. However it ends, the
     * sink has only been appended to, with what was to come.
     */
    method WriteAll(data: bytes) returns (ok: bool)
      requires Valid()
      modifies Repr()
      ensures state == old(state) && Base() == old(Base())
      ensures ok ==> Valid() && Accepted() == old(Accepted()) + data
      ensures old(sink.wire) <= sink.wire <= Base() + OnWire(old(Accepted()) + data)
      ensures sink.healthy ==> (ok <==> capacity > 0 || data == [])
    {
      hide Encrypt, Advance;
      ghost var before, goal := Accepted(), Base() + OnWire(Accepted() + data);
      var i := 0;
      WireIsPrefix();
      ReachesFurther(before, data, 0);
      while i < |data|
        invariant 0 <= i <= |data| && (capacity == 0 ==> i == 0)
        invariant Valid() && state == old(state) && Base() == old(Base())
        invariant Accepted() == before + data[..i]
        invariant old(sink.wire) <= sink.wire <= goal == Base() + OnWire(before + data)
      {
        ReachesFurther(before, data, i);
        var taken := Write(data[i..]);
        if taken.None? || taken.value == 0 { return false; }
        PrefixStep(before, data, i, taken.value);
        i := i + taken.value;
      }
      WholePrefix(data);
      return true;
    }

    lemma ReachesFurther(before: bytes, data: bytes, i: nat)
      requires i <= |data|
      ensures Base() + OnWire(before + data[..i]) <= Base() + OnWire(before + data)
      ensures before + data[..0] == before
    {
      OnWireGrows(before + data[..i], data[i..]);
      assert before + data[..i] + data[i..] == before + data;
    }
  }

  lemma WholePrefix(data: bytes)
    ensures data[..|data|] == data
  {
  }

  lemma PrefixStep(a: bytes, data: bytes, i: nat, n: nat)
    requires i + n <= |data|
    ensures a + data[..i] + data[i..][..n] == a + data[..i + n]
  {
    assert data[..i + n] == data[..i] + data[i..][..n];
  }
}
