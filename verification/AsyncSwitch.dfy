/**
 * The async writer as a whole (`AsyncDefaultWriter`), the async decrypting reader, and arbitrary
 * runs of polls.
 */
module AsyncSwitch {
  import opened Bytes
  import opened Cfb8
  import opened SyncWriters
  import opened AsyncWriters

  datatype AsyncState =
    | Standard(plain: AsyncBufferedWriter)
    | Encrypting(secret: AsyncEncryptionWriter)

  /** `AsyncDefaultWriter`: a polled buffered writer that can be switched, once, to encryption. */
  class AsyncDefaultWriter {
    const sink: AsyncSink
    const capacity: nat
    var state: AsyncState

    ghost function Repr(): set<object>
      reads this
    {
      {this, sink, match state case Standard(w) => w as object case Encrypting(w) => w}
    }

    ghost predicate Valid()
      reads this, Repr()
    {
      match state
      case Standard(w) => w.sink == sink && w.capacity == capacity && w.Valid()
      case Encrypting(w) => w.sink == sink && w.capacity == capacity && w.Valid()
    }

    ghost function Accepted(): bytes
      reads this, Repr()
    {
      match state case Standard(w) => w.accepted case Encrypting(w) => w.accepted
    }

    ghost function Base(): bytes
      reads this, Repr()
    {
      match state case Standard(w) => w.base case Encrypting(w) => w.base
    }

    /** What the accepted bytes will look like on the wire. */
    ghost function Goal(): bytes
      reads this, Repr()
    {
      match state
      case Standard(w) => w.base + w.accepted
      case Encrypting(w) => w.base + Encrypt(w.cipher, w.cipher.iv, w.accepted)
    }

    ghost predicate Drained()
      reads this, Repr()
    {
      match state
      case Standard(w) => w.phase == Fill && w.buffer == []
      case Encrypting(w) => w.phase == Fill && w.buffer == []
    }

    constructor (sink: AsyncSink, capacity: nat)
      ensures Valid() && fresh(Repr() - {sink}) && this.sink == sink && this.capacity == capacity
      ensures state.Standard? && Accepted() == [] && Base() == sink.wire && Drained()
    {
      this.sink, this.capacity := sink, capacity;
      var w := new AsyncBufferedWriter(sink, capacity);
      state := AsyncState.Standard(w);
    }

    /**
     * `with_encryption`: a new writer in Fill with the buffer cleared. Nothing is lost exactly when
     * nothing was waiting to be written, in whichever phase the old writer was.
     */
    method WithEncryption(cipher: Cipher)
      requires Valid() && state.Standard?
      modifies this
      ensures Valid() && fresh(Repr() - old(Repr()))
      ensures state.Encrypting? && state.secret.cipher == cipher
      ensures Accepted() == [] && Drained() && Base() == old(sink.wire) == sink.wire
      ensures old(Goal()) == sink.wire <==> old(state.plain.Unwritten()) == []
    {
      var w := new AsyncEncryptionWriter(cipher, sink, capacity);
      assert |old(Goal())| == |sink.wire| + |old(state.plain.Unwritten())|;
      state := AsyncState.Encrypting(w);
    }

    method PollWrite(data: bytes) returns (reply: Poll)
      requires Valid() && capacity > 0
      modifies Repr()
      ensures Valid() && state == old(state) && Base() == old(Base())
      ensures old(sink.wire) <= sink.wire
      ensures if reply.Ready? then
                reply.count <= |data| && (data != [] ==> reply.count > 0) &&
                Accepted() == old(Accepted()) + data[..reply.count]
              else Accepted() == old(Accepted())
      ensures reply.Pending? <==> sink.pendings > old(sink.pendings)
      ensures sink.healthy ==> !reply.Error?
    {
      match state
      case Standard(w) => reply := w.PollWrite(data);
      case Encrypting(w) => reply := w.PollWrite(data);
    }

    method PollFlush() returns (reply: Poll)
      requires Valid()
      modifies Repr()
      ensures Valid() && state == old(state) && Base() == old(Base())
      ensures old(sink.wire) <= sink.wire && Accepted() == old(Accepted())
      ensures reply.Ready? ==> Drained() && sink.wire == Goal()
      ensures reply.Pending? <==> sink.pendings > old(sink.pendings)
      ensures sink.healthy ==> !reply.Error?
    {
      match state
      case Standard(w) => reply := w.PollFlush();
      case Encrypting(w) => reply := w.PollFlush();
    }

    /** Whatever the sink has is a prefix of what it is to have; all of it once drained. */
    lemma WireIsPrefix()
      requires Valid()
      ensures sink.wire <= Goal()
      ensures Drained() ==> sink.wire == Goal()
    {
      match state
      case Standard(w) =>
        assert sink.wire + w.Unwritten() == Goal();
      case Encrypting(w) =>
        match w.phase {
          case Fill =>
            var done := w.accepted[..|w.accepted| - |w.buffer|];
            EncryptSplit(w.cipher, w.cipher.iv, done, w.buffer);
            assert Goal() == sink.wire +
              Encrypt(w.cipher, Advance(w.cipher.iv, Encrypt(w.cipher, w.cipher.iv, done)), w.buffer);
          case Write(offset) =>
            assert Goal() == sink.wire + w.buffer[offset..];
        }
    }
  }

  // ----- every run

  datatype Op = OfferWrite(data: bytes) | OfferFlush

  /** Each piece is what the writer took of one offered slice. */
  ghost predicate Taken(ops: seq<Op>, pieces: seq<bytes>) {
    |pieces| == |ops| &&
    forall i :: 0 <= i < |ops| ==>
      match ops[i] case OfferWrite(data) => pieces[i] <= data case OfferFlush => pieces[i] == []
  }

  lemma PieceTaken(ops: seq<Op>, i: nat, pieces: seq<bytes>, piece: bytes, before: bytes)
    requires i < |ops| && Taken(ops[..i], pieces)
    requires match ops[i] case OfferWrite(data) => piece <= data case OfferFlush => piece == []
    ensures Taken(ops[..i + 1], pieces + [piece])
    ensures before + Flatten(pieces) + piece == before + Flatten(pieces + [piece])
  {
    FlattenAppend(pieces, piece);
    ConcatAssoc(before, Flatten(pieces), piece);
    forall j | 0 <= j < i
      ensures match ops[j]
              case OfferWrite(data) => pieces[j] <= data
              case OfferFlush => pieces[j] == []
    {
      assert ops[..i][j] == ops[j];
    }
  }

  /**
   * Any sequence of polls, the sink answering Pending, failing or taking parts of slices as it
   * likes: the bytes taken are accepted in order, the wire is always a prefix of their one-shot
   * image (CFB8 once encrypting), and equals it whenever the last poll was a completed flush.
   */
  method Drive(w: AsyncDefaultWriter, ops: seq<Op>) returns (ghost pieces: seq<bytes>, last: Poll)
    requires w.Valid() && w.capacity > 0
    modifies w.Repr()
    ensures w.Valid() && w.state == old(w.state) && w.Base() == old(w.Base())
    ensures Taken(ops, pieces) && w.Accepted() == old(w.Accepted()) + Flatten(pieces)
    ensures w.sink.wire <= w.Goal()
    ensures ops != [] && ops[|ops| - 1].OfferFlush? && last.Ready? ==> w.sink.wire == w.Goal()
  {
    pieces, last := [], Pending;
    var i := 0;
    while i < |ops|
      invariant 0 <= i <= |ops| && Taken(ops[..i], pieces)
      invariant w.Valid() && w.state == old(w.state) && w.Base() == old(w.Base())
      invariant w.Accepted() == old(w.Accepted()) + Flatten(pieces)
      invariant i > 0 && ops[i - 1].OfferFlush? && last.Ready? ==> w.sink.wire == w.Goal()
    {
      ghost var piece := [];
      match ops[i] {
        case OfferWrite(data) =>
          last := w.PollWrite(data);
          if last.Ready? { piece := data[..last.count]; }
        case OfferFlush =>
          last := w.PollFlush();
      }
      PieceTaken(ops, i, pieces, piece, old(w.Accepted()));
      pieces := pieces + [piece];
      i := i + 1;
    }
    assert ops[..i] == ops;
    w.WireIsPrefix();
  }

  /**
   * Any sequence of polls, the switch, any sequence of polls. What the sink had not been given at the
   * switch is lost, and nothing else: the wire is to be what it had, then the one-shot CFB8
   * encryption of what is taken later. After a completed flush there is nothing to lose.
   */
  method DriveSwitch(w: AsyncDefaultWriter, cipher: Cipher, before: seq<Op>, after: seq<Op>)
    returns (ghost plain: seq<bytes>, ghost secret: seq<bytes>, ghost lost: bytes, first: Poll, last: Poll)
    requires w.Valid() && w.capacity > 0 && w.state.Standard?
    modifies w.Repr()
    ensures w.Valid() && w.state.Encrypting? && w.state.secret.cipher == cipher
    ensures Taken(before, plain) && Taken(after, secret)
    ensures w.Base() + lost == old(w.Base() + w.Accepted()) + Flatten(plain)
    ensures w.sink.wire <= w.Base() + Encrypt(cipher, cipher.iv, Flatten(secret))
    ensures before != [] && before[|before| - 1].OfferFlush? && first.Ready? ==> lost == []
    ensures after != [] && after[|after| - 1].OfferFlush? && last.Ready? ==>
      w.sink.wire == w.Base() + Encrypt(cipher, cipher.iv, Flatten(secret))
  {
    hide Encrypt, Advance, Taken, Flatten;
    plain, first := Drive(w, before);
    ConcatAssoc(old(w.Base()), old(w.Accepted()), Flatten(plain));
    w.WireIsPrefix();
    ghost var goal := w.Goal();
    w.WithEncryption(cipher);
    lost := goal[|w.sink.wire|..];
    Remainder(w.sink.wire, goal);
    secret, last := Drive(w, after);
    Remainder([], Flatten(secret));
  }

  lemma Remainder(wire: bytes, goal: bytes)
    requires wire <= goal
    ensures wire + goal[|wire|..] == goal && (wire == goal ==> goal[|wire|..] == [])
    ensures [] + goal == goal
  {
  }

  /**
   * The blocking and the polled encrypting writers compute the same: whatever their sinks held when
   * encryption began, whatever their capacities and however the accepted stream was offered, flushed
   * and taken, once both have been flushed their sinks have got the same ciphertext, the standard's.
   */
  lemma SameCiphertext(a: DefaultWriter, b: AsyncDefaultWriter)
    requires a.Valid() && b.Valid() && a.state.Encrypting? && b.state.Encrypting?
    requires a.state.secret.cipher == b.state.secret.cipher && a.Accepted() == b.Accepted()
    requires a.Buffered() == 0 && b.Drained()
    ensures a.Base() <= a.sink.wire && b.Base() <= b.sink.wire
    ensures a.sink.wire[|a.Base()|..] == b.sink.wire[|b.Base()|..]
    ensures IsCfb8(a.state.secret.cipher, a.state.secret.cipher.iv, a.Accepted(),
                   a.sink.wire[|a.Base()|..])
  {
    var w := a.state.secret;
    b.WireIsPrefix();
    assert w.Done() == w.accepted;
    EncryptIsStandard(w.cipher, w.cipher.iv, w.accepted, a.sink.wire[|a.Base()|..]);
  }

  // ----- the polled decrypting reader

  /** An async byte source: Pending at will, otherwise fills in some of the room. */
  class AsyncSource {
    var incoming: bytes

    constructor (incoming: bytes)
      ensures this.incoming == incoming
    {
      this.incoming := incoming;
    }

    /** `poll_read`: bytes go to `buf[filled..]`. */
    method PollRead(buf: array<byte>, filled: nat) returns (reply: Poll)
      requires filled <= buf.Length
      modifies this, buf
      ensures !reply.Ready? ==> incoming == old(incoming) && buf[..] == old(buf[..])
      ensures reply.Ready? ==>
        && filled + reply.count <= buf.Length && reply.count <= |old(incoming)|
        && incoming == old(incoming)[reply.count..]
        && buf[..filled] == old(buf[..filled])
        && buf[filled..filled + reply.count] == old(incoming)[..reply.count]
        && buf[filled + reply.count..] == old(buf[..])[filled + reply.count..]
    {
      var block: bool := *;
      if block { return Pending; }
      var n: int := *;
      var most := Min(buf.Length - filled, |incoming|);
      if n < 0 || n > most { n := most; }
      var data := incoming[..n];
      Overwrite(buf, filled, data);
      incoming := incoming[n..];
      reply := Ready(n);
    }
  }

  /** Replaces the bytes from `at` on, in place. */
  method Overwrite(buf: array<byte>, at: nat, data: bytes)
    requires at + |data| <= buf.Length
    modifies buf
    ensures buf[..at] == old(buf[..at]) && buf[at..at + |data|] == data
    ensures buf[at + |data|..] == old(buf[..])[at + |data|..]
  {
    forall i | 0 <= i < |data| { buf[at + i] := data[i]; }
  }

  class AsyncDecryptionReader {
    const cipher: Cipher
    const source: AsyncSource
    var register: Block
    ghost var taken: bytes
    ghost var returned: bytes

    ghost predicate Valid()
      reads this
    {
      && register == Advance(cipher.iv, taken)
      && returned == Decrypt(cipher, cipher.iv, taken)
    }

    constructor (cipher: Cipher, source: AsyncSource)
      ensures Valid() && this.cipher == cipher && this.source == source
      ensures taken == [] && returned == []
    {
      this.cipher, this.source := cipher, source;
      register, taken, returned := cipher.iv, [], [];
    }

    /**
     * `poll_read`: only the part of the buffer filled by this call is decrypted, in place; what an
     * earlier call left there stays as it is.
     */
    method PollRead(buf: array<byte>, filled: nat) returns (reply: Poll)
      requires Valid() && filled <= buf.Length
      modifies this, source, buf
      ensures Valid()
      ensures !reply.Ready? ==>
        buf[..] == old(buf[..]) && returned == old(returned) && source.incoming == old(source.incoming)
      ensures reply.Ready? ==>
        && filled + reply.count <= buf.Length
        && buf[..filled] == old(buf[..filled])
        && buf[filled + reply.count..] == old(buf[..])[filled + reply.count..]
        && returned == old(returned) + buf[filled..filled + reply.count]
        && taken + source.incoming == old(taken + source.incoming)
    {
      reply := source.PollRead(buf, filled);
      if reply.Ready? {
        var end := filled + reply.count;
        var raw := buf[filled..end];
        var plain := Decrypt(cipher, register, raw);
        Overwrite(buf, filled, plain);
        DecryptSplit(cipher, cipher.iv, taken, raw);
        AdvanceSplit(cipher.iv, taken, raw);
        assert taken + old(source.incoming) == taken + raw + source.incoming;
        register := Advance(register, raw);
        taken, returned := taken + raw, returned + plain;
      }
    }
  }
}
