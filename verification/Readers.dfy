/**
 * The reading stack of src/defaults/sync.rs: a transport that returns short reads, optional
 * decryption, and the look-ahead buffer above it.
 */
module Readers {
  import opened Bytes
  import opened Cfb8

  /** The transport. A read returns any non-empty part of what was asked, or nothing at the end. */
  class Source {
    var incoming: bytes

    constructor (incoming: bytes)
      ensures this.incoming == incoming
    {
      this.incoming := incoming;
    }

    method Read(room: nat) returns (got: bytes)
      modifies this
      ensures |got| <= room && got + incoming == old(incoming)
      ensures room > 0 && old(incoming) != [] ==> got != []
    {
      var n: int := *;
      var most := Min(room, |incoming|);
      if n <= 0 || n > most { n := most; }
      got, incoming := incoming[..n], incoming[n..];
    }
  }

  datatype ReaderState = Standard | Decrypting(cipher: Cipher, register: Block)

  /** `DefaultReader`, with `DecryptionReader` as its second state. */
  class DefaultReader {
    const source: Source
    var state: ReaderState
    ghost var taken: bytes     // ciphertext read since decryption began
    ghost var returned: bytes  // plaintext handed out since then

    /** The register holds the last 16 bytes of IV ++ ciphertext read. */
    ghost predicate Valid()
      reads this
    {
      state.Decrypting? ==>
        && state.register == Advance(state.cipher.iv, taken)
        && returned == Decrypt(state.cipher, state.cipher.iv, taken)
    }

    /** What the bytes still in transit will read as. */
    ghost function View(): bytes
      reads this, source
    {
      match state
      case Standard => source.incoming
      case Decrypting(c, register) => Decrypt(c, register, source.incoming)
    }

    constructor (source: Source)
      ensures Valid() && this.source == source && state == Standard
    {
      this.source := source;
      state, taken, returned := Standard, [], [];
    }

    method WithEncryption(cipher: Cipher)
      requires state.Standard?
      modifies this
      ensures Valid() && state == Decrypting(cipher, cipher.iv)
      ensures taken == [] && returned == []
    {
      state, taken, returned := Decrypting(cipher, cipher.iv), [], [];
      AdvanceSplit(cipher.iv, [], []);
    }

    method Read(room: nat) returns (got: bytes)
      requires Valid()
      modifies this, source
      ensures Valid() && |got| <= room && got + View() == old(View())
      ensures room > 0 && old(View()) != [] ==> got != []
      ensures state.Decrypting? <==> old(state.Decrypting?)
      ensures state.Decrypting? ==> state.cipher == old(state.cipher)
      ensures state.Decrypting? ==> taken + source.incoming == old(taken + source.incoming)
      ensures state.Decrypting? ==> returned == old(returned) + got
    {
      var raw := source.Read(room);
      match state
      case Standard => got := raw;
      case Decrypting(c, register) =>
        DecryptSplit(c, register, raw, source.incoming);
        DecryptSplit(c, c.iv, taken, raw);
        AdvanceSplit(c.iv, taken, raw);
        assert taken + raw + source.incoming == taken + (raw + source.incoming);
        got := Decrypt(c, register, raw);
        state := Decrypting(c, Advance(register, raw));
        taken, returned := taken + raw, returned + got;
    }

    /** The bytes returned so far are a prefix of the plaintext the ciphertext came from. */
    lemma ReturnsPlaintext(plain: bytes)
      requires Valid() && state.Decrypting?
      requires taken + source.incoming <= Encrypt(state.cipher, state.cipher.iv, plain)
      ensures returned <= plain && returned + View() <= plain
    {
      var c := state.cipher;
      var all := Encrypt(c, c.iv, plain);
      var seen := taken + source.incoming;
      DecryptSplit(c, c.iv, taken, source.incoming);
      DecryptSplit(c, c.iv, seen, all[|seen|..]);
      assert all == seen + all[|seen|..];
      Inverse(c, c.iv, plain);
    }
  }

  /** `std::io::BufReader`: one inner read at a time, larger reads go straight through. */
  class BufReader {
    const inner: DefaultReader
    const capacity: nat
    var ahead: bytes

    ghost const Repr: set<object> := {this, inner, inner.source}

    ghost predicate Valid()
      reads this, inner
    {
      inner.Valid() && |ahead| <= capacity
    }

    ghost function View(): bytes
      reads Repr
    {
      ahead + inner.View()
    }

    /** How much the transport has not delivered yet. */
    ghost function Later(): nat
      reads Repr
    {
      |inner.source.incoming|
    }

    constructor (source: Source, capacity: nat)
      ensures Valid() && View() == source.incoming && ahead == []
      ensures this.capacity == capacity && inner.source == source && inner.state == Standard
      ensures fresh(inner)
    {
      inner := new DefaultReader(source);
      this.capacity, ahead := capacity, [];
    }

    /**
     * `with_encryption`: decryption starts beneath the buffer, so bytes already read ahead stay as
     * they are; with nothing read ahead the whole view is decrypted.
     */
    method WithEncryption(cipher: Cipher)
      requires Valid() && inner.state.Standard?
      modifies inner
      ensures Valid() && inner.state == Decrypting(cipher, cipher.iv)
      ensures View() == ahead + Decrypt(cipher, cipher.iv, old(inner.source.incoming))
      ensures ahead == [] ==> View() == Decrypt(cipher, cipher.iv, old(View()))
    {
      inner.WithEncryption(cipher);
      if ahead == [] { assert old(View()) == old(inner.source.incoming); }
    }

    /** More bytes reach the transport. */
    method Arrive(more: bytes)
      requires Valid()
      modifies inner.source
      ensures Valid() && inner.source.incoming == old(inner.source.incoming) + more
    {
      inner.source.incoming := inner.source.incoming + more;
    }

    method Read(room: nat) returns (got: bytes)
      requires Valid()
      modifies Repr
      ensures Valid() && |got| <= room && got + View() == old(View())
      ensures room > 0 && old(View()) != [] ==> got != []
      ensures inner.state.Decrypting? <==> old(inner.state.Decrypting?)
      ensures old(ahead) != [] || old(View()) == [] ==> Later() == old(Later())
    {
      if ahead == [] && room >= capacity {
        got := inner.Read(room);
        return;
      }
      FillBuf();
      var n := Min(room, |ahead|);
      got := ahead[..n];
      Consume(n);
    }

    method FillBuf()
      requires Valid()
      modifies Repr
      ensures Valid() && View() == old(View())
      ensures capacity > 0 && View() != [] ==> ahead != []
      ensures old(ahead) != [] ==> ahead == old(ahead)
      ensures inner.state.Decrypting? <==> old(inner.state.Decrypting?)
      ensures old(ahead) != [] || old(View()) == [] ==> Later() == old(Later())
    {
      if ahead == [] {
        ahead := inner.Read(capacity);
      }
    }

    method Consume(n: nat)
      requires Valid() && n <= |ahead|
      modifies this
      ensures Valid() && ahead == old(ahead)[n..] && old(ahead)[..n] + View() == old(View())
      ensures old(View())[..n] == old(ahead)[..n] && Later() == old(Later())
    {
      ghost var head := ahead[..n];
      assert ahead == head + ahead[n..];
      ahead := ahead[n..];
    }
  }
}
