/**
 * CFB with 8-bit segments (section 6.3 of NIST SP 800-38A) over an uninterpreted 16-byte block
 * function, and what streaming it over arbitrary pieces gives.
 */
module Cfb8 {
  import opened Bytes
  import opened Bits

  type Block = b: bytes | |b| == 16 witness seq(16, _ => 0)

  /** A keyed block function together with the initialisation vector. */
  datatype Cipher = Cipher(block: Block -> Block, iv: Block)

  /** `Encryptor::new(key, key)`: the code passes the key as initialisation vector too. */
  function WithKey(aes: (Block, Block) -> Block, key: Block): Cipher {
    Cipher(b => aes(key, b), key)
  }

  /** The one key is both key and initialisation vector. */
  lemma KeyIsIv(aes: (Block, Block) -> Block, key: Block, b: Block)
    ensures WithKey(aes, key).iv == key && WithKey(aes, key).block(b) == aes(key, b)
  {
  }

  /** The shift register after feeding back the given ciphertext: the last 16 bytes. */
  function Advance(reg: Block, cipher: bytes): Block { (reg + cipher)[|cipher|..] }

  function Encrypt(c: Cipher, reg: Block, plain: bytes): (out: bytes)
    ensures |out| == |plain|
    decreases |plain|
  {
    if plain == [] then []
    else
      var x := XorByte(plain[0], c.block(reg)[0]);
      [x] + Encrypt(c, Advance(reg, [x]), plain[1..])
  }

  function Decrypt(c: Cipher, reg: Block, cipher: bytes): (out: bytes)
    ensures |out| == |cipher|
    decreases |cipher|
  {
    if cipher == [] then []
    else [XorByte(cipher[0], c.block(reg)[0])] + Decrypt(c, Advance(reg, [cipher[0]]), cipher[1..])
  }

  /**
   * The standard's own, non-recursive definition: segment j is enciphered under the register that
   * holds the last 16 bytes of IV ++ C[..j]. Its first byte of output is added to the plaintext.
   */
  ghost predicate IsCfb8(c: Cipher, reg: Block, plain: bytes, cipher: bytes) {
    |plain| == |cipher| &&
    forall j :: 0 <= j < |plain| ==>
      cipher[j] == XorByte(plain[j], c.block(LastBlock(reg + cipher[..j]))[0])
  }

  function LastBlock(s: bytes): Block
    requires |s| >= 16
  {
    s[|s| - 16..]
  }

  /** The register moves up by as many bytes as are fed back, which come in at its end. */
  lemma AdvanceAt(reg: Block, cipher: bytes, i: nat)
    requires i < 16
    ensures Advance(reg, cipher)[i] ==
            if i + |cipher| < 16 then reg[i + |cipher|] else cipher[i + |cipher| - 16]
  {
  }

  lemma AdvanceIsLast(reg: Block, cipher: bytes)
    ensures Advance(reg, cipher) == LastBlock(reg + cipher)
  {
  }

  /** The identity as block function, the bytes 0 to 15 as register: zeros come out as 0, 1. */
  lemma IdentityStream()
    ensures var reg: Block := seq(16, i requires 0 <= i < 16 => i);
            Encrypt(Cipher(b => b, reg), reg, [0, 0]) == [0, 1]
  {
    var reg: Block := seq(16, i requires 0 <= i < 16 => i);
    var c := Cipher(b => b, reg);
    assert XorByte(0, 0) == 0 && XorByte(0, 1) == 1;
    var next := Advance(reg, [0]);
    AdvanceAt(reg, [0], 0);
    assert next[0] == 1;
    assert [0, 0][1..] == [0] && [0][1..] == [];
    assert Encrypt(c, next, [0]) == [XorByte(0, next[0])] + Encrypt(c, Advance(next, [1]), []);
  }

  lemma AdvanceSplit(reg: Block, a: bytes, b: bytes)
    ensures Advance(reg, a + b) == Advance(Advance(reg, a), b)
    ensures Advance(reg, []) == reg
  {
    assert reg + (a + b) == (reg + a) + b;
    assert Advance(reg, a) + b == ((reg + a) + b)[|a|..];
  }

  /** The same with the register stepped along. */
  ghost predicate FedBack(c: Cipher, reg: Block, plain: bytes, cipher: bytes) {
    |plain| == |cipher| &&
    forall j :: 0 <= j < |plain| ==>
      cipher[j] == XorByte(plain[j], c.block(Advance(reg, cipher[..j]))[0])
  }

  lemma {:induction false} EncryptFeedsBack(c: Cipher, reg: Block, plain: bytes, cipher: bytes)
    ensures FedBack(c, reg, plain, cipher) <==> cipher == Encrypt(c, reg, plain)
    decreases |plain|
  {
    if |plain| == |cipher| && plain != [] {
      var x := cipher[0];
      var next := Advance(reg, [x]);
      var c', p' := cipher[1..], plain[1..];
      EncryptFeedsBack(c, next, p', c');
      AdvanceSplit(reg, [], []);
      assert cipher == [x] + c';
      forall j | 0 <= j < |p'|
        ensures Advance(reg, cipher[..j + 1]) == Advance(next, c'[..j])
      {
        AdvanceSplit(reg, [x], c'[..j]);
        assert cipher[..j + 1] == [x] + c'[..j];
      }
      assert cipher[..0] == [];
      if FedBack(c, reg, plain, cipher) {
        forall j | 0 <= j < |p'|
          ensures c'[j] == XorByte(p'[j], c.block(Advance(next, c'[..j]))[0])
        {
          assert cipher[j + 1] == XorByte(plain[j + 1], c.block(Advance(reg, cipher[..j + 1]))[0]);
        }
      }
      if cipher == Encrypt(c, reg, plain) {
        forall j | 0 <= j < |plain|
          ensures cipher[j] == XorByte(plain[j], c.block(Advance(reg, cipher[..j]))[0])
        {
          if j > 0 {
            assert c'[j - 1] == XorByte(p'[j - 1], c.block(Advance(next, c'[..j - 1]))[0]);
          }
        }
      }
    }
  }

  /** The streaming encryptor computes exactly the standard's ciphertext, and no other. */
  lemma EncryptIsStandard(c: Cipher, reg: Block, plain: bytes, cipher: bytes)
    ensures IsCfb8(c, reg, plain, cipher) <==> cipher == Encrypt(c, reg, plain)
  {
    EncryptFeedsBack(c, reg, plain, cipher);
    forall j | 0 <= j <= |cipher|
      ensures Advance(reg, cipher[..j]) == LastBlock(reg + cipher[..j])
    {
      AdvanceIsLast(reg, cipher[..j]);
    }
  }

  lemma {:induction false} EncryptSplit(c: Cipher, reg: Block, a: bytes, b: bytes)
    ensures Encrypt(c, reg, a + b) ==
            Encrypt(c, reg, a) + Encrypt(c, Advance(reg, Encrypt(c, reg, a)), b)
    decreases |a|
  {
    if a == [] {
      AdvanceSplit(reg, [], []);
      assert a + b == b;
    } else {
      var x := XorByte(a[0], c.block(reg)[0]);
      var next := Advance(reg, [x]);
      EncryptSplit(c, next, a[1..], b);
      assert (a + b)[1..] == a[1..] + b;
      AdvanceSplit(reg, [x], Encrypt(c, next, a[1..]));
    }
  }

  lemma {:induction false} DecryptSplit(c: Cipher, reg: Block, a: bytes, b: bytes)
    ensures Decrypt(c, reg, a + b) == Decrypt(c, reg, a) + Decrypt(c, Advance(reg, a), b)
    decreases |a|
  {
    if a == [] {
      AdvanceSplit(reg, [], []);
      assert a + b == b;
    } else {
      var next := Advance(reg, [a[0]]);
      DecryptSplit(c, next, a[1..], b);
      assert (a + b)[1..] == a[1..] + b;
      AdvanceSplit(reg, [a[0]], a[1..]);
      assert a == [a[0]] + a[1..];
    }
  }

  /** Enciphering the next piece from the register reached so far continues the one-shot stream. */
  lemma StreamOn(c: Cipher, done: bytes, next: bytes, register: Block)
    requires register == Advance(c.iv, Encrypt(c, c.iv, done))
    ensures Encrypt(c, c.iv, done + next) ==
            Encrypt(c, c.iv, done) + Encrypt(c, register, next)
    ensures Advance(c.iv, Encrypt(c, c.iv, done + next)) ==
            Advance(register, Encrypt(c, register, next))
  {
    EncryptSplit(c, c.iv, done, next);
    AdvanceSplit(c.iv, Encrypt(c, c.iv, done), Encrypt(c, register, next));
  }

  /** Decryption inverts encryption when both registers start alike. */
  lemma {:induction false} Inverse(c: Cipher, reg: Block, plain: bytes)
    ensures Decrypt(c, reg, Encrypt(c, reg, plain)) == plain
    decreases |plain|
  {
    if plain != [] {
      var k := c.block(reg)[0];
      var x := XorByte(plain[0], k);
      XorByteInvolutive(plain[0], k);
      Inverse(c, Advance(reg, [x]), plain[1..]);
      assert Encrypt(c, reg, plain)[1..] == Encrypt(c, Advance(reg, [x]), plain[1..]);
    }
  }

  // ----- pieces

  /** What an encryptor emits when it is handed the pieces one call at a time. */
  function EncryptPieces(c: Cipher, reg: Block, pieces: seq<bytes>): bytes
    decreases |pieces|
  {
    if pieces == [] then []
    else
      var x := Encrypt(c, reg, pieces[0]);
      x + EncryptPieces(c, Advance(reg, x), pieces[1..])
  }

  function DecryptPieces(c: Cipher, reg: Block, pieces: seq<bytes>): bytes
    decreases |pieces|
  {
    if pieces == [] then []
    else Decrypt(c, reg, pieces[0]) + DecryptPieces(c, Advance(reg, pieces[0]), pieces[1..])
  }

  lemma {:induction false} EncryptPiecesIsOneShot(c: Cipher, reg: Block, pieces: seq<bytes>)
    ensures EncryptPieces(c, reg, pieces) == Encrypt(c, reg, Flatten(pieces))
    decreases |pieces|
  {
    if pieces != [] {
      var x := Encrypt(c, reg, pieces[0]);
      EncryptPiecesIsOneShot(c, Advance(reg, x), pieces[1..]);
      EncryptSplit(c, reg, pieces[0], Flatten(pieces[1..]));
    }
  }

  lemma {:induction false} DecryptPiecesIsOneShot(c: Cipher, reg: Block, pieces: seq<bytes>)
    ensures DecryptPieces(c, reg, pieces) == Decrypt(c, reg, Flatten(pieces))
    decreases |pieces|
  {
    if pieces != [] {
      DecryptPiecesIsOneShot(c, Advance(reg, pieces[0]), pieces[1..]);
      DecryptSplit(c, reg, pieces[0], Flatten(pieces[1..]));
    }
  }

  /**
   * For every way of cutting the plaintext into encryptor calls and every way of cutting what has
   * arrived of the ciphertext into decryptor calls, the bytes returned so far are a prefix of the
   * plaintext, one byte for each ciphertext byte read.
   */
  lemma AnyPairOfChunkings(c: Cipher, written: seq<bytes>, read: seq<bytes>)
    requires Flatten(read) <= EncryptPieces(c, c.iv, written)
    ensures DecryptPieces(c, c.iv, read) <= Flatten(written)
    ensures |DecryptPieces(c, c.iv, read)| == |Flatten(read)|
  {
    hide Encrypt, Decrypt, EncryptPieces, DecryptPieces, Flatten, Advance;
    var plain, got := Flatten(written), Flatten(read);
    EncryptPiecesIsOneShot(c, c.iv, written);
    DecryptPiecesIsOneShot(c, c.iv, read);
    var all := Encrypt(c, c.iv, plain);
    Inverse(c, c.iv, plain);
    assert all == got + all[|got|..];
    DecryptSplit(c, c.iv, got, all[|got|..]);
    assert Decrypt(c, c.iv, got) == plain[..|got|];
  }
}
