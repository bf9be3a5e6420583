/** Bytes, byte strings and the small vocabulary every layer shares. */
module Bytes {
  type byte = x: int | 0 <= x < 0x100
  type bytes = seq<byte>

  datatype Option<+T> = None | Some(value: T)

  /** The errors of src/error.rs that the modelled code can produce. */
  datatype ReadError =
    | StreamError
    | OverSized
    | NegativeLength
    | UnknownPacket(id: int)
    | MalformedLegacyPing

  /** A parse either yields a value and the unread bytes, or fails having consumed up to `rest`. */
  datatype Parse<+T> =
    | Parsed(value: T, rest: bytes)
    | Failed(error: ReadError, rest: bytes)

  function Min(a: int, b: int): int { if a <= b then a else b }

  function Max(a: int, b: int): int { if a <= b then b else a }

  lemma ConcatAssoc(a: bytes, b: bytes, c: bytes)
    ensures (a + b) + c == a + (b + c)
  {
  }

  function Flatten(chunks: seq<bytes>): bytes {
    if chunks == [] then [] else chunks[0] + Flatten(chunks[1..])
  }

  lemma {:induction false} FlattenConcat(a: seq<bytes>, b: seq<bytes>)
    ensures Flatten(a + b) == Flatten(a) + Flatten(b)
  {
    if a == [] {
      assert a + b == b;
    } else {
      FlattenConcat(a[1..], b);
      assert (a + b)[1..] == a[1..] + b;
      ConcatAssoc(a[0], Flatten(a[1..]), Flatten(b));
    }
  }

  lemma FlattenAppend(a: seq<bytes>, x: bytes)
    ensures Flatten(a + [x]) == Flatten(a) + x
  {
    FlattenConcat(a, [x]);
    assert Flatten([x]) == x + Flatten([]);
  }
}

/** Bitwise operators on natural numbers, one bit at a time. */
module Bits {
  import opened Bytes

  function Pow2(k: nat): (p: nat)
    ensures p >= 1
  {
    if k == 0 then 1 else 2 * Pow2(k - 1)
  }

  function BitOr(a: nat, b: nat): nat {
    if a == 0 && b == 0 then 0
    else (if a % 2 == 1 || b % 2 == 1 then 1 else 0) + 2 * BitOr(a / 2, b / 2)
  }

  function BitXor(a: nat, b: nat): nat {
    if a == 0 && b == 0 then 0
    else (if a % 2 != b % 2 then 1 else 0) + 2 * BitXor(a / 2, b / 2)
  }

  /** Bit k of a number. */
  predicate Bit(n: nat, k: nat) { if k == 0 then n % 2 == 1 else Bit(n / 2, k - 1) }

  lemma {:induction false} BitIsDigit(n: nat, k: nat)
    ensures Bit(n, k) <==> n / Pow2(k) % 2 == 1
  {
    if k > 0 {
      BitIsDigit(n / 2, k - 1);
      DivideTwice(n, 2, Pow2(k - 1));
    }
  }

  lemma DivideTwice(n: nat, a: nat, b: nat)
    requires a > 0 && b > 0
    ensures a * b > 0 && n / (a * b) == n / a / b
  {
    var q := n / a;
    DivideBy(n, a, b, q, n % a, q / b, q % b);
  }

  lemma DivideBy(n: nat, a: nat, b: nat, q: nat, r: nat, s: nat, t: nat)
    requires n == a * q + r && r < a && q == b * s + t && t < b
    ensures a * b > 0 && n / (a * b) == s
  {
    Regroup(a, b, s, t, r);
    QuotientIs(n, a * b, s, a * t + r);
  }

  lemma Regroup(a: nat, b: nat, s: nat, t: nat, r: nat)
    requires r < a && t < b
    ensures a * (b * s + t) + r == (a * b) * s + (a * t + r)
    ensures a * t + r < a * b && a * b > 0 && a * t >= 0
  {
    assert a * (b * s) == (a * b) * s;
    assert a * (b * s + t) == a * (b * s) + a * t;
    assert a * t <= a * (b - 1) == a * b - a;
  }

  lemma QuotientIs(n: nat, d: nat, q: nat, r: nat)
    requires n == d * q + r && r < d
    ensures n / d == q
  {
    var p, e := n / d, n % d;
    assert d * p - d * q == d * (p - q);
    SmallMultiple(d, p - q);
  }

  lemma SmallMultiple(d: int, x: int)
    requires -d < d * x < d
    ensures x == 0
  {
  }

  lemma {:induction false} OrBits(a: nat, b: nat, k: nat)
    ensures Bit(BitOr(a, b), k) <==> Bit(a, k) || Bit(b, k)
  {
    if k > 0 { OrBits(a / 2, b / 2, k - 1); }
    OrHalves(a, b);
    if a == 0 && b == 0 && k > 0 { assert a / 2 == 0 && b / 2 == 0; }
  }

  lemma OrHalves(a: nat, b: nat)
    ensures BitOr(a, b) / 2 == BitOr(a / 2, b / 2)
    ensures BitOr(a, b) % 2 == 1 <==> a % 2 == 1 || b % 2 == 1
  {
  }

  lemma {:induction false} XorBits(a: nat, b: nat, k: nat)
    ensures Bit(BitXor(a, b), k) <==> (Bit(a, k) != Bit(b, k))
  {
    if k > 0 { XorBits(a / 2, b / 2, k - 1); }
    XorHalves(a, b);
  }

  lemma XorHalves(a: nat, b: nat)
    ensures BitXor(a, b) / 2 == BitXor(a / 2, b / 2)
    ensures BitXor(a, b) % 2 == 1 <==> a % 2 != b % 2
  {
  }

  lemma {:induction false} ShlIsProduct(b: nat, k: nat)
    ensures Shl(b, k) == b * Pow2(k)
  {
    if k > 0 { ShlIsProduct(b, k - 1); }
  }

  /** `b << k`, unbounded. */
  function Shl(b: nat, k: nat): nat { if k == 0 then b else 2 * Shl(b, k - 1) }

  /** `a | (b << k)` is a sum when `a` lies below bit k. */
  lemma {:induction false} OrDisjoint(a: nat, b: nat, k: nat)
    requires a < Pow2(k)
    ensures BitOr(a, Shl(b, k)) == a + Shl(b, k)
  {
    if k == 0 {
      OrZero(b);
    } else {
      var c := Shl(b, k - 1);
      OrDisjoint(a / 2, b, k - 1);
      if a != 0 || c != 0 {
        assert BitOr(a, 2 * c) == a % 2 + 2 * BitOr(a / 2, c);
      }
    }
  }

  lemma {:induction false} OrZero(b: nat)
    ensures BitOr(0, b) == b
  {
    if b != 0 { OrZero(b / 2); }
  }

  lemma {:induction false} XorInvolutive(a: nat, b: nat)
    ensures BitXor(BitXor(a, b), b) == a
  {
    if a != 0 || b != 0 {
      var high := BitXor(a / 2, b / 2);
      var low := if a % 2 != b % 2 then 1 else 0;
      XorInvolutive(a / 2, b / 2);
      XorStep(2 * high + low, b, high, low);
    }
  }

  lemma XorStep(x: nat, b: nat, high: nat, low: nat)
    requires low < 2 && x == 2 * high + low
    ensures BitXor(x, b) == (if low != b % 2 then 1 else 0) + 2 * BitXor(high, b / 2)
  {
    assert x % 2 == low && x / 2 == high;
  }

  lemma {:induction false} XorBound(a: nat, b: nat, k: nat)
    requires a < Pow2(k) && b < Pow2(k)
    ensures BitXor(a, b) < Pow2(k)
  {
    if k != 0 && (a != 0 || b != 0) { XorBound(a / 2, b / 2, k - 1); }
  }

  function XorByte(a: byte, b: byte): byte {
    assert Pow2(8) == 256 by { assert Pow2(4) == 16; }
    XorBound(a, b, 8);
    BitXor(a, b)
  }

  /** Every bit of the result is the exclusive or of the bits; so `XorByte` is what `^` is on u8. */
  lemma XorByteBits(a: byte, b: byte, k: nat)
    ensures Bit(XorByte(a, b), k) <==> (Bit(a, k) != Bit(b, k))
  {
    XorBits(a, b, k);
  }

  lemma XorByteInvolutive(a: byte, b: byte)
    ensures XorByte(XorByte(a, b), b) == a
  {
    XorInvolutive(a, b);
  }
}
