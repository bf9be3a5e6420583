/** The VarInt primitive (src/primatives/varint.rs): seven bits a byte, low group first. */
module VarInt {
  import opened Bytes
  import opened Bits

  type u32 = x: int | 0 <= x < 0x1_0000_0000
  type i32 = x: int | -0x8000_0000 <= x < 0x8000_0000

  /** What a u32 keeps of a larger number: the remainder modulo 2^32. */
  function Wrap(x: nat): u32 { if x < 0x1_0000_0000 then x else Wrap(x - 0x1_0000_0000) }

  lemma {:induction false} WrapIsRemainder(q: nat, r: u32)
    ensures Wrap(q * 0x1_0000_0000 + r) == r
  {
    if q > 0 { WrapIsRemainder(q - 1, r); }
  }

  lemma {:induction false} WrapAdd(a: nat, b: nat)
    ensures Wrap(Wrap(a) + b) == Wrap(a + b)
  {
    if a >= 0x1_0000_0000 { WrapAdd(a - 0x1_0000_0000, b); }
  }

  /** The two's complement casts `as u32` and `as i32`. */
  function AsU32(x: i32): u32 { if x < 0 then x + 0x1_0000_0000 else x }

  function AsI32(u: u32): i32 { if u < 0x8000_0000 then u else u - 0x1_0000_0000 }

  /** The casts keep a number modulo 2^32, and invert one another. */
  lemma CastsKeepModulo(x: i32, u: u32)
    ensures AsU32(x) == x % 0x1_0000_0000
    ensures AsI32(AsU32(x)) == x && AsU32(AsI32(u)) == u
  {
  }

  /** Reference form: the base-128 digits of `v`, every byte but the last marked with bit 7. */
  function Encode(v: nat): (s: bytes)
    ensures |s| >= 1
  {
    if v < 128 then [v] else [v % 128 + 128] + Encode(v / 128)
  }

  function Of(x: i32): bytes { Encode(AsU32(x)) }

  function Ilog2(v: nat): nat
    requires v > 0
  {
    if v == 1 then 0 else 1 + Ilog2(v / 2)
  }

  /** `Serializable::size`: computed from the binary logarithm, not from the encoding. */
  function Size(x: i32): nat {
    (if AsU32(x) == 0 then 0 else Ilog2(AsU32(x))) / 7 + 1
  }

  function LeadingContinuations(s: bytes): (k: nat)
    ensures k <= |s|
    ensures forall i :: 0 <= i < k ==> s[i] >= 128
    ensures k < |s| ==> s[k] < 128
  {
    if s == [] || s[0] < 128 then 0 else 1 + LeadingContinuations(s[1..])
  }

  /** `b & 0x7f`. */
  function Low7(b: byte): nat { if b < 128 then b else b - 128 }

  function Weight(s: bytes): nat {
    if s == [] then 0 else Low7(s[0]) + 128 * Weight(s[1..])
  }

  /** Reference form of the reader: at most five bytes, the weighted sum taken modulo 2^32. */
  function Decode(s: bytes): Parse<i32> {
    var k := LeadingContinuations(s);
    if k >= 5 then Failed(OverSized, s[5..])
    else if k == |s| then Failed(StreamError, [])
    else Parsed(AsI32(Wrap(Weight(s[..k + 1]))), s[k + 1..])
  }

  lemma DecodeRest(s: bytes)
    ensures |Decode(s).rest| <= |s| && Decode(s).rest == s[|s| - |Decode(s).rest|..]
  {
  }

  // ----- size

  lemma {:induction false} IlogStep(v: nat)
    requires v >= 128
    ensures Ilog2(v) == 7 + Ilog2(v / 128)
  {
    var v1 := v / 2;
    var v2 := v1 / 2;
    var v3 := v2 / 2;
    var v4 := v3 / 2;
    var v5 := v4 / 2;
    var v6 := v5 / 2;
    assert v6 / 2 == v / 128;
    assert Ilog2(v6) == 1 + Ilog2(v / 128);
    assert Ilog2(v5) == 1 + Ilog2(v6);
    assert Ilog2(v4) == 1 + Ilog2(v5);
    assert Ilog2(v3) == 1 + Ilog2(v4);
    assert Ilog2(v2) == 1 + Ilog2(v3);
    assert Ilog2(v1) == 1 + Ilog2(v2);
  }

  lemma IlogSmall(v: nat)
    requires 0 < v < 128
    ensures Ilog2(v) < 7
  {
    assert Pow2(7) == 128 by { assert Pow2(4) == 16; }
    IlogBound(v, 6);
  }

  lemma {:induction false} IlogBound(v: nat, k: nat)
    requires 0 < v < Pow2(k + 1)
    ensures Ilog2(v) <= k
  {
    if v > 1 { IlogBound(v / 2, k - 1); }
  }

  lemma {:induction false} EncodeLength(v: nat)
    ensures |Encode(v)| == (if v == 0 then 0 else Ilog2(v)) / 7 + 1
  {
    if v >= 128 {
      IlogStep(v);
      EncodeLength(v / 128);
    } else if v > 0 {
      IlogSmall(v);
    }
  }

  /** The announced size is the number of bytes emitted, between one and five. */
  lemma SizeIsLength(x: i32)
    ensures Size(x) == |Of(x)|
    ensures 1 <= |Of(x)| <= 5
  {
    EncodeLength(AsU32(x));
    EncodeFits(AsU32(x), 5);
  }

  function Pow128(k: nat): (p: nat)
    ensures p >= 1
  {
    if k == 0 then 1 else 128 * Pow128(k - 1)
  }

  lemma Pow128Values()
    ensures Pow128(1) == 128 && Pow128(2) == 0x4000 && Pow128(3) == 0x20_0000
    ensures Pow128(4) == 0x1000_0000 && Pow128(5) == 0x8_0000_0000
  {
    assert Pow128(1) == 128 * Pow128(0);
    assert Pow128(2) == 128 * Pow128(1);
    assert Pow128(3) == 128 * Pow128(2);
    assert Pow128(4) == 128 * Pow128(3);
    assert Pow128(5) == 128 * Pow128(4);
  }

  /** A number has at most k digits exactly when it is below 128^k. */
  lemma {:induction false} DigitsBound(v: nat, k: nat)
    requires k >= 1
    ensures |Encode(v)| <= k <==> v < Pow128(k)
  {
    if v >= 128 && k >= 2 {
      DigitsBound(v / 128, k - 1);
      assert v < 128 * Pow128(k - 1) <==> v / 128 < Pow128(k - 1);
    }
  }

  lemma EncodeFits(v: nat, k: nat)
    requires (k == 5 && v < 0x1_0000_0000) || (k == 3 && v < 0x20_0000)
    ensures |Encode(v)| <= k
  {
    Pow128Values();
    DigitsBound(v, k);
  }

  // ----- round trip

  lemma {:induction false} EncodeShape(v: nat, rest: bytes)
    ensures LeadingContinuations(Encode(v) + rest) == |Encode(v)| - 1
    ensures Weight(Encode(v)) == v
  {
    if v >= 128 {
      EncodeShape(v / 128, rest);
      var e := Encode(v);
      assert (e + rest)[1..] == Encode(v / 128) + rest;
      assert e[1..] == Encode(v / 128);
    } else {
      assert Weight([v]) == Low7(v) + 128 * Weight([]);
    }
  }

  /** decode(encode(x) ++ rest) = (x, rest) for every i32. */
  lemma RoundTrip(x: i32, rest: bytes)
    ensures Decode(Of(x) + rest) == Parsed(x, rest)
  {
    EncodeShape(AsU32(x), rest);
    SizeIsLength(x);
    assert (Of(x) + rest)[..|Of(x)|] == Of(x);
  }

  /** No encoding is a prefix of another one. */
  lemma PrefixFree(x: i32, y: i32, r: bytes, s: bytes)
    requires Of(x) + r == Of(y) + s
    ensures x == y && r == s
  {
    RoundTrip(x, r);
    RoundTrip(y, s);
  }

  // ----- the digits

  /** Byte i carries digit i of the number, and bit 7 unless it is the last. */
  lemma {:induction false} EncodeDigits(v: nat, i: nat)
    requires i < |Encode(v)|
    ensures Encode(v)[i] == v / Pow128(i) % 128 + if i + 1 < |Encode(v)| then 128 else 0
  {
    if i > 0 {
      EncodeDigits(v / 128, i - 1);
      DivideTwice(v, 128, Pow128(i - 1));
    }
  }

  lemma LowSevenBits(b: byte)
    ensures Low7(b) == b % 128
  {
  }

  /** What is read from five bytes: their digits' sum, but for the top bits of the last. */
  lemma FiveByteValue(s: bytes, rest: bytes)
    requires |s| == 5 && Continuing(s[..4]) && s[4] < 128
    ensures Decode(s + rest).Parsed? && Decode(s + rest).rest == rest
    ensures AsU32(Decode(s + rest).value) ==
            Low7(s[0]) + 128 * Low7(s[1]) + 0x4000 * Low7(s[2]) + 0x20_0000 * Low7(s[3]) +
            0x1000_0000 * (Low7(s[4]) % 16)
  {
    assert s == s[..4] + [s[4]];
    DecodeWhole(s[..4], s[4], rest);
    FiveDigits(s);
    TopBitsFall(Low7(s[0]) + 128 * Low7(s[1]) + 0x4000 * Low7(s[2]) + 0x20_0000 * Low7(s[3]), Low7(s[4]));
  }

  lemma TopBitsFall(low: nat, d: nat)
    requires low < 0x1000_0000 && d < 128
    ensures Wrap(low + 0x1000_0000 * d) == low + 0x1000_0000 * (d % 16)
  {
    WrapIsRemainder(d / 16, low + 0x1000_0000 * (d % 16));
  }

  lemma FiveDigits(s: bytes)
    requires |s| == 5
    ensures Weight(s) == Low7(s[0]) + 128 * Low7(s[1]) + 0x4000 * Low7(s[2]) + 0x20_0000 * Low7(s[3]) +
                         0x1000_0000 * Low7(s[4])
  {
    var s1, s2, s3, s4 := s[1..], s[2..], s[3..], s[4..];
    assert s1[1..] == s2 && s2[1..] == s3 && s3[1..] == s4 && s4[1..] == [];
    assert Weight(s4) == Low7(s[4]) + 128 * Weight([]);
    assert Weight(s3) == Low7(s[3]) + 128 * Weight(s4);
    assert Weight(s2) == Low7(s[2]) + 128 * Weight(s3);
    assert Weight(s1) == Low7(s[1]) + 128 * Weight(s2);
  }

  // ----- minimality

  lemma {:induction false} WeightBound(s: bytes)
    ensures Weight(s) < Pow128(|s|)
  {
    if s != [] { WeightBound(s[1..]); }
  }

  /** Digits without a leading (last) zero are the canonical encoding of their weight. */
  lemma {:induction false} WeightCanonical(s: bytes)
    requires LeadingContinuations(s) == |s| - 1
    requires |s| == 1 || s[|s| - 1] != 0
    ensures Encode(Weight(s)) == s
  {
    WeightCons(s);
    if |s| > 1 {
      var t := s[1..];
      WeightCanonical(t);
      WeightPositive(t);
      assert Encode(Weight(s)) == [s[0]] + Encode(Weight(t));
    }
  }

  lemma WeightCons(s: bytes)
    requires s != []
    ensures Weight(s) % 128 == Low7(s[0]) && Weight(s) / 128 == Weight(s[1..])
    ensures |s| == 1 ==> Weight(s) == Low7(s[0])
  {
    DigitSplit(Low7(s[0]), Weight(s[1..]), Weight(s));
  }

  lemma DigitSplit(d: nat, w: nat, sum: nat)
    requires d < 128 && sum == d + 128 * w
    ensures sum % 128 == d && sum / 128 == w
  {
  }

  lemma {:induction false} WeightPositive(s: bytes)
    requires s != [] && Low7(s[|s| - 1]) != 0
    ensures Weight(s) > 0
  {
    if |s| > 1 { WeightPositive(s[1..]); } else { WeightCons(s); }
  }

  /**
   * Whatever byte string the reader accepts as x (padded ones and five-byte ones whose top bits are
   * shifted out included) is at least as long as the writer's encoding of x; and when it is exactly
   * as long, and no bits were shifted out, it is that encoding.
   */
  lemma Minimal(s: bytes)
    requires Decode(s).Parsed?
    ensures var x := Decode(s).value;
            var n := |s| - |Decode(s).rest|;
            1 <= n <= 5 && s[n..] == Decode(s).rest &&
            n >= Size(x) &&
            (n == Size(x) && (n == 5 ==> s[4] < 16) ==> s[..n] == Of(x))
  {
    var x := Decode(s).value;
    var n := LeadingContinuations(s) + 1;
    var t := s[..n];
    WeightBound(t);
    Pow128Values();
    SizeIsLength(x);
    if n <= 4 {
      assert Weight(t) < 0x1_0000_0000;
      DigitsBound(Weight(t), n);
      assert AsU32(x) == Weight(t);
    }
    if n == Size(x) && (n == 5 ==> s[4] < 16) {
      LeadingPrefix(s);
      if n == 5 { FiveBytes(t); }
      assert AsU32(x) == Weight(t);
      if n > 1 && t[n - 1] == 0 {
        PaddedWeight(t);
        DigitsBound(Weight(t), n - 1);
        assert false;
      }
      WeightCanonical(t);
    }
  }

  lemma {:induction false} LeadingPrefix(s: bytes)
    requires LeadingContinuations(s) < |s|
    ensures LeadingContinuations(s[..LeadingContinuations(s) + 1]) == LeadingContinuations(s)
  {
    var k := LeadingContinuations(s);
    if k > 0 {
      LeadingPrefix(s[1..]);
      assert s[..k + 1][1..] == s[1..][..k];
    }
  }

  lemma {:induction false} PaddedWeight(t: bytes)
    requires |t| > 1 && t[|t| - 1] == 0
    ensures Weight(t) < Pow128(|t| - 1)
  {
    if |t| == 2 {
      assert t[1..] == [0];
      assert Weight([0]) == 0 + 128 * Weight([]);
    } else {
      PaddedWeight(t[1..]);
    }
  }

  lemma FiveBytes(t: bytes)
    requires |t| == 5 && t[4] < 16
    ensures Weight(t) < 0x1_0000_0000
  {
    WeightAppend(t[..4], t[4]);
    assert t[..4] + [t[4]] == t;
    WeightBound(t[..4]);
    Pow128Values();
    var d := t[4];
    assert Shl7(d, 1) == 128 * Shl7(d, 0);
    assert Shl7(d, 2) == 128 * Shl7(d, 1);
    assert Shl7(d, 3) == 128 * Shl7(d, 2);
    assert Shl7(d, 4) == 128 * Shl7(d, 3);
  }

  /** `v << (7 * k)` and `v >> (7 * k)`. */
  function Shl7(v: nat, k: nat): nat { if k == 0 then v else 128 * Shl7(v, k - 1) }

  function Shr7(v: nat, k: nat): nat { if k == 0 then v else Shr7(v / 128, k - 1) }

  lemma {:induction false} WeightAppend(head: bytes, x: byte)
    ensures Weight(head + [x]) == Weight(head) + Shl7(Low7(x), |head|)
  {
    if head == [] {
      assert head + [x] == [x] && Weight([x]) == Low7(x) + 128 * Weight([]);
    } else {
      WeightAppend(head[1..], x);
      assert (head + [x])[1..] == head[1..] + [x];
    }
  }

  // ----- the reader's loop, one byte at a time

  /** The u32 that the reader has accumulated after the given bytes. */
  function Value(s: bytes): u32 { Wrap(Weight(s)) }

  predicate Continuing(s: bytes) { forall i :: 0 <= i < |s| ==> s[i] >= 128 }

  /** Continuation bytes and then a last byte are a whole VarInt, whatever follows. */
  lemma DecodeWhole(head: bytes, last: byte, rest: bytes)
    requires |head| < 5 && Continuing(head) && last < 128
    ensures Decode(head + [last] + rest) == Parsed(AsI32(Value(head + [last])), rest)
  {
    var s := head + [last] + rest;
    assert s == head + ([last] + rest);
    LeadingAfter(head, [last] + rest);
    assert s[..|head| + 1] == head + [last] && s[|head| + 1..] == rest;
  }

  /** With the stream at its end, or five bytes read, there is no VarInt. */
  lemma DecodeFails(head: bytes, rest: bytes)
    requires |head| <= 5 && Continuing(head)
    ensures |head| < 5 && rest == [] ==> Decode(head + rest) == Failed(StreamError, [])
    ensures |head| == 5 ==> Decode(head + rest) == Failed(OverSized, rest)
  {
    LeadingAfter(head, rest);
    if |head| == 5 { assert (head + rest)[5..] == rest; }
  }

  lemma NextIsWeight(head: bytes, x: byte)
    ensures Wrap(Value(head) + Shl7(Low7(x), |head|)) == Value(head + [x])
  {
    hide Weight, Shl7, Low7, Wrap;
    WeightAppend(head, x);
    WrapAdd(Weight(head), Shl7(Low7(x), |head|));
  }

  lemma {:induction false} LeadingAfter(head: bytes, s: bytes)
    requires Continuing(head)
    ensures LeadingContinuations(head + s) == |head| + LeadingContinuations(s)
  {
    if head == [] {
      assert head + s == s;
    } else {
      LeadingAfter(head[1..], s);
      assert (head + s)[1..] == head[1..] + s;
    }
  }

  /** `value |= (curr & 0x7f) << offset`: the shift on u32, so bits past 31 fall off. */
  method Accumulate(value: u32, curr: byte, group: nat, ghost head: bytes) returns (next: u32)
    requires |head| == group < 5 && value == Value(head)
    ensures next == Value(head + [curr])
  {
    WeightBound(head);
    BelowTop(Weight(head), group);
    NextIsWeight(head, curr);
    if group == 4 { LastGroup(value, Low7(curr)); } else { EarlyGroup(value, Low7(curr), group); }
    next := BitOr(value, Wrap(Shl7(Low7(curr), group)));
  }

  lemma BelowTop(x: nat, k: nat)
    requires k < 5 && x < Pow128(k)
    ensures Wrap(x) == x
  {
    Pow128Values();
  }

  lemma EarlyGroup(value: nat, d: nat, k: nat)
    requires k < 4 && value < Pow128(k) && d < 128
    ensures BitOr(value, Wrap(Shl7(d, k))) == Wrap(value + Shl7(d, k))
  {
    Pow128Values();
    ShlValues(d);
    ShlGroups(d, k);
    OrDisjoint(value, d, 7 * k);
  }

  lemma LastGroup(value: nat, d: nat)
    requires value < Pow128(4) && d < 128
    ensures BitOr(value, Wrap(Shl7(d, 4))) == Wrap(value + Shl7(d, 4))
  {
    var lost, kept := d / 16, d % 16;
    Pow128Values();
    ShlValues(d);
    ShlValues(kept);
    WrapIsRemainder(lost, 0x1000_0000 * kept);
    WrapIsRemainder(lost, value + 0x1000_0000 * kept);
    ShlGroups(kept, 4);
    OrDisjoint(value, kept, 28);
  }

  lemma ShlValues(d: nat)
    ensures Shl7(d, 0) == d && Shl7(d, 1) == 128 * d && Shl7(d, 2) == 0x4000 * d
    ensures Shl7(d, 3) == 0x20_0000 * d && Shl7(d, 4) == 0x1000_0000 * d
  {
    assert Shl7(d, 1) == 128 * Shl7(d, 0);
    assert Shl7(d, 2) == 128 * Shl7(d, 1);
    assert Shl7(d, 3) == 128 * Shl7(d, 2);
    assert Shl7(d, 4) == 128 * Shl7(d, 3);
  }

  lemma SevenMore(d: nat, m: nat)
    ensures Shl(d, m + 7) == 128 * Shl(d, m) && Pow2(m + 7) == 128 * Pow2(m)
  {
    assert Shl(d, m + 1) == 2 * Shl(d, m) && Pow2(m + 1) == 2 * Pow2(m);
    assert Shl(d, m + 2) == 2 * Shl(d, m + 1) && Pow2(m + 2) == 2 * Pow2(m + 1);
    assert Shl(d, m + 3) == 2 * Shl(d, m + 2) && Pow2(m + 3) == 2 * Pow2(m + 2);
    assert Shl(d, m + 4) == 2 * Shl(d, m + 3) && Pow2(m + 4) == 2 * Pow2(m + 3);
    assert Shl(d, m + 5) == 2 * Shl(d, m + 4) && Pow2(m + 5) == 2 * Pow2(m + 4);
    assert Shl(d, m + 6) == 2 * Shl(d, m + 5) && Pow2(m + 6) == 2 * Pow2(m + 5);
  }

  lemma {:induction false} ShlGroups(d: nat, k: nat)
    ensures Shl7(d, k) == Shl(d, 7 * k)
    ensures Pow128(k) == Pow2(7 * k)
  {
    if k > 0 {
      ShlGroups(d, k - 1);
      SevenMore(d, 7 * (k - 1));
    }
  }

  // ----- the writer

  lemma {:induction false} ShrStep(v: nat, k: nat)
    ensures Shr7(v, k + 1) == Shr7(v, k) / 128
  {
    if k > 0 { ShrStep(v / 128, k - 1); }
  }

  /** One group leaves the number and joins what has been written. */
  lemma EmitGroup(before: bytes, v: nat)
    ensures v < 128 ==> before + Encode(v) == before + [v]
    ensures v >= 128 ==> before + Encode(v) == (before + [v % 128 + 128]) + Encode(v / 128)
  {
  }

  /**
   * `VarInt::to_writer`: fills a five-byte buffer and hands the filled part to the writer in one
   * call. The error exit after the loop is never taken: the result is always the encoding.
   */
  method Serialize(x: i32) returns (out: Option<bytes>)
    ensures out == Some(Of(x))
  {
    assert Shr7(AsU32(x), 0) == AsU32(x);
    hide Encode, Shr7, AsU32;
    var buf := new byte[5](_ => 0);
    var index := 0;
    assert Of(x) == buf[..0] + Encode(AsU32(x));
    while index < 5
      invariant 0 <= index <= 5
      invariant Of(x) == buf[..index] + Encode(Shr7(AsU32(x), index))
    {
      var remaining := Shr7(AsU32(x), index);
      EmitGroup(buf[..index], remaining);
      if remaining < 128 {
        buf[index] := remaining;
        assert buf[..index + 1] == buf[..index] + [remaining];
        return Some(buf[..index + 1]);
      }
      ghost var before := buf[..index];
      buf[index] := remaining % 128 + 128;
      ShrStep(AsU32(x), index);
      assert buf[..index + 1] == before + [remaining % 128 + 128];
      index := index + 1;
    }
    SizeIsLength(x);
    assert false;
    out := None;
  }
}
