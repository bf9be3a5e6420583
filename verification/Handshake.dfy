/**
 * The first thing a server reads (src/primatives/handshake_version.rs, `read_handshake` in
 * src/protocol/mod.rs): a length prefix, or one of the legacy pings.
 */
module Handshake {
  import opened Bytes
  import opened Bits
  import opened VarInt
  import opened Adapters
  import opened Packets
  import Combinators

  datatype Version = Standard(bound: nat) | Legacy16(bound: nat) | Pre16 | Pre13

  /** "MC|PingHost" in UTF-16BE. */
  const CHANNEL: bytes := [
    0x00, 0x4D, 0x00, 0x43, 0x00, 0x7C, 0x00, 0x50, 0x00, 0x69, 0x00, 0x6E, 0x00, 0x67,
    0x00, 0x48, 0x00, 0x6F, 0x00, 0x73, 0x00, 0x74
  ]

  /** `i16::from_be_bytes`. */
  function Int16(hi: byte, lo: byte): int {
    if hi < 128 then 256 * hi + lo else 256 * hi + lo - 0x1_0000
  }

  /**
   * After the byte 0xFE. `quiet` says whether the stream would block at the first and at the second
   * attempt to read one more byte.
   */
  function Legacy(s: bytes, quiet: (bool, bool)): Parse<Version> {
    if quiet.0 then Parsed(Pre13, s)
    else if s == [] then Failed(StreamError, [])
    else if s[0] != 0x01 then Failed(MalformedLegacyPing, s[1..])
    else if quiet.1 then Parsed(Pre16, s[1..])
    else if |s| < 2 then Failed(StreamError, [])
    else if s[1] != 0xFA then Failed(MalformedLegacyPing, s[2..])
    else if |s| < 4 then Failed(StreamError, [])
    else if Int16(s[2], s[3]) != 0x0B then Failed(MalformedLegacyPing, s[4..])
    else if |s| < 26 then Failed(StreamError, [])
    else if s[4..26] != CHANNEL then Failed(MalformedLegacyPing, s[26..])
    else if |s| < 28 then Failed(StreamError, [])
    else if Int16(s[26], s[27]) < 0 then Failed(NegativeLength, s[28..])
    else Parsed(Legacy16(Int16(s[26], s[27])), s[28..])
  }

  const NAME: string := "MC|PingHost"

  /** The name in units of two bytes, none beyond Latin-1, the zero byte first. */
  lemma ChannelName(i: nat)
    requires i < |NAME|
    ensures |CHANNEL| == 2 * |NAME| == 22
    ensures CHANNEL[2 * i] == 0 && CHANNEL[2 * i + 1] == NAME[i] as int
  {
  }

  /** The two bytes are a big-endian number in two's complement. */
  lemma Int16IsSigned(hi: byte, lo: byte)
    ensures Int16(hi, lo) == Combinators.Signed(Combinators.FromBigEndian([hi, lo]), 2)
  {
    assert [hi, lo][..1] == [hi] && [hi][..0] == [];
    assert Combinators.FromBigEndian([hi]) == 256 * Combinators.FromBigEndian([]) + hi;
    assert Combinators.Pow256(2) == 256 * Combinators.Pow256(1) == 256 * 256 * Combinators.Pow256(0);
  }

  /** `l | 0x80`. */
  function ForceBit7(l: nat): nat { if Bit7(l) then l else l + 128 }

  predicate Bit7(l: nat) { l / 128 % 2 == 1 }

  lemma ForceBit7IsOr(l: nat)
    ensures BitOr(l, 128) == ForceBit7(l)
    ensures Bit7(l) <==> Bit(l, 7)
  {
    BitIsDigit(l, 7);
    assert Pow2(7) == 128 by { assert Pow2(4) == 16; }
    var low, high := l % 128, l / 128;
    ShlIsProduct(high, 7);
    ShlIsProduct(1, 7);
    SplitOr(low, high, 1, 7);
    OrOneRight(high);
    ShlIsProduct(BitOr(high, 1), 7);
  }

  lemma OrOneRight(d: nat)
    ensures BitOr(d, 1) == d - d % 2 + 1
  {
    OrZeroRight(d / 2);
  }

  lemma {:induction false} OrZeroRight(d: nat)
    ensures BitOr(d, 0) == d
  {
    if d != 0 { OrZeroRight(d / 2); }
  }

  /** What the length decoder makes of a whole prefix: the VarInt's value, but with bit 7 kept. */
  function PrefixValue(s: bytes): nat {
    if |s| == 1 then Weight(s) else ForceBit7(Weight(s))
  }

  /** The version detection as a whole. */
  function Detect(s: bytes, quiet: (bool, bool)): Parse<Version> {
    if s == [] then Failed(StreamError, [])
    else if s[0] == 0xFE then Legacy(s[1..], quiet)
    else
      match Prefix(s)
      case Parsed(bound, rest) => Parsed(Standard(bound), rest)
      case Failed(e, rest) => Failed(e, rest)
  }

  /** The length prefix: at most four bytes. */
  function Prefix(s: bytes): Parse<nat> {
    var k := LeadingContinuations(s);
    if k >= 4 then Failed(OverSized, s[4..])
    else if k == |s| then Failed(StreamError, [])
    else Parsed(PrefixValue(s[..k + 1]), s[k + 1..])
  }

  // ----- the decoder's loop

  /** `HandshakeVersion::from_reader`. */
  method ReadVersion(s: bytes, quiet: (bool, bool)) returns (r: Parse<Version>)
    ensures r == Detect(s, quiet)
  {
    if s == [] { return Failed(StreamError, []); }
    var first := s[0];
    if first == 0xFE {
      r := ReadLegacy(s[1..], quiet);
      return;
    }
    var prefix := ReadPrefix(s);
    PrefixFits(s);
    match prefix {
      case Failed(e, rest) => r := Failed(e, rest);
      case Parsed(bound, rest) =>
        // The cast to i32 is never negative.
        if bound >= 0x8000_0000 { return Failed(NegativeLength, rest); }
        r := Parsed(Standard(bound), rest);
    }
  }

  /** The legacy branch, read after read; each takes up where the one before stopped. */
  method ReadLegacy(s: bytes, quiet: (bool, bool)) returns (r: Parse<Version>)
    ensures r == Legacy(s, quiet)
  {
    if quiet.0 { return Parsed(Pre13, s); }
    var next := Combinators.ReadBytes(1, s);
    if next.Failed? { return Failed(StreamError, []); }
    if next.value[0] != 0x01 { return Failed(MalformedLegacyPing, next.rest); }
    if quiet.1 { return Parsed(Pre16, next.rest); }
    var channel := Combinators.ReadBytes(1, next.rest);
    if channel.Failed? { return Failed(StreamError, []); }
    assert channel.value[0] == s[1];
    if channel.value[0] != 0xFA { return Failed(MalformedLegacyPing, channel.rest); }
    var nameLength := Combinators.ReadBytes(2, channel.rest);
    if nameLength.Failed? { return Failed(StreamError, []); }
    assert nameLength.rest == s[4..] && nameLength.value == s[2..4];
    if Int16(nameLength.value[0], nameLength.value[1]) != 0x0B {
      return Failed(MalformedLegacyPing, nameLength.rest);
    }
    var name := Combinators.ReadBytes(22, nameLength.rest);
    if name.Failed? { return Failed(StreamError, []); }
    assert name.rest == s[26..] && name.value == s[4..26];
    if name.value != CHANNEL { return Failed(MalformedLegacyPing, name.rest); }
    var dataLength := Combinators.ReadBytes(2, name.rest);
    if dataLength.Failed? { return Failed(StreamError, []); }
    assert dataLength.rest == s[28..] && dataLength.value == s[26..28];
    var bound := Int16(dataLength.value[0], dataLength.value[1]);
    if bound < 0 { return Failed(NegativeLength, dataLength.rest); }
    r := Parsed(Legacy16(bound), dataLength.rest);
  }

  /** Four groups of seven bits, with or without bit 7, are far from the sign bit of an i32. */
  lemma PrefixFits(s: bytes)
    ensures Prefix(s).Parsed? ==> Prefix(s).value < 0x8000_0000
  {
    hide Bit7, Weight;
    var k := LeadingContinuations(s);
    if k < 4 && k < |s| {
      WeightBound(s[..k + 1]);
      Pow128Values();
      assert Pow128(k + 1) <= 0x1000_0000 by {
        if k == 0 { } else if k == 1 { } else if k == 2 { } else { }
      }
    }
  }

  method ReadPrefix(s: bytes) returns (r: Parse<nat>)
    requires s != []
    ensures r == Prefix(s)
  {
    var value: nat := s[0];
    assert s[..1] == [s[0]];
    Single(s[0]);
    if s[0] < 128 { return Parsed(value, s[1..]); }
    var pos := 1;
    while pos < 4
      invariant 1 <= pos <= 4 && pos <= |s| && Continuing(s[..pos])
      invariant value == ForceBit7(Weight(s[..pos]))
    {
      if pos == |s| {
        PrefixCut(s, pos);
        return Failed(StreamError, []);
      }
      var curr := s[pos];
      assert s[..pos + 1] == s[..pos] + [curr];
      value := OrInto(value, curr, pos, s[..pos]);
      if curr < 128 {
        PrefixCut(s, pos);
        return Parsed(value, s[pos + 1..]);
      }
      pos := pos + 1;
    }
    PrefixCut(s, pos);
    r := Failed(OverSized, s[pos..]);
  }

  lemma PrefixCut(s: bytes, k: nat)
    requires k <= |s| && Continuing(s[..k])
    ensures LeadingContinuations(s) == k + LeadingContinuations(s[k..])
  {
    LeadingAfter(s[..k], s[k..]);
    assert s == s[..k] + s[k..];
  }

  /** `value |= (curr & 0x7f) << offset`, starting from a first byte whose bit 7 was not masked. */
  method OrInto(value: nat, curr: byte, group: nat, ghost head: bytes) returns (next: nat)
    requires 1 <= |head| == group <= 3 && value == ForceBit7(Weight(head))
    ensures next == ForceBit7(Weight(head + [curr]))
  {
    OrForced(head, curr);
    next := BitOr(value, Shl7(Low7(curr), group));
  }

  lemma Single(b: byte)
    ensures Weight([b]) == Low7(b)
    ensures b >= 128 ==> ForceBit7(Weight([b])) == b
  {
    assert Weight([b]) == Low7(b) + 128 * Weight([]);
  }

  /** OR-ing in the next group keeps bit 7 set and adds everything else. */
  lemma OrForced(head: bytes, curr: byte)
    requires 1 <= |head| <= 3
    ensures BitOr(ForceBit7(Weight(head)), Shl7(Low7(curr), |head|)) ==
            ForceBit7(Weight(head + [curr]))
  {
    WeightAppend(head, curr);
    WeightBound(head);
    OrGroupForced(Weight(head), Low7(curr), |head|);
  }

  lemma OrGroupForced(w: nat, d: nat, k: nat)
    requires 1 <= k <= 3 && w < Pow128(k) && d < 128
    ensures BitOr(ForceBit7(w), Shl7(d, k)) == ForceBit7(w + Shl7(d, k))
  {
    if k == 1 {
      Pow128Values();
      OrSecond(w, d);
    } else {
      KeepsBit7(w, d, k);
      ShlGroups(d, k);
      OrDisjoint(ForceBit7(w), d, 7 * k);
    }
  }

  /** From the third group on the bits are disjoint. */
  lemma KeepsBit7(w: nat, d: nat, k: nat)
    requires 2 <= k <= 3 && w < Pow128(k) && d < 128
    ensures ForceBit7(w) < Pow128(k)
    ensures ForceBit7(w + Shl7(d, k)) == ForceBit7(w) + Shl7(d, k)
  {
    Pow128Values();
    ShlValues(d);
    var e := if k == 2 then d else 128 * d;
    assert Shl7(d, k) == 0x4000 * e;
    HighGroups(w / 128, w % 128, e);
  }

  lemma HighGroups(high: nat, low: nat, e: nat)
    requires low < 128
    ensures (128 * high + low + 0x4000 * e) / 128 % 2 == high % 2
  {
    var q := high + 128 * e;
    QuotientIs(128 * high + low + 0x4000 * e, 128, q, low);
    AddEven(high, 64 * e);
  }

  lemma AddEven(n: nat, x: nat)
    ensures (n + 2 * x) % 2 == n % 2
  {
  }

  /** The second group meets the kept bit 7. */
  lemma OrSecond(w: nat, d: nat)
    requires w < 128 && d < 128
    ensures BitOr(ForceBit7(w), Shl7(d, 1)) == ForceBit7(w + Shl7(d, 1))
  {
    ShlValues(d);
    ShlGroups(d, 1);
    var odd := d - d % 2 + 1;
    assert ForceBit7(w) == w + 128;
    assert ForceBit7(w + 128 * d) == w + 128 * odd by {
      assert (w + 128 * d) / 128 == d;
    }
    SplitOr(w, 1, d, 7);
    OrOne(d);
    assert Shl(odd, 7) == 128 * odd by { ShlGroups(odd, 1); ShlValues(odd); }
    assert Shl(1, 7) == 128 by { ShlGroups(1, 1); ShlValues(1); }
  }

  lemma OrOne(d: nat)
    ensures BitOr(1, d) == d - d % 2 + 1
  {
    OrZero(d / 2);
  }

  /** Below bit k only `a` has bits; above, b and c are OR-ed. */
  lemma {:induction false} SplitOr(a: nat, b: nat, c: nat, k: nat)
    requires a < Pow2(k)
    ensures BitOr(a + Shl(b, k), Shl(c, k)) == a + Shl(BitOr(b, c), k)
  {
    if k > 0 {
      SplitOr(a / 2, b, c, k - 1);
      var x, y := a + Shl(b, k), Shl(c, k);
      assert x / 2 == a / 2 + Shl(b, k - 1) && x % 2 == a % 2 && y / 2 == Shl(c, k - 1) && y % 2 == 0;
      if x == 0 && y == 0 {
        assert BitOr(a / 2 + Shl(b, k - 1), Shl(c, k - 1)) == 0;
      }
    }
  }

  // ----- against the VarInt

  lemma EncodeHead(l: nat)
    ensures Encode(l)[0] == if l < 128 then l else l % 128 + 128
  {
  }

  /**
   * For every length of up to four prefix bytes, on a stream that starts with its canonical
   * encoding: the decoder and the VarInt consume the same bytes and agree on the length exactly when
   * the length fits in one byte, or the first byte is not 0xFE and bit 7 of the length is set.
   */
  lemma AgreesWithVarIntIff(l: nat, rest: bytes, quiet: (bool, bool))
    requires l < 0x1000_0000
    ensures Decode(Encode(l) + rest) == Parsed(l, rest)
    ensures Detect(Encode(l) + rest, quiet) == Parsed(Standard(l), rest) <==>
            l < 128 || (l % 128 != 0x7E && Bit7(l))
    ensures Encode(l)[0] != 0xFE ==>
      Detect(Encode(l) + rest, quiet) == Parsed(Standard(if l < 128 then l else ForceBit7(l)), rest)
  {
    RoundTrip(l, rest);
    EncodeHead(l);
    EncodeShape(l, rest);
    Pow128Values();
    DigitsBound(l, 4);
    DigitsBound(l, 1);
    var s := Encode(l) + rest;
    assert s[..|Encode(l)|] == Encode(l);
  }

  // ----- what that does to the first packet

  /** `read_handshake` on a stream that turns out to be the modern one, as `read_packet` would. */
  function ReadFirst<R>(known: i32 -> bool, handlers: i32 -> Handler<R>, bound: nat, s: bytes)
    : (Outcome<R>, bytes)
  {
    var avail := s[..Min(bound, |s|)];
    var (o, left) := Body(known, handlers, avail, bound - |avail|);
    (o, left + s[|avail|..])
  }

  /**
   * A handshake packet whose prefix is not taken for a legacy ping is handled to its end, leaving
   * exactly what follows it, if and only if its length fits in one byte or has bit 7 set; otherwise
   * the reader takes 128 bytes too many or fails for lack of them.
   */
  lemma HandshakeAlignsIff<R>(id: i32, payload: bytes, tail: bytes, quiet: (bool, bool),
                              known: i32 -> bool, handlers: i32 -> Handler<R>)
    requires known(id) && |Of(id) + payload| < 0x1000_0000
    requires Encode(|Of(id) + payload|)[0] != 0xFE
    ensures var l := |Of(id) + payload|;
            var r := Detect(Encode(l) + (Of(id) + payload) + tail, quiet);
            && r.Parsed? && r.value.Standard?
            && (ReadFirst(known, handlers, r.value.bound, r.rest) ==
                  (Done(Handle(handlers(id), [], payload, 0).0), tail) <==>
                l < 128 || Bit7(l))
  {
    var body := Of(id) + payload;
    var l := |body|;
    ConcatAssoc(Encode(l), body, tail);
    AgreesWithVarIntIff(l, body + tail, quiet);
    if l < 128 || Bit7(l) {
      FirstAligned(id, payload, tail, known, handlers);
    } else {
      FirstOverruns(id, payload, tail, known, handlers);
    }
  }

  lemma FirstAligned<R>(id: i32, payload: bytes, tail: bytes,
                        known: i32 -> bool, handlers: i32 -> Handler<R>)
    requires known(id)
    ensures ReadFirst(known, handlers, |Of(id) + payload|, Of(id) + payload + tail) ==
            (Done(Handle(handlers(id), [], payload, 0).0), tail)
  {
    var body := Of(id) + payload;
    var s := body + tail;
    assert s[..|body|] == body && s[|body|..] == tail;
    BodyReadsBack(known, handlers, id, payload);
    assert [] + tail == tail;
  }

  lemma FirstOverruns<R>(id: i32, payload: bytes, tail: bytes,
                         known: i32 -> bool, handlers: i32 -> Handler<R>)
    requires known(id)
    ensures var r := ReadFirst(known, handlers, |Of(id) + payload| + 128, Of(id) + payload + tail);
            if |tail| < 128 then r.0 == Error(StreamError) else r.1 == tail[128..]
  {
    var body := Of(id) + payload;
    var s := body + tail;
    var extra := tail[..Min(128, |tail|)];
    assert s[..Min(|body| + 128, |s|)] == Of(id) + (payload + extra);
    RoundTrip(id, payload + extra);
    if |tail| >= 128 {
      assert s[|body| + 128..] == tail[128..];
      assert [] + tail[128..] == tail[128..];
    }
  }

  /** A length that goes on after its fourth byte is refused there. */
  lemma LongPrefixRefused(s: bytes, quiet: (bool, bool))
    requires LeadingContinuations(s) >= 4 && s[0] != 0xFE
    ensures Detect(s, quiet) == Failed(OverSized, s[4..])
  {
  }

  /** And one that the stream ends in is a stream error. */
  lemma ShortPrefixRefused(s: bytes, quiet: (bool, bool))
    requires LeadingContinuations(s) == |s| < 4 && (s == [] || s[0] != 0xFE)
    ensures Detect(s, quiet) == Failed(StreamError, [])
  {
  }

  // ----- the legacy pings, branch by branch

  /** A lone 0xFE, then silence: a client of 1.3 or before. */
  lemma OldestPing(rest: bytes, later: bool)
    ensures Detect([0xFE] + rest, (true, later)) == Parsed(Pre13, rest)
  {
    assert ([0xFE] + rest)[1..] == rest;
  }

  /** 0xFE 0x01, then silence: one of 1.4 or 1.5. */
  lemma OlderPing(rest: bytes)
    ensures Detect([0xFE, 0x01] + rest, (false, true)) == Parsed(Pre16, rest)
  {
    assert ([0xFE, 0x01] + rest)[1..] == [0x01] + rest;
    assert ([0x01] + rest)[1..] == rest;
  }

  /** Anything but 0x01 after 0xFE, or but 0xFA after that, is malformed, and taken. */
  lemma MalformedPing(b: byte, rest: bytes, later: bool)
    ensures b != 0x01 ==> Detect([0xFE, b] + rest, (false, later)) == Failed(MalformedLegacyPing, rest)
    ensures b != 0xFA ==> Detect([0xFE, 0x01, b] + rest, (false, false)) == Failed(MalformedLegacyPing, rest)
  {
    assert ([0xFE, b] + rest)[1..] == [b] + rest && ([b] + rest)[1..] == rest;
    assert ([0xFE, 0x01, b] + rest)[1..] == [0x01, b] + rest && ([0x01, b] + rest)[2..] == rest;
  }

  /** So is a channel name of another length than eleven units, or another name. */
  lemma OtherChannel(hi: byte, lo: byte, name: bytes, rest: bytes)
    ensures (hi, lo) != (0x00, 0x0B) ==>
      Detect([0xFE, 0x01, 0xFA, hi, lo] + rest, (false, false)) == Failed(MalformedLegacyPing, rest)
    ensures |name| == 22 && name != CHANNEL ==>
      Detect([0xFE, 0x01, 0xFA, 0x00, 0x0B] + name + rest, (false, false)) ==
      Failed(MalformedLegacyPing, rest)
  {
    var s := ([0xFE, 0x01, 0xFA, hi, lo] + rest)[1..];
    assert s == [0x01, 0xFA, hi, lo] + rest && s[4..] == rest;
    if |name| == 22 && name != CHANNEL {
      var t := ([0xFE, 0x01, 0xFA, 0x00, 0x0B] + name + rest)[1..];
      assert t == [0x01, 0xFA, 0x00, 0x0B] + name + rest;
      assert t[4..26] == name && t[26..] == rest;
    }
  }

  /** The header of a 1.6 ping, up to the length of its data. */
  function PingHeader(hi: byte, lo: byte): (s: bytes)
    ensures |s| == 29
  {
    [0xFE, 0x01, 0xFA, 0x00, 0x0B] + CHANNEL + [hi, lo]
  }

  lemma Middle(head: bytes, name: bytes, tail: bytes, k: nat)
    requires |head| == 5 && |name| == 22 && 27 <= k <= |head + name + tail|
    ensures (head + name + tail)[..k][1..][4..26] == name
  {
    var t := (head + name + tail)[..k];
    assert t[1..][4..26] == t[5..27];
    assert t[5..27] == name;
  }

  /** A negative data length is refused, and a header cut short is a stream error, wherever it is cut. */
  lemma PingRefused(hi: byte, lo: byte, rest: bytes, k: nat)
    requires k < 29
    ensures hi >= 0x80 ==> Detect(PingHeader(hi, lo) + rest, (false, false)) == Failed(NegativeLength, rest)
    ensures Detect(PingHeader(hi, lo)[..k], (false, false)) == Failed(StreamError, [])
  {
    var head, tail := [0xFE, 0x01, 0xFA, 0x00, 0x0B], [hi, lo];
    var s := (PingHeader(hi, lo) + rest)[1..];
    ChannelName(0);
    Middle(head, CHANNEL, tail + rest, 29);
    assert head + CHANNEL + (tail + rest) == PingHeader(hi, lo) + rest;
    assert s[..28] == (PingHeader(hi, lo) + rest)[..29][1..];
    assert s[4..26] == s[..28][4..26] == CHANNEL;
    assert s[26] == hi && s[27] == lo && s[28..] == rest;
    if k > 0 {
      var t := PingHeader(hi, lo)[..k][1..];
      assert |t| == k - 1;
      assert k >= 2 ==> t[0] == 0x01;
      assert k >= 3 ==> t[1] == 0xFA;
      assert k >= 5 ==> t[2] == 0x00 && t[3] == 0x0B;
      if k >= 27 {
        Middle(head, CHANNEL, tail, k);
      }
    }
  }

  /** A 1.6 ping as that client sends it is recognised with the length of its data. */
  lemma LegacyPingRecognised(n: nat, data: bytes)
    requires n < 0x8000
    ensures Detect([0xFE, 0x01, 0xFA, 0x00, 0x0B] + CHANNEL + [n / 256, n % 256] + data, (false, false))
            == Parsed(Legacy16(n), data)
  {
    var s := [0xFE, 0x01, 0xFA, 0x00, 0x0B] + CHANNEL + [n / 256, n % 256] + data;
    assert |CHANNEL| == 22;
    var t := s[1..];
    assert t[4..26] == CHANNEL;
    assert t[26] == n / 256 && t[27] == n % 256 && t[28..] == data;
  }
}
