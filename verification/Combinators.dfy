/**
 * The serialisable types of src/primatives: integers, bool, VarInt, byte arrays, and the Option,
 * tuple and array combinators over them.
 */
module Combinators {
  import opened Bytes
  import opened Bits
  import opened VarInt

  /** The types a reader or writer can be built for; integers are `width` bytes, big-endian. */
  datatype Ty =
    | TBool
    | TUint(width: nat)
    | TInt(width: nat)
    | TVarInt
    | TBytes(count: nat)
    | TOption(item: Ty)
    | TTuple(items: seq<Ty>)
    | TArray(item: Ty, count: nat)

  datatype Val =
    | VBool(b: bool)
    | VNum(n: int)
    | VVarInt(x: i32)
    | VBytes(data: bytes)
    | VNone
    | VSome(v: Val)
    | VList(vs: seq<Val>)

  function Pow256(k: nat): (p: nat)
    ensures p >= 1
  {
    if k == 0 then 1 else 256 * Pow256(k - 1)
  }

  predicate FitsSigned(n: int, width: nat) { 0 <= 2 * n + Pow256(width) && 2 * n < Pow256(width) }

  predicate HasType(v: Val, t: Ty)
    decreases t
  {
    match t
    case TBool => v.VBool?
    case TUint(w) => v.VNum? && 0 <= v.n < Pow256(w)
    case TInt(w) => v.VNum? && FitsSigned(v.n, w)
    case TVarInt => v.VVarInt?
    case TBytes(n) => v.VBytes? && |v.data| == n
    case TOption(item) => v.VNone? || (v.VSome? && HasType(v.v, item))
    case TTuple(items) =>
      v.VList? && |v.vs| == |items| && forall i :: 0 <= i < |items| ==> HasType(v.vs[i], items[i])
    case TArray(item, n) =>
      v.VList? && |v.vs| == n && forall i :: 0 <= i < n ==> HasType(v.vs[i], item)
  }

  // ----- big-endian integers

  function ToBigEndian(n: nat, width: nat): (s: bytes)
    ensures |s| == width
  {
    if width == 0 then [] else ToBigEndian(n / 256, width - 1) + [n % 256]
  }

  function FromBigEndian(s: bytes): nat {
    if s == [] then 0 else 256 * FromBigEndian(s[..|s| - 1]) + s[|s| - 1]
  }

  lemma {:induction false} BigEndianInverse(n: nat, width: nat)
    requires n < Pow256(width)
    ensures FromBigEndian(ToBigEndian(n, width)) == n
  {
    if width > 0 {
      BigEndianInverse(n / 256, width - 1);
      assert ToBigEndian(n, width)[..width - 1] == ToBigEndian(n / 256, width - 1);
    }
  }

  /** Byte i is the digit of weight 256^(width - 1 - i): the most significant comes first. */
  lemma {:induction false} BigEndianDigit(n: nat, width: nat, i: nat)
    requires i < width
    ensures ToBigEndian(n, width)[i] == n / Pow256(width - 1 - i) % 256
  {
    if i < width - 1 {
      BigEndianDigit(n / 256, width - 1, i);
      DivideTwice(n, 256, Pow256(width - 2 - i));
    }
  }

  /** Read, the first byte has the greatest weight. */
  lemma {:induction false} BigEndianWeight(s: bytes)
    requires s != []
    ensures FromBigEndian(s) == s[0] * Pow256(|s| - 1) + FromBigEndian(s[1..])
  {
    var front, last := s[..|s| - 1], s[|s| - 1];
    if |s| > 1 {
      BigEndianWeight(front);
      assert s[1..][..|s| - 2] == front[1..];
      Distribute(s[0], Pow256(|s| - 2), FromBigEndian(front[1..]));
    }
  }

  lemma Distribute(b: nat, p: nat, r: nat)
    ensures 256 * (b * p + r) == b * (256 * p) + 256 * r
  {
  }

  lemma {:induction false} BigEndianBound(s: bytes)
    ensures FromBigEndian(s) < Pow256(|s|)
  {
    if s != [] { BigEndianBound(s[..|s| - 1]); }
  }

  /** Two's complement at the given width. */
  function Unsigned(n: int, width: nat): nat
    requires FitsSigned(n, width)
  {
    if n < 0 then n + Pow256(width) else n
  }

  function Signed(u: nat, width: nat): int { if 2 * u < Pow256(width) then u else u - Pow256(width) }

  /** The two's complement form is the number modulo 256^width, and its top bit is the sign. */
  lemma TwosComplement(n: int, width: nat)
    requires FitsSigned(n, width)
    ensures 0 <= Unsigned(n, width) < Pow256(width)
    ensures Unsigned(n, width) == n || Unsigned(n, width) == n + Pow256(width)
    ensures 2 * Unsigned(n, width) >= Pow256(width) <==> n < 0
    ensures Signed(Unsigned(n, width), width) == n
  {
  }

  lemma ByteAndShort(n: int)
    ensures FitsSigned(n, 1) <==> -128 <= n < 128
    ensures FitsSigned(n, 2) <==> -0x8000 <= n < 0x8000
  {
    assert Pow256(1) == 256 * Pow256(0);
    assert Pow256(2) == 256 * Pow256(1);
  }

  // ----- size, writer, reader

  function Size(v: Val, t: Ty): nat
    requires HasType(v, t)
    decreases t, 0, 0
  {
    match t
    case TBool => 1
    case TUint(w) => w
    case TInt(w) => w
    case TVarInt => VarInt.Size(v.x)
    case TBytes(_) => |v.data|
    case TOption(item) => if v.VNone? then 1 else 1 + Size(v.v, item)
    case TTuple(items) => SumSizes(v.vs, items)
    case TArray(item, n) => ArraySize(v.vs, item)
  }

  function SumSizes(vs: seq<Val>, items: seq<Ty>): nat
    requires |vs| == |items| && forall i :: 0 <= i < |items| ==> HasType(vs[i], items[i])
    decreases items, 1, |items|
  {
    if items == [] then 0 else Size(vs[0], items[0]) + SumSizes(vs[1..], items[1..])
  }

  function ArraySize(vs: seq<Val>, item: Ty): nat
    requires forall i :: 0 <= i < |vs| ==> HasType(vs[i], item)
    decreases item, 1, |vs|
  {
    if vs == [] then 0 else Size(vs[0], item) + ArraySize(vs[1..], item)
  }

  function Write(v: Val, t: Ty): bytes
    requires HasType(v, t)
    decreases t, 0, 0
  {
    match t
    case TBool => [if v.b then 1 else 0]
    case TUint(w) => ToBigEndian(v.n, w)
    case TInt(w) => ToBigEndian(Unsigned(v.n, w), w)
    case TVarInt => Of(v.x)
    case TBytes(_) => v.data
    case TOption(item) => if v.VNone? then [0] else [1] + Write(v.v, item)
    case TTuple(items) => WriteTuple(v.vs, items)
    case TArray(item, _) => WriteSlice(v.vs, item)
  }

  function WriteTuple(vs: seq<Val>, items: seq<Ty>): bytes
    requires |vs| == |items| && forall i :: 0 <= i < |items| ==> HasType(vs[i], items[i])
    decreases items, 1, |items|
  {
    if items == [] then [] else Write(vs[0], items[0]) + WriteTuple(vs[1..], items[1..])
  }

  function WriteSlice(vs: seq<Val>, item: Ty): bytes
    requires forall i :: 0 <= i < |vs| ==> HasType(vs[i], item)
    decreases item, 1, |vs|
  {
    if vs == [] then [] else Write(vs[0], item) + WriteSlice(vs[1..], item)
  }

  function ReadBytes(n: nat, s: bytes): Parse<bytes> {
    if n <= |s| then Parsed(s[..n], s[n..]) else Failed(StreamError, [])
  }

  function Read(t: Ty, s: bytes): Parse<Val>
    decreases t, 0, 0
  {
    match t
    case TBool =>
      (match ReadBytes(1, s)
       case Parsed(d, r) => Parsed(VBool(d[0] != 0), r)
       case Failed(e, r) => Failed(e, r))
    case TUint(w) =>
      (match ReadBytes(w, s)
       case Parsed(d, r) => Parsed(VNum(FromBigEndian(d)), r)
       case Failed(e, r) => Failed(e, r))
    case TInt(w) =>
      (match ReadBytes(w, s)
       case Parsed(d, r) => Parsed(VNum(Signed(FromBigEndian(d), w)), r)
       case Failed(e, r) => Failed(e, r))
    case TVarInt =>
      (match Decode(s)
       case Parsed(x, r) => Parsed(VVarInt(x), r)
       case Failed(e, r) => Failed(e, r))
    case TBytes(n) =>
      (match ReadBytes(n, s)
       case Parsed(d, r) => Parsed(VBytes(d), r)
       case Failed(e, r) => Failed(e, r))
    case TOption(item) =>
      if s == [] then Failed(StreamError, [])
      else if s[0] == 0 then Parsed(VNone, s[1..])
      else
        (match Read(item, s[1..])
         case Parsed(v, r) => Parsed(VSome(v), r)
         case Failed(e, r) => Failed(e, r))
    case TTuple(items) =>
      (match ReadTuple(items, s)
       case Parsed(vs, r) => Parsed(VList(vs), r)
       case Failed(e, r) => Failed(e, r))
    case TArray(item, n) =>
      (match ReadArray(item, n, s)
       case Parsed(vs, r) => Parsed(VList(vs), r)
       case Failed(e, r) => Failed(e, r))
  }

  function ReadTuple(items: seq<Ty>, s: bytes): Parse<seq<Val>>
    decreases items, 1, |items|
  {
    if items == [] then Parsed([], s)
    else
      match Read(items[0], s)
      case Failed(e, r) => Failed(e, r)
      case Parsed(v, r) =>
        match ReadTuple(items[1..], r)
        case Failed(e, r) => Failed(e, r)
        case Parsed(vs, r) => Parsed([v] + vs, r)
  }

  function ReadArray(item: Ty, n: nat, s: bytes): Parse<seq<Val>>
    decreases item, 1, n
  {
    if n == 0 then Parsed([], s)
    else
      match Read(item, s)
      case Failed(e, r) => Failed(e, r)
      case Parsed(v, r) =>
        match ReadArray(item, n - 1, r)
        case Failed(e, r) => Failed(e, r)
        case Parsed(vs, r) => Parsed([v] + vs, r)
  }

  // ----- the layout

  /** The tags of bool and Option, and the types whose bytes are the value's own. */
  lemma Tags(b: bool, v: Val, item: Ty, data: bytes, x: i32)
    requires HasType(v, item)
    ensures Write(VBool(b), TBool) == [if b then 1 else 0]
    ensures Write(VNone, TOption(item)) == [0]
    ensures Write(VSome(v), TOption(item)) == [1] + Write(v, item)
    ensures Write(VBytes(data), TBytes(|data|)) == data
    ensures Write(VVarInt(x), TVarInt) == Of(x)
  {
  }

  /** Any byte but zero reads as true, and announces a value. */
  lemma TagsRead(tag: byte, rest: bytes, item: Ty)
    ensures Read(TBool, [tag] + rest) == Parsed(VBool(tag != 0), rest)
    ensures tag == 0 ==> Read(TOption(item), [tag] + rest) == Parsed(VNone, rest)
    ensures tag != 0 && Read(item, rest).Parsed? ==>
      Read(TOption(item), [tag] + rest) == Parsed(VSome(Read(item, rest).value), Read(item, rest).rest)
  {
    assert ([tag] + rest)[1..] == rest;
  }

  lemma JoinTyped(vs: seq<Val>, items: seq<Ty>, ws: seq<Val>, others: seq<Ty>)
    requires |vs| == |items| && forall i :: 0 <= i < |items| ==> HasType(vs[i], items[i])
    requires |ws| == |others| && forall i :: 0 <= i < |others| ==> HasType(ws[i], others[i])
    ensures forall i :: 0 <= i < |items + others| ==> HasType((vs + ws)[i], (items + others)[i])
  {
  }

  /** Components are laid out one after another, in order. */
  lemma {:induction false} TupleInOrder(vs: seq<Val>, items: seq<Ty>, ws: seq<Val>, others: seq<Ty>)
    requires |vs| == |items| && forall i :: 0 <= i < |items| ==> HasType(vs[i], items[i])
    requires |ws| == |others| && forall i :: 0 <= i < |others| ==> HasType(ws[i], others[i])
    ensures forall i :: 0 <= i < |items + others| ==> HasType((vs + ws)[i], (items + others)[i])
    ensures WriteTuple(vs + ws, items + others) == WriteTuple(vs, items) + WriteTuple(ws, others)
    ensures |vs| == 1 ==> WriteTuple(vs, items) == Write(vs[0], items[0])
    decreases |vs|
  {
    hide HasType;
    JoinTyped(vs, items, ws, others);
    if vs == [] {
      assert vs + ws == ws && items + others == others;
    } else {
      TupleInOrder(vs[1..], items[1..], ws, others);
      assert (vs + ws)[1..] == vs[1..] + ws && (items + others)[1..] == items[1..] + others;
      ConcatAssoc(Write(vs[0], items[0]), WriteTuple(vs[1..], items[1..]), WriteTuple(ws, others));
    }
  }

  lemma JoinSame(vs: seq<Val>, ws: seq<Val>, item: Ty)
    requires forall i :: 0 <= i < |vs| ==> HasType(vs[i], item)
    requires forall i :: 0 <= i < |ws| ==> HasType(ws[i], item)
    ensures forall i :: 0 <= i < |vs + ws| ==> HasType((vs + ws)[i], item)
  {
  }

  /** And so are the items of an array. */
  lemma {:induction false} SliceInOrder(vs: seq<Val>, ws: seq<Val>, item: Ty)
    requires forall i :: 0 <= i < |vs| ==> HasType(vs[i], item)
    requires forall i :: 0 <= i < |ws| ==> HasType(ws[i], item)
    ensures forall i :: 0 <= i < |vs + ws| ==> HasType((vs + ws)[i], item)
    ensures WriteSlice(vs + ws, item) == WriteSlice(vs, item) + WriteSlice(ws, item)
    ensures |vs| == 1 ==> WriteSlice(vs, item) == Write(vs[0], item)
    decreases |vs|
  {
    hide HasType;
    JoinSame(vs, ws, item);
    if vs == [] {
      assert vs + ws == ws;
    } else {
      SliceInOrder(vs[1..], ws, item);
      assert (vs + ws)[1..] == vs[1..] + ws;
      ConcatAssoc(Write(vs[0], item), WriteSlice(vs[1..], item), WriteSlice(ws, item));
    }
  }

  // ----- size equals bytes written

  lemma {:induction false} SizeIsBytesWritten(v: Val, t: Ty)
    requires HasType(v, t)
    ensures |Write(v, t)| == Size(v, t)
    decreases t, 0, 0
  {
    match t
    case TVarInt => SizeIsLength(v.x);
    case TOption(item) => if v.VSome? { SizeIsBytesWritten(v.v, item); }
    case TTuple(items) => TupleSize(v.vs, items);
    case TArray(item, n) => SliceSize(v.vs, item);
    case _ =>
  }

  lemma {:induction false} TupleSize(vs: seq<Val>, items: seq<Ty>)
    requires |vs| == |items| && forall i :: 0 <= i < |items| ==> HasType(vs[i], items[i])
    ensures |WriteTuple(vs, items)| == SumSizes(vs, items)
    decreases items, 1, |items|
  {
    if items != [] {
      SizeIsBytesWritten(vs[0], items[0]);
      TupleSize(vs[1..], items[1..]);
    }
  }

  lemma {:induction false} SliceSize(vs: seq<Val>, item: Ty)
    requires forall i :: 0 <= i < |vs| ==> HasType(vs[i], item)
    ensures |WriteSlice(vs, item)| == ArraySize(vs, item)
    decreases item, 1, |vs|
  {
    if vs != [] {
      SizeIsBytesWritten(vs[0], item);
      SliceSize(vs[1..], item);
    }
  }

  // ----- round trip

  lemma UintReadsBack(n: nat, w: nat, rest: bytes)
    requires n < Pow256(w)
    ensures Read(TUint(w), ToBigEndian(n, w) + rest) == Parsed(VNum(n), rest)
  {
    BigEndianInverse(n, w);
    ReadBytesBack(ToBigEndian(n, w), rest);
  }

  lemma IntReadsBack(n: int, w: nat, rest: bytes)
    requires FitsSigned(n, w)
    ensures Read(TInt(w), ToBigEndian(Unsigned(n, w), w) + rest) == Parsed(VNum(n), rest)
  {
    BigEndianInverse(Unsigned(n, w), w);
    ReadBytesBack(ToBigEndian(Unsigned(n, w), w), rest);
  }

  lemma ReadBytesBack(d: bytes, rest: bytes)
    ensures ReadBytes(|d|, d + rest) == Parsed(d, rest)
  {
  }

  /** Reading what was written, with anything after it, gives the value and what comes after. */
  lemma {:induction false} ReadsBack(v: Val, t: Ty, rest: bytes)
    requires HasType(v, t)
    ensures Read(t, Write(v, t) + rest) == Parsed(v, rest)
    decreases t, 0, 0
  {
    match t
    case TBool => ReadBytesBack(Write(v, t), rest);
    case TUint(w) => UintReadsBack(v.n, w, rest);
    case TInt(w) => IntReadsBack(v.n, w, rest);
    case TVarInt => RoundTrip(v.x, rest);
    case TBytes(n) => ReadBytesBack(v.data, rest);
    case TOption(item) =>
      if v.VSome? {
        ReadsBack(v.v, item, rest);
        ConcatAssoc([1], Write(v.v, item), rest);
      }
    case TTuple(items) => TupleReadsBack(v.vs, items, rest);
    case TArray(item, n) => ArrayReadsBack(v.vs, item, rest);
  }

  lemma {:induction false} TupleReadsBack(vs: seq<Val>, items: seq<Ty>, rest: bytes)
    requires |vs| == |items| && forall i :: 0 <= i < |items| ==> HasType(vs[i], items[i])
    ensures ReadTuple(items, WriteTuple(vs, items) + rest) == Parsed(vs, rest)
    decreases items, 1, |items|
  {
    if items == [] {
      assert [] + rest == rest;
    } else {
      var tail := WriteTuple(vs[1..], items[1..]);
      ConcatAssoc(Write(vs[0], items[0]), tail, rest);
      ReadsBack(vs[0], items[0], tail + rest);
      TupleReadsBack(vs[1..], items[1..], rest);
      assert [vs[0]] + vs[1..] == vs;
    }
  }

  lemma {:induction false} ArrayReadsBack(vs: seq<Val>, item: Ty, rest: bytes)
    requires forall i :: 0 <= i < |vs| ==> HasType(vs[i], item)
    ensures ReadArray(item, |vs|, WriteSlice(vs, item) + rest) == Parsed(vs, rest)
    decreases item, 1, |vs|
  {
    if vs == [] {
      assert [] + rest == rest;
    } else {
      var tail := WriteSlice(vs[1..], item);
      ConcatAssoc(Write(vs[0], item), tail, rest);
      ReadsBack(vs[0], item, tail + rest);
      ArrayReadsBack(vs[1..], item, rest);
      assert [vs[0]] + vs[1..] == vs;
    }
  }

  // ----- a value cut short

  /** No proper prefix of a written value reads as anything: the stream ends too early. */
  lemma {:induction false} TruncatedFails(v: Val, t: Ty, k: nat)
    requires HasType(v, t) && k < |Write(v, t)|
    ensures Read(t, Write(v, t)[..k]) == Failed(StreamError, [])
    decreases t, 0, 0
  {
    match t
    case TBool =>
    case TUint(w) =>
    case TInt(w) =>
    case TVarInt => TruncatedVarInt(v.x, k);
    case TBytes(n) =>
    case TOption(item) =>
      if k > 0 {
        var z := Write(v.v, item);
        TruncatedFails(v.v, item, k - 1);
        assert Write(v, t)[..k] == [1] + z[..k - 1];
        assert ([1] + z[..k - 1])[1..] == z[..k - 1];
      }
    case TTuple(items) => TruncatedTuple(v.vs, items, k);
    case TArray(item, n) => TruncatedArray(v.vs, item, k);
  }

  lemma TruncatedVarInt(x: i32, k: nat)
    requires k < |Of(x)|
    ensures Decode(Of(x)[..k]) == Failed(StreamError, [])
  {
    hide Decode, Encode, Weight;
    SizeIsLength(x);
    EncodeShape(AsU32(x), []);
    assert Of(x) + [] == Of(x);
    var head := Of(x)[..k];
    DecodeFails(head, []);
    assert head + [] == head;
  }

  lemma {:induction false} TruncatedTuple(vs: seq<Val>, items: seq<Ty>, k: nat)
    requires |vs| == |items| && forall i :: 0 <= i < |items| ==> HasType(vs[i], items[i])
    requires k < |WriteTuple(vs, items)|
    ensures ReadTuple(items, WriteTuple(vs, items)[..k]) == Failed(StreamError, [])
    decreases items, 1, |items|
  {
    var head, tail := Write(vs[0], items[0]), WriteTuple(vs[1..], items[1..]);
    if k < |head| {
      assert (head + tail)[..k] == head[..k];
      TruncatedFails(vs[0], items[0], k);
    } else {
      assert (head + tail)[..k] == head + tail[..k - |head|];
      ReadsBack(vs[0], items[0], tail[..k - |head|]);
      TruncatedTuple(vs[1..], items[1..], k - |head|);
    }
  }

  lemma {:induction false} TruncatedArray(vs: seq<Val>, item: Ty, k: nat)
    requires forall i :: 0 <= i < |vs| ==> HasType(vs[i], item)
    requires k < |WriteSlice(vs, item)|
    ensures ReadArray(item, |vs|, WriteSlice(vs, item)[..k]) == Failed(StreamError, [])
    decreases item, 1, |vs|
  {
    var head, tail := Write(vs[0], item), WriteSlice(vs[1..], item);
    if k < |head| {
      assert (head + tail)[..k] == head[..k];
      TruncatedFails(vs[0], item, k);
    } else {
      assert (head + tail)[..k] == head + tail[..k - |head|];
      ReadsBack(vs[0], item, tail[..k - |head|]);
      TruncatedArray(vs[1..], item, k - |head|);
    }
  }

  // ----- whatever is read is a value of the type, and the writer would not need more bytes for it

  /**
   * The reader accepts more than the writer emits (any non-zero byte as true, padded VarInts), but
   * what it returns is always a value of the type, and it has consumed at least as many bytes as the
   * writer would emit for that value.
   */
  lemma {:induction false} ReadIsTypedAndNoShorter(t: Ty, s: bytes)
    ensures Read(t, s).Parsed? ==>
      && HasType(Read(t, s).value, t)
      && |Read(t, s).rest| + Size(Read(t, s).value, t) <= |s|
    decreases t, 0, 0
  {
    match t
    case TBool =>
    case TUint(w) => if w <= |s| { BigEndianBound(s[..w]); }
    case TInt(w) => if w <= |s| { BigEndianBound(s[..w]); }
    case TVarInt => if Decode(s).Parsed? { Minimal(s); }
    case TBytes(n) =>
    case TOption(item) => if s != [] { ReadIsTypedAndNoShorter(item, s[1..]); }
    case TTuple(items) => TupleTyped(items, s);
    case TArray(item, n) => ArrayTyped(item, n, s);
  }

  lemma {:induction false} TupleTyped(items: seq<Ty>, s: bytes)
    ensures ReadTuple(items, s).Parsed? ==>
      var vs := ReadTuple(items, s).value;
      && |vs| == |items| && (forall i :: 0 <= i < |items| ==> HasType(vs[i], items[i]))
      && |ReadTuple(items, s).rest| + SumSizes(vs, items) <= |s|
    decreases items, 1, |items|
  {
    if items != [] {
      ReadIsTypedAndNoShorter(items[0], s);
      if Read(items[0], s).Parsed? {
        TupleTyped(items[1..], Read(items[0], s).rest);
        if ReadTuple(items, s).Parsed? {
          var vs := ReadTuple(items, s).value;
          assert vs[1..] == ReadTuple(items[1..], Read(items[0], s).rest).value;
        }
      }
    }
  }

  lemma {:induction false} ArrayTyped(item: Ty, n: nat, s: bytes)
    ensures ReadArray(item, n, s).Parsed? ==>
      var vs := ReadArray(item, n, s).value;
      && |vs| == n && (forall i :: 0 <= i < n ==> HasType(vs[i], item))
      && |ReadArray(item, n, s).rest| + ArraySize(vs, item) <= |s|
    decreases item, 1, n
  {
    if n > 0 {
      ReadIsTypedAndNoShorter(item, s);
      if Read(item, s).Parsed? {
        ArrayTyped(item, n - 1, Read(item, s).rest);
        if ReadArray(item, n, s).Parsed? {
          var vs := ReadArray(item, n, s).value;
          assert vs[1..] == ReadArray(item, n - 1, Read(item, s).rest).value;
        }
      }
    }
  }

  // ----- the loops of the array reader and the slice writer

  /** `Slice::to_writer`: one item after another. */
  method WriteItems(vs: seq<Val>, item: Ty) returns (out: bytes)
    requires forall i :: 0 <= i < |vs| ==> HasType(vs[i], item)
    ensures out == WriteSlice(vs, item)
  {
    out := [];
    for i := 0 to |vs|
      invariant out + WriteSlice(vs[i..], item) == WriteSlice(vs, item)
    {
      ConcatAssoc(out, Write(vs[i], item), WriteSlice(vs[i + 1..], item));
      assert vs[i..][1..] == vs[i + 1..];
      out := out + Write(vs[i], item);
    }
    assert vs[|vs|..] == [];
  }

  /** `Array::from_reader`: fills the array slot by slot, giving up at the first error. */
  method ReadItems(item: Ty, n: nat, s: bytes) returns (r: Parse<seq<Val>>)
    ensures r == ReadArray(item, n, s)
  {
    var vs, rest := [], s;
    PrependNothing([], ReadArray(item, n, s));
    for i := 0 to n
      invariant |vs| == i
      invariant ReadArray(item, n, s) == Prepend(vs, ReadArray(item, n - i, rest))
    {
      match Read(item, rest) {
        case Failed(e, end) => return Failed(e, end);
        case Parsed(v, end) =>
          PrependTwice(vs, v, ReadArray(item, n - i - 1, end));
          vs, rest := vs + [v], end;
      }
    }
    r := Parsed(vs, rest);
    assert vs + [] == vs;
  }

  function Prepend(vs: seq<Val>, p: Parse<seq<Val>>): Parse<seq<Val>> {
    match p case Parsed(ws, end) => Parsed(vs + ws, end) case Failed(e, end) => Failed(e, end)
  }

  lemma PrependNothing(vs: seq<Val>, p: Parse<seq<Val>>)
    requires vs == []
    ensures Prepend(vs, p) == p
  {
    if p.Parsed? { assert vs + p.value == p.value; }
  }

  lemma PrependTwice(vs: seq<Val>, v: Val, p: Parse<seq<Val>>)
    ensures Prepend(vs, Prepend([v], p)) == Prepend(vs + [v], p)
  {
    if p.Parsed? { assert vs + ([v] + p.value) == vs + [v] + p.value; }
  }
}
