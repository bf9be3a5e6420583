/**
 * `CachedPreCompressionWriter` of src/defaults/sync.rs: a growing vector around a streaming
 * compressor.
 */
module PreCompression {
  import opened Bytes
  import opened Inflating

  datatype Status = Okay | StreamEnd | Failure

  /** What a streaming compressor has taken and given, and how much it still holds back. */
  datatype Stream = Stream(fed: bytes, emitted: bytes, pending: nat, finishing: bool)

  /**
   * The contract of one `deflate` call. It makes progress: it takes input, or it gives output it was
   * holding back. When it reports the end of the stream it holds nothing back, and everything it has
   * given decompresses to everything it was fed.
   */
  ghost predicate DeflateStep(inflate: bytes -> bytes, s: Stream, t: Stream, input: bytes, room: nat,
                              finish: bool, status: Status, consumed: nat, out: bytes)
  {
    && consumed <= |input| && |out| <= room
    && t.fed == s.fed + input[..consumed] && t.emitted == s.emitted + out
    && (t.finishing <==> s.finishing || finish)
    && (status == StreamEnd ==>
          finish && consumed == |input| && t.pending == 0 && inflate(t.emitted) == t.fed)
    && (status == Okay && !finish && consumed < |input| ==> consumed > 0 || t.pending < s.pending)
    && (status == Okay && finish && s.finishing ==> t.pending < s.pending)
  }

  /**
   * A codec: `blocks` is the output a compressor can have given for the input so far before it is
   * told to finish, `compress` the whole output once it has been; `inflate` is the other side, and
   * `valid` what that side does not find corrupt.
   */
  datatype Codec = Codec(inflate: bytes -> bytes, valid: bytes -> bool,
                         blocks: bytes -> bytes, compress: bytes -> bytes) {
    ghost predicate Sane() {
      Streaming(inflate) && Closed(valid) && Streaming(blocks) && forall p: bytes :: Complete(p)
    }

    ghost predicate Complete(p: bytes) {
      blocks(p) <= compress(p) && inflate(compress(p)) == p && valid(compress(p))
    }

    /** What the compressor has given and what it holds back are together what it has made. */
    ghost predicate Holds(s: Stream, rest: bytes) {
      s.emitted + rest == Made(s) && s.pending == |rest|
    }

    ghost function Made(s: Stream): bytes {
      if s.finishing then compress(s.fed) else blocks(s.fed)
    }
  }

  /** Feeding more input only adds to what has been made. */
  lemma FeedHolds(codec: Codec, s: Stream, rest: bytes, more: bytes, rest': bytes)
    requires codec.Sane() && codec.Holds(s, rest) && !s.finishing
    requires |codec.blocks(s.fed)| <= |codec.blocks(s.fed + more)|
    requires rest' == rest + codec.blocks(s.fed + more)[|codec.blocks(s.fed)|..]
    ensures codec.Holds(s.(fed := s.fed + more, pending := |rest'|), rest')
  {
    assert Grows(codec.blocks, s.fed, more);
    assert s.emitted + rest' == codec.blocks(s.fed + more);
  }

  /** So does finishing. */
  lemma FinishHolds(codec: Codec, s: Stream, rest: bytes, rest': bytes)
    requires codec.Sane() && codec.Holds(s, rest) && !s.finishing
    requires |codec.blocks(s.fed)| <= |codec.compress(s.fed)|
    requires rest' == rest + codec.compress(s.fed)[|codec.blocks(s.fed)|..]
    ensures codec.Holds(s.(finishing := true, pending := |rest'|), rest')
  {
    assert codec.Complete(s.fed);
    assert s.emitted + rest' == codec.compress(s.fed);
  }

  /** Handing out part of what is held back. */
  lemma EmitHolds(codec: Codec, s: Stream, rest: bytes, k: nat)
    requires codec.Holds(s, rest) && k <= |rest|
    ensures codec.Holds(s.(emitted := s.emitted + rest[..k], pending := |rest| - k), rest[k..])
  {
    assert s.emitted + rest[..k] + rest[k..] == s.emitted + rest;
  }

  /** Nothing held back at the end: what has been given is the whole output. */
  lemma EndIsWhole(codec: Codec, s: Stream, rest: bytes)
    requires codec.Holds(s, rest) && s.finishing && s.pending == 0
    ensures s.emitted == codec.compress(s.fed)
  {
    assert s.emitted + [] == s.emitted;
  }

  /** `CompressorOxide` behind `deflate`. */
  class Deflater {
    const codec: Codec
    const healthy: bool
    ghost var stream: Stream
    ghost var left: nat  // input bytes not taken by the last call
    var store: bytes     // all input so far
    var finishing: bool
    var rest: bytes      // output made and not yet given

    ghost predicate Valid()
      reads this
    {
      && codec.Sane() && codec.Holds(stream, rest)
      && stream.fed == store && stream.finishing == finishing
    }

    constructor (codec: Codec, healthy: bool)
      requires codec.Sane()
      ensures Valid() && this.codec == codec && this.healthy == healthy
      ensures stream == Stream([], [], 0, false)
    {
      this.codec, this.healthy := codec, healthy;
      stream, left := Stream([], [], 0, false), 0;
      store, finishing, rest := [], false, [];
    }

    method Reset()
      requires Valid()
      modifies this
      ensures Valid() && stream == Stream([], [], 0, false)
    {
      stream, left := Stream([], [], 0, false), 0;
      store, finishing, rest := [], false, [];
    }

    /** An empty output slice is an error of the library's; the writer must never pass one. */
    method Deflate(input: bytes, room: nat, finish: bool)
      returns (status: Status, consumed: nat, out: bytes)
      requires Valid() && room > 0
      requires finish ==> input == []
      modifies this
      ensures Valid()
      ensures DeflateStep(codec.inflate, old(stream), stream, input, room, finish, status, consumed, out)
      ensures left == |input| - consumed
      ensures healthy && !old(stream.finishing) && (finish || input != []) ==> status != Failure
      ensures healthy && finish ==> status != Failure
    {
      hide Codec.Holds;
      consumed, out, left := 0, [], |input|;
      if !finish && (finishing || input == []) {
        assert stream.fed + input[..0] == stream.fed && stream.emitted + [] == stream.emitted;
        return Failure, 0, [];
      }
      if finish {
        Conclude();
        assert stream.fed + input[..0] == stream.fed;
      } else {
        consumed := Feed(input);
      }
      left := |input| - consumed;
      out := Emit(room, !finish && consumed == 0);
      status := if finish && rest == [] then StreamEnd else Okay;
    }

    /** Takes some of the input; none only if there is output to give. */
    method Feed(input: bytes) returns (consumed: nat)
      requires Valid() && !finishing && input != []
      modifies this
      ensures Valid() && !finishing && consumed <= |input| && (consumed == 0 ==> stream.pending > 0)
      ensures stream.fed == old(stream.fed) + input[..consumed] && stream.emitted == old(stream.emitted)
      ensures consumed == 0 ==> stream == old(stream)
    {
      var n: int := *;
      if n < 0 || n > |input| || (n == 0 && rest == []) { n := |input|; }
      consumed := n;
      assert Grows(codec.blocks, store, input[..n]);
      var more := rest + codec.blocks(store + input[..n])[|codec.blocks(store)|..];
      FeedHolds(codec, stream, rest, input[..n], more);
      if n == 0 {
        assert store + input[..0] == store;
        assert more == rest;
        return;
      }
      rest, store := more, store + input[..n];
      stream := stream.(fed := store, pending := |rest|);
    }

    /** Told to finish: everything is made. */
    method Conclude()
      requires Valid()
      modifies this
      ensures Valid() && finishing
      ensures stream.fed == old(stream.fed) && stream.emitted == old(stream.emitted)
      ensures old(stream.finishing) ==> stream == old(stream)
    {
      if finishing { return; }
      assert codec.Complete(store);
      var more := rest + codec.compress(store)[|codec.blocks(store)|..];
      FinishHolds(codec, stream, rest, more);
      rest, finishing := more, true;
      stream := stream.(finishing := true, pending := |rest|);
    }

    /** Gives any part of what is held back; once finishing, or when forced, not nothing. */
    method Emit(room: nat, forced: bool) returns (out: bytes)
      requires Valid() && room > 0
      modifies this`rest, this`stream
      ensures Valid() && |out| <= room
      ensures stream.fed == old(stream.fed) && stream.finishing == old(stream.finishing)
      ensures stream.emitted == old(stream.emitted) + out
      ensures stream.pending == old(stream.pending) - |out| == |rest|
      ensures (forced || finishing) && old(stream.pending) > 0 ==> out != []
      ensures finishing && rest == [] ==> codec.inflate(stream.emitted) == stream.fed
    {
      var k: int := *;
      var most := Min(room, |rest|);
      if k < 0 || k > most || (k == 0 && (forced || finishing)) { k := most; }
      out := rest[..k];
      EmitHolds(codec, stream, rest, k);
      rest := rest[k..];
      stream := stream.(emitted := stream.emitted + out, pending := |rest|);
      if finishing && rest == [] {
        assert codec.Complete(store);
        assert stream.emitted + [] == stream.emitted;
      }
    }
  }

  /** What became of one `write`. */
  datatype Intake = Accepted | Broken | Underflow

  /** `2.max((len - consumed) - 2)` on usize: with a single byte left the subtraction underflows. */
  function Guess(len: nat, consumed: nat): Option<nat>
    requires consumed < len
  {
    if len - consumed < 2 then None else Some(Max(2, len - consumed - 2))
  }

  /** The guess by what is left: too little to subtract from, at least two, or all but two. */
  lemma GuessByLeft(left: nat, consumed: nat)
    ensures left == 1 ==> Guess(consumed + left, consumed) == None
    ensures 2 <= left <= 4 ==> Guess(consumed + left, consumed) == Some(2)
    ensures left >= 4 ==> Guess(consumed + left, consumed) == Some(left - 2)
  {
  }

  function Zeros(n: nat): (z: bytes)
    ensures |z| == n
  {
    seq(n, _ => 0)
  }

  class PreCompressor {
    const deflater: Deflater
    var buffer: bytes
    var written: nat

    /** The first `written` bytes are exactly what the compressor has given; the rest is spare room. */
    ghost predicate Valid()
      reads this, deflater
    {
      && deflater.Valid()
      && written <= |buffer|
      && buffer[..written] == deflater.stream.emitted
    }

    constructor (deflater: Deflater)
      requires deflater.Valid() && deflater.stream == Stream([], [], 0, false)
      ensures Valid() && this.deflater == deflater && buffer == []
    {
      this.deflater := deflater;
      buffer, written := [], 0;
    }

    /** Hands the spare room to the compressor and records what it wrote there. */
    method Call(input: bytes, finish: bool) returns (status: Status, consumed: nat)
      requires Valid() && written < |buffer| && (finish ==> input == [])
      modifies this, deflater
      ensures Valid() && |buffer| == |old(buffer)| && old(buffer[..written]) <= buffer[..written]
      ensures DeflateStep(deflater.codec.inflate, old(deflater.stream), deflater.stream, input,
                          old(|buffer| - written), finish, status, consumed,
                          buffer[old(written)..written])
      ensures old(written) <= written
      ensures deflater.left == |input| - consumed
      ensures deflater.healthy && !old(deflater.stream.finishing) && (finish || input != []) ==>
              status != Failure
      ensures deflater.healthy && finish ==> status != Failure
    {
      var out;
      status, consumed, out := deflater.Deflate(input, |buffer| - written, finish);
      ghost var before := buffer[..written];
      buffer := buffer[..written] + out + buffer[written + |out|..];
      written := written + |out|;
      assert buffer[..written] == before + out;
      assert buffer[|before|..written] == out;
    }

    /** One turn of the loop of `write`, behind what was fed `before`. */
    method Offer(data: bytes, consumed: nat, ghost before: bytes) returns (ok: bool, next: nat)
      requires Valid() && written < |buffer| && !deflater.stream.finishing
      requires consumed <= |data| && deflater.stream.fed == before + data[..consumed]
      modifies this, deflater
      ensures Valid() && !deflater.stream.finishing && |buffer| == |old(buffer)|
      ensures consumed <= next <= |data| && deflater.stream.fed == before + data[..next]
      ensures deflater.left == |data| - next
      ensures ok && next < |data| ==>
        next > consumed || deflater.stream.pending < old(deflater.stream.pending)
      ensures deflater.healthy && consumed < |data| ==> ok
    {
      var status, taken := Call(data[consumed..], false);
      ok, next := status != Failure, consumed + taken;
      assert data[..consumed] + data[consumed..][..taken] == data[..next];
    }

    /**
     * The loop of `write`. Every call gets a non-empty output slice. It ends with all the data
     * taken, or with the compressor's error, or in the arithmetic underflow; the last exactly when
     * a call left a single byte.
     */
    method Write(data: bytes) returns (r: Intake)
      requires Valid() && !deflater.stream.finishing
      modifies this, deflater
      ensures Valid() && !deflater.stream.finishing
      ensures r.Accepted? ==> deflater.stream.fed == old(deflater.stream.fed) + data
      ensures r.Accepted? ==> deflater.left == 0
      ensures r.Underflow? ==> deflater.left == 1 && data != []
      ensures !r.Broken? ==> (r.Underflow? <==> deflater.left == 1)
      ensures deflater.healthy && data != [] ==> !r.Broken?
      ensures |buffer| >= old(|buffer|) + Max(2, |data| / 2)
    {
      hide Codec.Sane, Codec.Holds, DeflateStep;
      ghost var before := deflater.stream.fed;
      var consumed := 0;
      Grow(Max(2, |data| / 2));
      assert before + data[..0] == before;
      while true
        invariant 0 <= consumed < |data| || (consumed == 0 && data == [])
        invariant Valid() && !deflater.stream.finishing && written < |buffer|
        invariant deflater.stream.fed == before + data[..consumed]
        invariant |buffer| >= old(|buffer|) + Max(2, |data| / 2)
        decreases |data| - consumed, deflater.stream.pending
      {
        var ok;
        ok, consumed := Offer(data, consumed, before);
        if !ok { return Broken; }
        if consumed == |data| {
          assert data[..consumed] == data;
          return Accepted;
        }
        var guess := Guess(|data|, consumed);
        if guess.None? { return Underflow; }
        if |buffer| - written < guess.value { Grow(guess.value); }
      }
      assert false;
      r := Broken;
    }

    /** `resize` by `n` zeros. */
    method Grow(n: nat)
      requires Valid()
      modifies this`buffer
      ensures Valid() && |buffer| == |old(buffer)| + n
    {
      buffer := buffer + Zeros(n);
    }

    /** The loop of `flush`: doubles the vector until the compressor reports the end, then trims it. */
    method Flush() returns (ok: bool)
      requires Valid()
      modifies this, deflater
      ensures Valid()
      ensures ok ==> buffer == deflater.stream.emitted
      ensures ok ==> deflater.stream.fed == old(deflater.stream.fed)
      ensures ok ==> buffer == deflater.codec.compress(deflater.stream.fed)
      ensures ok ==> deflater.codec.inflate(buffer) == deflater.stream.fed
      ensures deflater.healthy ==> ok
    {
      if |buffer| == written {
        Grow(Max(2, |buffer| * 2) - |buffer|);
      }
      while true
        invariant Valid() && written < |buffer|
        invariant deflater.stream.fed == old(deflater.stream.fed)
        decreases !deflater.stream.finishing, deflater.stream.pending
      {
        var status, taken := Call([], true);
        if status == Failure { return false; }
        if status == StreamEnd {
          buffer := buffer[..written];
          assert buffer[..written] == buffer;
          EndIsWhole(deflater.codec, deflater.stream, deflater.rest);
          return true;
        }
        Grow(|buffer|);
      }
      assert false;
      ok := false;
    }

    /** `finish`. */
    method Finish() returns (size: nat, payload: bytes)
      ensures size == |payload| && payload == buffer
    {
      size, payload := |buffer|, buffer;
    }
  }

  // ----- a concrete codec

  /** The output of `Stored` but for its trailer. */
  function Literals(plain: bytes): bytes {
    if plain == [] then [] else [1, plain[0]] + Literals(plain[1..])
  }

  lemma LiteralsStep(head: bytes, a: bytes, b: bytes)
    requires |head| == 1 && Literals(a) <= Literals(b)
    ensures Literals(head + a) <= Literals(head + b)
  {
    assert (head + a)[1..] == a && (head + b)[1..] == b;
    var mark := [1, head[0]];
    assert Literals(head + a) == mark + Literals(a);
    assert Literals(head + b) == mark + Literals(b);
  }

  lemma HeadAndRest(a: bytes, b: bytes)
    requires a != []
    ensures a[..1] + a[1..] == a && a[..1] + (a[1..] + b) == a + b
  {
  }

  lemma {:induction false} LiteralsGrow(a: bytes, b: bytes)
    ensures Literals(a) <= Literals(a + b)
  {
    if a == [] {
      assert Literals(a) == [];
    } else {
      hide Literals;
      LiteralsGrow(a[1..], b);
      HeadAndRest(a, b);
      LiteralsStep(a[..1], a[1..], a[1..] + b);
    }
  }

  lemma {:induction false} StoredIsLiterals(a: bytes)
    ensures Stored(a) == Literals(a) + [0, 0]
  {
    if a != [] {
      StoredIsLiterals(a[1..]);
      ConcatAssoc([1, a[0]], Literals(a[1..]), [0, 0]);
    }
  }

  function StoredCodec(): Codec { Codec(Unstored, StoredValid, Literals, Stored) }

  /** The contract of a codec can be met. */
  lemma StoredIsSane()
    ensures StoredCodec().Sane()
  {
    StoredRoundTrip([]);
    StoredIsClosed();
    forall a, b ensures Grows(Literals, a, b) { LiteralsGrow(a, b); }
    forall p: bytes ensures StoredCodec().Complete(p) {
      StoredIsLiterals(p);
      StoredIsValid(p);
      StoredRoundTrip(p);
    }
  }

  /**
   * The underflow is within reach of a compressor: offered three bytes and room for max(2, 3/2) = 2,
   * this one fills that room with the start of its output, having taken two of them.
   */
  lemma OneByteLeft()
    ensures var data, s, t := [5, 6, 7], Stream([], [], 0, false), Stream([5, 6], [1, 5], 2, false);
      && StoredCodec().Sane() && StoredCodec().Holds(s, []) && StoredCodec().Holds(t, [1, 6])
      && DeflateStep(Unstored, s, t, data, Max(2, |data| / 2), false, Okay, 2, [1, 5])
      && Guess(|data|, 2) == None
  {
    StoredIsSane();
    assert [5, 6, 7][..2] == [5, 6] && [] + [5, 6] == [5, 6];
    assert [5, 6][1..] == [6] && [6][1..] == [];
    assert Literals([6]) == [1, 6] + Literals([]);
    assert Literals([5, 6]) == [1, 5] + Literals([6]);
    assert [] + [1, 5] == [1, 5];
  }
}
