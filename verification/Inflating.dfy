/**
 * The streaming inflater as a contract. `inflate` gives the bytes a compressed prefix decompresses
 * to; longer prefixes decompress to extensions. The inflater keeps what it has decompressed but not
 * yet handed out in a window, and takes more input only when that window is empty. Input that is not
 * `valid` it finds corrupt; from then on every call fails, which its reader cannot tell from the end
 * of the stream: both are the one stream error here.
 */
module Inflating {
  import opened Bytes

  ghost predicate Grows(inflate: bytes -> bytes, a: bytes, b: bytes) {
    inflate(a) <= inflate(a + b)
  }

  ghost predicate Streaming(inflate: bytes -> bytes) {
    && inflate([]) == []
    && forall a, b :: Grows(inflate, a, b)
  }

  /** Every bite of compressed input added at least one byte of output. */
  ghost predicate Productive(inflate: bytes -> bytes, bites: seq<bytes>) {
    forall i :: 0 <= i < |bites| ==>
      |inflate(Flatten(bites[..i]))| < |inflate(Flatten(bites[..i + 1]))|
  }

  lemma ProductiveAppend(inflate: bytes -> bytes, bites: seq<bytes>, bite: bytes)
    ensures Productive(inflate, bites + [bite]) <==>
            Productive(inflate, bites) &&
            |inflate(Flatten(bites))| < |inflate(Flatten(bites) + bite)|
  {
    var all := bites + [bite];
    FlattenAppend(bites, bite);
    assert all[..|bites|] == bites && all[..|bites| + 1] == all;
    forall i | 0 <= i <= |bites| ensures all[..i] == bites[..i] {}
    if Productive(inflate, all) {
      forall i | 0 <= i < |bites|
        ensures |inflate(Flatten(bites[..i]))| < |inflate(Flatten(bites[..i + 1]))|
      {
        assert all[..i] == bites[..i] && all[..i + 1] == bites[..i + 1];
      }
    }
    if Productive(inflate, bites) && |inflate(Flatten(bites))| < |inflate(Flatten(bites) + bite)| {
      forall i | 0 <= i < |all|
        ensures |inflate(Flatten(all[..i]))| < |inflate(Flatten(all[..i + 1]))|
      {
        if i < |bites| { assert all[..i] == bites[..i] && all[..i + 1] == bites[..i + 1]; }
      }
    }
  }

  /** No bite is empty, and none is larger than that. */
  ghost predicate Within(bites: seq<bytes>, most: nat) {
    forall i :: 0 <= i < |bites| ==> 0 < |bites[i]| <= most
  }

  lemma WithinAppend(bites: seq<bytes>, most: nat, bite: bytes)
    requires Within(bites, most) && 0 < |bite| <= most
    ensures Within(bites + [bite], most)
  {
  }

  /** A prefix of valid input is valid. */
  ghost predicate Closed(valid: bytes -> bool) {
    forall a, b :: Prefixed(valid, a, b)
  }

  ghost predicate Prefixed(valid: bytes -> bool, a: bytes, b: bytes) { valid(a + b) ==> valid(a) }

  lemma CorruptOn(valid: bytes -> bool, eaten: bytes, slice: bytes, reach: bytes)
    requires Closed(valid) && !valid(eaten + slice) && slice <= reach
    ensures !valid(eaten + reach)
  {
    assert (eaten + slice) + reach[|slice|..] == eaten + reach;
    assert Prefixed(valid, eaten + slice, reach[|slice|..]);
  }

  /** Every bite was taken while less than `want` had been decompressed. */
  ghost predicate Needed(inflate: bytes -> bytes, bites: seq<bytes>, want: nat) {
    forall i :: 0 <= i < |bites| ==> |inflate(Flatten(bites[..i]))| < want
  }

  lemma NeededAppend(inflate: bytes -> bytes, bites: seq<bytes>, want: nat, bite: bytes)
    requires Needed(inflate, bites, want) && |inflate(Flatten(bites))| < want
    ensures Needed(inflate, bites + [bite], want)
  {
    var all := bites + [bite];
    forall i | 0 <= i < |all| ensures |inflate(Flatten(all[..i]))| < want {
      assert all[..i] == bites[..i];
      if i == |bites| { assert bites[..i] == bites; }
    }
  }

  /** The first bite already added output. */
  ghost predicate Started(inflate: bytes -> bytes, bites: seq<bytes>) {
    bites != [] && inflate(Flatten(bites[..1])) != []
  }

  lemma StartedStays(inflate: bytes -> bytes, bites: seq<bytes>, more: seq<bytes>)
    requires Streaming(inflate) && Productive(inflate, bites) && bites != [] && bites <= more
    ensures Started(inflate, more)
  {
    assert more[..1] == bites[..1] && bites[..0] == [];
    assert |inflate(Flatten(bites[..0]))| < |inflate(Flatten(bites[..0 + 1]))|;
  }

  /** `InflateState` with the output window the library keeps inside it. */
  class Inflater {
    const inflate: bytes -> bytes
    const valid: bytes -> bool
    const most: nat             // how much it takes at a time
    const eager: bool           // whether it always takes that much, if there is
    var window: bytes
    var broken: bool            // corrupt input found since the last reset
    var eaten: bytes            // compressed bytes taken since the last reset
    ghost var delivered: nat    // bytes handed out since the last reset
    ghost var bites: seq<bytes> // how the compressed bytes were taken

    ghost predicate Valid()
      reads this
    {
      && Streaming(inflate)
      && Flatten(bites) == eaten && Within(bites, most)
      && delivered + |window| == |inflate(eaten)|
      && inflate(eaten)[delivered..] == window
      && most > 0 && Closed(valid) && (broken ==> window == [])
    }

    constructor (inflate: bytes -> bytes, valid: bytes -> bool, most: nat, eager: bool)
      requires Streaming(inflate) && Closed(valid) && most > 0
      ensures Valid() && this.inflate == inflate && this.valid == valid
      ensures this.most == most && this.eager == eager && eaten == [] && delivered == 0 && bites == []
      ensures !broken
    {
      this.inflate, this.valid, this.most, this.eager := inflate, valid, most, eager;
      window, broken, eaten, delivered, bites := [], false, [], 0, [];
    }

    /** `reset_as(MinReset)`. */
    method Reset()
      requires Valid()
      modifies this
      ensures Valid() && eaten == [] && delivered == 0 && bites == [] && !broken
    {
      window, broken, eaten, delivered, bites := [], false, [], 0, [];
    }

    /**
     * One call. A bite that adds no output hands out nothing; one that hands out something keeps the
     * bites productive.
     */
    method Inflate(slice: bytes, room: nat) returns (used: nat, out: bytes)
      requires Valid()
      modifies this
      ensures Valid()
      ensures used <= |slice| && eaten == old(eaten) + slice[..used]
      ensures bites == if used == 0 then old(bites) else old(bites) + [slice[..used]]
      ensures used == 0 && old(window) == [] && slice != [] ==> broken
      ensures used > 0 && eager ==> used == Min(|slice|, most)
      ensures used > 0 ==> delivered - |out| == |inflate(old(eaten))|
      ensures broken && !old(broken) ==> !valid(eaten + slice)
      ensures used > 0 || (broken && !old(broken)) ==> old(window) == [] && slice != []
      ensures old(broken) ==> broken
      ensures broken ==> used == 0 && out == []
      ensures |out| <= room && delivered == old(delivered) + |out| <= |inflate(eaten)|
      ensures out == inflate(eaten)[old(delivered)..delivered]
      ensures out == [] ==> room == 0 || window == []
      ensures Productive(inflate, bites) && used > 0 && room > 0 ==> out != []
      ensures Productive(inflate, bites) ==> old(Productive(inflate, bites))
      ensures old(Productive(inflate, bites)) && out != [] ==> Productive(inflate, bites)
    {
      hide Productive, Within, Streaming, Flatten, Closed;
      used := 0;
      if broken { return 0, []; }
      if window == [] && slice != [] {
        used := Bite(slice);
        if broken { return 0, []; }
      }
      var k := Min(room, |window|);
      out := window[..k];
      window := window[k..];
      delivered := delivered + k;
    }

    /** With an empty window: some of the input is taken and decompressed, or found corrupt. */
    method Bite(slice: bytes) returns (used: nat)
      requires Valid() && !broken && window == [] && slice != []
      modifies this
      ensures Valid() && delivered == old(delivered)
      ensures used <= |slice| && eaten == old(eaten) + slice[..used]
      ensures bites == if used == 0 then old(bites) else old(bites) + [slice[..used]]
      ensures used == 0 <==> broken
      ensures used > 0 && eager ==> used == Min(|slice|, most)
      ensures broken ==> !valid(eaten + slice)
      ensures Productive(inflate, bites) ==> old(Productive(inflate, bites))
      ensures used > 0 && old(Productive(inflate, bites)) ==>
                (Productive(inflate, bites) <==> window != [])
      ensures used == 0 ==> window == []
    {
      hide Productive, Within;
      var n: int := *;
      if eager || n <= 0 || n > Min(|slice|, most) { n := Min(|slice|, most); }
      if !valid(eaten + slice[..n]) {
        assert (eaten + slice[..n]) + slice[n..] == eaten + slice;
        assert Prefixed(valid, eaten + slice[..n], slice[n..]);
        broken := true;
        return 0;
      }
      used := n;
      WithinAppend(bites, most, slice[..used]);
      ProductiveAppend(inflate, bites, slice[..used]);
      FlattenAppend(bites, slice[..used]);
      assert Grows(inflate, eaten, slice[..used]);
      var prior := |inflate(eaten)|;
      eaten := eaten + slice[..used];
      bites := bites + [slice[..used]];
      window := inflate(eaten)[prior..];
    }
  }

  // ----- a concrete codec: literal bytes marked 1, then a two-byte trailer 0 0

  function Stored(plain: bytes): bytes {
    if plain == [] then [0, 0] else [1, plain[0]] + Stored(plain[1..])
  }

  function Unstored(z: bytes): bytes {
    if |z| < 2 || z[0] != 1 then [] else [z[1]] + Unstored(z[2..])
  }

  lemma {:induction false} UnstoredGrows(a: bytes, b: bytes)
    ensures Unstored(a) <= Unstored(a + b)
  {
    if |a| >= 2 && a[0] == 1 {
      UnstoredGrows(a[2..], b);
      UnstoredStep(a[..2], a[2..], a[2..] + b);
      assert a[..2] + a[2..] == a && a[..2] + (a[2..] + b) == a + b;
    } else {
      assert Unstored(a) == [];
    }
  }

  lemma UnstoredStep(item: bytes, a: bytes, b: bytes)
    requires |item| == 2 && item[0] == 1 && Unstored(a) <= Unstored(b)
    ensures Unstored(item + a) <= Unstored(item + b)
  {
    assert (item + a)[2..] == a && (item + b)[2..] == b;
  }

  /** The contract is met by a codec that loses nothing. */
  lemma {:induction false} StoredRoundTrip(plain: bytes)
    ensures Unstored(Stored(plain)) == plain
    ensures Streaming(Unstored)
  {
    if plain != [] {
      StoredRoundTrip(plain[1..]);
      assert Stored(plain)[2..] == Stored(plain[1..]);
    }
    forall a, b ensures Grows(Unstored, a, b) { UnstoredGrows(a, b); }
  }

  /** The trailer adds no output. */
  lemma {:induction false} TrailerAddsNothing(plain: bytes, k: nat)
    requires 2 * |plain| <= k <= 2 * |plain| + 2
    ensures |Stored(plain)| == 2 * |plain| + 2
    ensures Unstored(Stored(plain)[..k]) == plain
  {
    var z := Stored(plain);
    if plain != [] {
      TrailerAddsNothing(plain[1..], k - 2);
      assert z[2..] == Stored(plain[1..]);
      assert z[..k][2..] == z[2..][..k - 2];
    }
  }

  /**
   * In slices of at most two bytes this codec's payloads end in one that adds nothing, and so is never
   * needed.
   */
  lemma SmallBitesUnneeded(plain: bytes, bites: seq<bytes>)
    requires plain != [] && Within(bites, 2) && Flatten(bites) == Stored(plain)
    ensures !Needed(Unstored, bites, |plain|)
  {
    hide Stored, Unstored, Flatten;
    TrailerAddsNothing(plain, 2 * |plain|);
    NoBites(bites);
    var last := |bites| - 1;
    assert bites[..last] + [bites[last]] == bites;
    FlattenAppend(bites[..last], bites[last]);
    var before := Flatten(bites[..last]);
    assert before == Stored(plain)[..|before|];
    TrailerAddsNothing(plain, |before|);
  }

  lemma NoBites(bites: seq<bytes>)
    ensures bites == [] ==> Flatten(bites) == []
  {
  }

  /** A first slice of one byte adds nothing. */
  lemma OneByteStartsNothing(bites: seq<bytes>)
    requires Within(bites, 1)
    ensures !Started(Unstored, bites)
  {
    if bites != [] {
      assert bites[..1] == [bites[0]];
      assert Flatten([bites[0]]) == bites[0] + Flatten([]);
    }
  }

  lemma TwoAreMore(bites: seq<bytes>)
    requires |bites| > 1 && |bites[1]| > 0
    ensures |Flatten(bites)| > |bites[0]|
  {
    assert Flatten(bites[1..]) == bites[1] + Flatten(bites[1..][1..]);
  }

  /** The whole payload in one slice, and nothing else. */
  lemma OneWholeBite(bites: seq<bytes>, most: nat, payload: bytes)
    requires Within(bites, most) && bites != [] && Flatten(bites) <= payload
    requires |bites[0]| == |payload|
    ensures bites == [payload] && Flatten(bites) == payload
  {
    if |bites| > 1 {
      TwoAreMore(bites);
      assert false;
    }
    assert bites == [bites[0]] && bites[1..] == [];
    assert Flatten(bites) == bites[0] + Flatten(bites[1..]) == bites[0];
    assert payload[..|bites[0]|] == bites[0] && payload[..|payload|] == payload;
  }

  lemma OneBiteProductive(inflate: bytes -> bytes, bite: bytes)
    requires Streaming(inflate) && inflate(bite) != []
    ensures Productive(inflate, [bite])
  {
    ProductiveAppend(inflate, [], bite);
    assert [] + [bite] == [bite] && Flatten([]) + bite == bite;
  }

  /** Items, then the trailer, or any part of that. */
  predicate StoredValid(z: bytes) {
    if z == [] then true
    else if z[0] == 1 then |z| == 1 || StoredValid(z[2..])
    else z <= [0, 0]
  }

  lemma {:induction false} StoredValidPrefix(a: bytes, b: bytes)
    requires StoredValid(a + b)
    ensures StoredValid(a)
  {
    if |a| >= 2 && a[0] == 1 {
      assert (a + b)[2..] == a[2..] + b;
      StoredValidPrefix(a[2..], b);
    } else if a != [] {
      assert (a + b)[0] == a[0];
    }
  }

  lemma {:induction false} StoredIsValid(plain: bytes)
    ensures StoredValid(Stored(plain))
  {
    if plain != [] {
      StoredIsValid(plain[1..]);
      assert Stored(plain)[2..] == Stored(plain[1..]);
    }
  }

  lemma StoredIsClosed()
    ensures Closed(StoredValid)
  {
    forall a, b ensures Prefixed(StoredValid, a, b) {
      if StoredValid(a + b) { StoredValidPrefix(a, b); }
    }
  }
}
