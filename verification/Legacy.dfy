/** The responses to pings of old clients (src/protocol/mod.rs): UTF-16 strings in one packet. */
module Legacy {
  import opened Bytes
  import Combinators

  type unit = x: int | 0 <= x < 0x1_0000
  /** Unicode scalar values: what a Rust string is made of. */
  type scalar = x: int | 0 <= x < 0xD800 || 0xE000 <= x < 0x11_0000

  const SECTION: scalar := 0xA7

  // ----- UTF-16 (section 2.1 of RFC 2781)

  function EncodeScalar(c: scalar): (us: seq<unit>)
    ensures 1 <= |us| <= 2
  {
    if c < 0x1_0000 then [c]
    else
      var u: int := c as int - 0x1_0000;
      [0xD800 + u / 0x400, 0xDC00 + u % 0x400]
  }

  /** Beyond 16 bits: a high and a low surrogate that carry the twenty bits above 0x10000. */
  lemma SurrogatePair(c: scalar)
    ensures c < 0x1_0000 ==> EncodeScalar(c) == [c]
    ensures c >= 0x1_0000 ==>
      var us := EncodeScalar(c);
      && |us| == 2 && 0xD800 <= us[0] < 0xDC00 && 0xDC00 <= us[1] < 0xE000
      && c as int - 0x1_0000 == 0x400 * (us[0] as int - 0xD800) + (us[1] as int - 0xDC00)
  {
  }

  function Units(s: seq<scalar>): seq<unit> {
    if s == [] then [] else EncodeScalar(s[0]) + Units(s[1..])
  }

  /** Section 2.2 of RFC 2781; None for an unpaired surrogate. */
  function DecodeUnits(us: seq<unit>): Option<seq<scalar>>
    decreases |us|
  {
    if us == [] then Some([])
    else if us[0] < 0xD800 || us[0] >= 0xE000 then Cons(us[0], DecodeUnits(us[1..]))
    else if us[0] >= 0xDC00 || |us| < 2 || us[1] < 0xDC00 || us[1] >= 0xE000 then None
    else Cons(FromPair(us[0], us[1]), DecodeUnits(us[2..]))
  }

  function FromPair(hi: int, lo: int): scalar
    requires 0xD800 <= hi < 0xDC00 && 0xDC00 <= lo < 0xE000
  {
    0x1_0000 + (hi - 0xD800) * 0x400 + (lo - 0xDC00)
  }

  function Cons(c: scalar, rest: Option<seq<scalar>>): Option<seq<scalar>> {
    match rest case None => None case Some(s) => Some([c] + s)
  }

  lemma {:induction false} UnitsDecode(s: seq<scalar>)
    ensures DecodeUnits(Units(s)) == Some(s)
  {
    if s != [] {
      UnitsDecode(s[1..]);
      assert [s[0]] + s[1..] == s;
      var c, rest := s[0], Units(s[1..]);
      if c < 0x1_0000 {
        assert Units(s)[1..] == rest;
      } else {
        assert Units(s)[2..] == rest;
        var u: int := c as int - 0x1_0000;
        assert u == u / 0x400 * 0x400 + u % 0x400;
        assert FromPair(Units(s)[0], Units(s)[1]) == c;
      }
    }
  }

  // ----- the wire form of a response

  function Be16(u: unit): bytes { [u / 256, u % 256] }

  function Be16s(us: seq<unit>): bytes {
    if us == [] then [] else Be16(us[0]) + Be16s(us[1..])
  }

  function FromBe16s(s: bytes): seq<unit>
    requires |s| % 2 == 0
  {
    if s == [] then [] else [256 * (s[0] as int) + s[1] as int] + FromBe16s(s[2..])
  }

  lemma {:induction false} Be16sInverse(us: seq<unit>)
    ensures |Be16s(us)| == 2 * |us|
    ensures FromBe16s(Be16s(us)) == us
  {
    if us != [] {
      Be16sInverse(us[1..]);
      assert Be16s(us)[2..] == Be16s(us[1..]);
    }
  }

  /** Unit i takes bytes 2i and 2i + 1, most significant first. */
  lemma {:induction false} Be16sAt(us: seq<unit>, i: nat)
    requires i < |us|
    ensures |Be16s(us)| == 2 * |us|
    ensures Be16s(us)[2 * i] == us[i] / 256 && Be16s(us)[2 * i + 1] == us[i] % 256
  {
    Be16sInverse(us);
    if i > 0 {
      Be16sAt(us[1..], i - 1);
      assert Be16s(us)[2..] == Be16s(us[1..]);
    }
  }

  lemma Be16IsBigEndian(u: unit)
    ensures Be16(u) == Combinators.ToBigEndian(u, 2)
  {
    assert Combinators.ToBigEndian(u / 256, 1) == Combinators.ToBigEndian(u / 256 / 256, 0) + [u / 256 % 256];
  }

  /** The kick byte, the length most significant byte first, and then the units. */
  lemma ResponseLayout(length: unit, us: seq<unit>)
    ensures Response(length, us)[..3] == [0xFF, length / 256, length % 256]
    ensures Response(length, us)[3..] == Be16s(us)
  {
  }

  /** 0xFF, the length as an i16, then the code units. */
  function Response(length: unit, us: seq<unit>): bytes { [0xFF] + Be16(length) + Be16s(us) }

  datatype Ping13 = Ping13(motd: seq<scalar>, players: seq<scalar>, max: seq<scalar>, length: nat)

  /** `Legacy1_3PingResponse::new`. */
  function New13(motd: seq<scalar>, players: seq<scalar>, max: seq<scalar>): Option<Ping13> {
    var length := 2 + |Units(motd)| + |Units(players)| + |Units(max)|;
    if length > 0x100 then None else Some(Ping13(motd, players, max, length))
  }

  function Body13(p: Ping13): seq<unit> {
    Units(p.motd) + Units([SECTION]) + (Units(p.players) + Units([SECTION]) + Units(p.max))
  }

  datatype Ping16 = Ping16(version: seq<scalar>, motd: seq<scalar>, players: seq<scalar>,
                           max: seq<scalar>, length: nat)

  /** `Legacy1_6PingResponse::new`. */
  function New16(version: seq<scalar>, motd: seq<scalar>, players: seq<scalar>, max: seq<scalar>)
    : Option<Ping16>
  {
    var length := 10 + (|Units(version)| + |Units(motd)| + |Units(players)| + |Units(max)|);
    if length > 0x7FFF then None else Some(Ping16(version, motd, players, max, length))
  }

  /** The fields, in order, that the 1.6 response separates by NUL. */
  function Fields16(p: Ping16): seq<seq<unit>> {
    [Units([SECTION, '1' as int]), Units(['1' as int, '2' as int, '7' as int]),
     Units(p.version), Units(p.motd), Units(p.players), Units(p.max)]
  }

  function Join(sep: unit, fields: seq<seq<unit>>): seq<unit>
    requires fields != []
  {
    if |fields| == 1 then fields[0] else fields[0] + [sep] + Join(sep, fields[1..])
  }

  function Body16(p: Ping16): seq<unit> {
    Units([SECTION, '1' as int]) + [0] + (
    Units(['1' as int, '2' as int, '7' as int]) + [0] + (
    Units(p.version) + [0] + (
    Units(p.motd) + [0] + (
    Units(p.players) + [0] +
    Units(p.max)))))
  }

  lemma {:induction false} UnitsConcat(a: seq<scalar>, b: seq<scalar>)
    ensures Units(a + b) == Units(a) + Units(b)
  {
    if a == [] {
      assert a + b == b;
    } else {
      UnitsConcat(a[1..], b);
      assert (a + b)[1..] == a[1..] + b;
      assert EncodeScalar(a[0]) + Units(a[1..]) + Units(b) == EncodeScalar(a[0]) + (Units(a[1..]) + Units(b));
    }
  }

  /** The 1.3 response is made exactly when the whole of it, signs included, is at most 256 units. */
  lemma New13Iff(motd: seq<scalar>, players: seq<scalar>, max: seq<scalar>)
    ensures New13(motd, players, max).Some? <==>
            |Units(motd + [SECTION] + players + [SECTION] + max)| <= 0x100
    ensures New13(motd, players, max).Some? ==>
            Body13(New13(motd, players, max).value) == Units(motd + [SECTION] + players + [SECTION] + max)
  {
    OneUnit(SECTION);
    UnitsConcat(motd + [SECTION] + players + [SECTION], max);
    UnitsConcat(motd + [SECTION] + players, [SECTION]);
    UnitsConcat(motd + [SECTION], players);
    UnitsConcat(motd, [SECTION]);
    Nested3(Units(motd), Units([SECTION]), Units(players), Units(max));
  }

  /** What the 1.6 response says, as one string: the mark, the protocol, and the four fields. */
  function Text16(version: seq<scalar>, motd: seq<scalar>, players: seq<scalar>, max: seq<scalar>)
    : seq<scalar>
  {
    [0xA7, 0x31, 0, 0x31, 0x32, 0x37, 0] + version + [0] + motd + [0] + players + [0] + max
  }

  /** It is made exactly when that is at most 32767 units, the most that an i16 can announce. */
  lemma New16Iff(version: seq<scalar>, motd: seq<scalar>, players: seq<scalar>, max: seq<scalar>)
    ensures New16(version, motd, players, max).Some? <==>
            |Units(Text16(version, motd, players, max))| <= 0x7FFF
    ensures New16(version, motd, players, max).Some? ==>
            Body16(New16(version, motd, players, max).value) == Units(Text16(version, motd, players, max))
  {
    var head: seq<scalar> := [0xA7, 0x31, 0, 0x31, 0x32, 0x37, 0];
    var sep: seq<scalar> := [0];
    OneUnit(0);
    FixedFields();
    HeadUnits();
    UnitsConcat(head + version + sep + motd + sep + players + sep, max);
    UnitsConcat(head + version + sep + motd + sep + players, sep);
    UnitsConcat(head + version + sep + motd + sep, players);
    UnitsConcat(head + version + sep + motd, sep);
    UnitsConcat(head + version + sep, motd);
    UnitsConcat(head + version, sep);
    UnitsConcat(head, version);
    Nested([0xA7, 0x31], [0x31, 0x32, 0x37], Units(version), Units(motd), Units(players), Units(max));
    assert [0xA7, 0x31] + [0] + [0x31, 0x32, 0x37] + [0] == [0xA7, 0x31, 0, 0x31, 0x32, 0x37, 0];
  }

  lemma HeadUnits()
    ensures Units([0xA7, 0x31, 0, 0x31, 0x32, 0x37, 0]) == [0xA7, 0x31, 0, 0x31, 0x32, 0x37, 0]
  {
    var s: seq<scalar> := [0xA7, 0x31, 0, 0x31, 0x32, 0x37, 0];
    ShortUnits(s);
  }

  lemma {:induction false} ShortUnits(s: seq<scalar>)
    requires forall i :: 0 <= i < |s| ==> s[i] < 0xD800
    ensures |Units(s)| == |s| && forall i :: 0 <= i < |s| ==> Units(s)[i] == s[i]
  {
    if s != [] { ShortUnits(s[1..]); }
  }

  // ----- splitting

  function Split(sep: unit, us: seq<unit>): (fields: seq<seq<unit>>)
    ensures fields != []
  {
    if us == [] then [[]]
    else
      var rest := Split(sep, us[1..]);
      if us[0] == sep then [[]] + rest else [[us[0]] + rest[0]] + rest[1..]
  }

  lemma {:induction false} SplitField(sep: unit, field: seq<unit>, rest: seq<unit>)
    requires sep !in field
    ensures Split(sep, field + [sep] + rest) == [field] + Split(sep, rest)
    ensures Split(sep, field) == [field]
  {
    var us := field + [sep] + rest;
    if field == [] {
      assert us == [sep] + rest && us[1..] == rest;
    } else {
      SplitField(sep, field[1..], rest);
      assert us[1..] == field[1..] + [sep] + rest;
      assert field == [field[0]] + field[1..];
    }
  }

  lemma {:induction false} SplitCount(sep: unit, us: seq<unit>)
    ensures |Split(sep, us)| == multiset(us)[sep] + 1
  {
    if us != [] {
      SplitCount(sep, us[1..]);
      assert us == [us[0]] + us[1..];
    }
  }

  lemma {:induction false} SplitJoin(sep: unit, fields: seq<seq<unit>>)
    requires fields != [] && forall i :: 0 <= i < |fields| ==> sep !in fields[i]
    ensures Split(sep, Join(sep, fields)) == fields
    decreases |fields|
  {
    if |fields| == 1 {
      SplitField(sep, fields[0], []);
      assert fields == [fields[0]];
    } else {
      SplitJoin(sep, fields[1..]);
      SplitField(sep, fields[0], Join(sep, fields[1..]));
      assert fields == [fields[0]] + fields[1..];
    }
  }

  lemma {:induction false} JoinCount(sep: unit, fields: seq<seq<unit>>)
    requires fields != []
    ensures multiset(Join(sep, fields))[sep] >= |fields| - 1
    ensures (exists i :: 0 <= i < |fields| && sep in fields[i]) ==>
            multiset(Join(sep, fields))[sep] > |fields| - 1
    decreases |fields|
  {
    if |fields| > 1 {
      JoinCount(sep, fields[1..]);
      if i :| 0 <= i < |fields| && sep in fields[i] {
        if i > 0 { assert fields[1..][i - 1] == fields[i]; }
      }
    }
  }

  /** Splitting on the separator gives the fields back exactly when none of them contains it. */
  lemma SplitsBackIff(sep: unit, fields: seq<seq<unit>>)
    requires fields != []
    ensures Split(sep, Join(sep, fields)) == fields <==>
            (forall i :: 0 <= i < |fields| ==> sep !in fields[i])
  {
    if forall i :: 0 <= i < |fields| ==> sep !in fields[i] {
      SplitJoin(sep, fields);
    } else {
      JoinCount(sep, fields);
      SplitCount(sep, Join(sep, fields));
    }
  }

  /** A string has a separator unit exactly when it has the separator character. */
  lemma {:induction false} UnitsContain(s: seq<scalar>, sep: scalar)
    requires sep < 0xD800
    ensures sep in Units(s) <==> sep in s
  {
    if s != [] {
      UnitsContain(s[1..], sep);
      assert s == [s[0]] + s[1..];
    }
  }

  // ----- the promises of the two responses

  /**
   * The declared length is the number of code units emitted, the whole is 3 + 2 * length bytes and at
   * most 256 units, and a client that splits the units on the section sign gets the three strings
   * back exactly when none of them contains that sign.
   */
  lemma Ping13Response(motd: seq<scalar>, players: seq<scalar>, max: seq<scalar>)
    requires New13(motd, players, max).Some?
    ensures var p := New13(motd, players, max).value;
      && p.length == |Body13(p)| <= 0x100
      && |Response(p.length, Body13(p))| == 3 + 2 * p.length
      && FromBe16s(Response(p.length, Body13(p))[3..]) == Body13(p)
      && (Split(SECTION, Body13(p)) == [Units(motd), Units(players), Units(max)] <==>
            SECTION !in motd && SECTION !in players && SECTION !in max)
  {
    var p := New13(motd, players, max).value;
    var fields := [Units(motd), Units(players), Units(max)];
    OneUnit(SECTION);
    assert fields[1..] == [fields[1], fields[2]] && fields[1..][1..] == [fields[2]];
    assert Join(SECTION, fields[1..]) == fields[1] + [SECTION] + fields[2];
    assert Join(SECTION, fields) == Body13(p);
    Be16sInverse(Body13(p));
    SplitsBackIff(SECTION, fields);
    UnitsContain(motd, SECTION);
    UnitsContain(players, SECTION);
    UnitsContain(max, SECTION);
    Contains3(fields, SECTION);
  }

  lemma OneUnit(c: scalar)
    requires c < 0x1_0000
    ensures Units([c]) == [c]
  {
    assert [c][1..] == [];
    assert Units([]) == [];
  }

  lemma Contains3(fields: seq<seq<unit>>, sep: unit)
    requires |fields| == 3
    ensures (forall i :: 0 <= i < |fields| ==> sep !in fields[i]) <==>
            sep !in fields[0] && sep !in fields[1] && sep !in fields[2]
  {
  }

  lemma FixedFields()
    ensures Units([SECTION, '1' as int]) == [SECTION, '1' as int]
    ensures Units(['1' as int, '2' as int, '7' as int]) == ['1' as int, '2' as int, '7' as int]
  {
    OneUnit('1' as int);
    OneUnit('7' as int);
    assert [SECTION, '1' as int][1..] == ['1' as int];
    assert ['1' as int, '2' as int, '7' as int][1..] == ['2' as int, '7' as int];
    assert ['2' as int, '7' as int][1..] == ['7' as int];
  }

  /** What the writer emits is the six fields joined by NUL. */
  lemma Body16Shape(p: Ping16)
    ensures Body16(p) == Join(0, Fields16(p))
  {
    var f := Fields16(p);
    var f1, f2, f3, f4, f5 := f[1..], f[2..], f[3..], f[4..], f[5..];
    assert f1[1..] == f2 && f2[1..] == f3 && f3[1..] == f4 && f4[1..] == f5;
    assert Join(0, f5) == f[5];
    assert Join(0, f4) == f[4] + [0] + Join(0, f5);
    assert Join(0, f3) == f[3] + [0] + Join(0, f4);
    assert Join(0, f2) == f[2] + [0] + Join(0, f3);
    assert Join(0, f1) == f[1] + [0] + Join(0, f2);
  }

  /**
   * The declared length is the number of code units emitted and fits an i16, the whole is
   * 3 + 2 * length bytes, and a client that splits the units on NUL gets all six fields back exactly
   * when none of the four strings contains NUL.
   */
  lemma Ping16Response(version: seq<scalar>, motd: seq<scalar>, players: seq<scalar>, max: seq<scalar>)
    requires New16(version, motd, players, max).Some?
    ensures var p := New16(version, motd, players, max).value;
      && p.length == |Body16(p)| < 0x8000
      && |Response(p.length, Body16(p))| == 3 + 2 * p.length
      && FromBe16s(Response(p.length, Body16(p))[3..]) == Body16(p)
      && (Split(0, Body16(p)) == Fields16(p) <==>
            0 !in version && 0 !in motd && 0 !in players && 0 !in max)
  {
    var p := New16(version, motd, players, max).value;
    var fields := Fields16(p);
    FixedFields();
    Body16Shape(p);
    Be16sInverse(Body16(p));
    SplitsBackIff(0, fields);
    UnitsContain(version, 0);
    UnitsContain(motd, 0);
    UnitsContain(players, 0);
    UnitsContain(max, 0);
    if 0 !in version && 0 !in motd && 0 !in players && 0 !in max {
      forall i | 0 <= i < |fields| ensures 0 !in fields[i] {}
    } else {
      assert 0 in fields[2] || 0 in fields[3] || 0 in fields[4] || 0 in fields[5];
    }
  }

  // ----- the writers

  lemma {:induction false} Be16sConcat(a: seq<unit>, b: seq<unit>)
    ensures Be16s(a + b) == Be16s(a) + Be16s(b)
  {
    if a == [] {
      assert a + b == b;
    } else {
      Be16sConcat(a[1..], b);
      assert (a + b)[1..] == a[1..] + b;
      ConcatAssoc(Be16(a[0]), Be16s(a[1..]), Be16s(b));
    }
  }

  /** `write_legacy_string!`: one big-endian u16 after another, behind what was written before. */
  method WriteUnits(out: bytes, us: seq<unit>, ghost length: unit, ghost done: seq<unit>)
    returns (r: bytes)
    requires out == Response(length, done)
    ensures r == Response(length, done + us)
  {
    r := out;
    assert done + us[..0] == done;
    for i := 0 to |us|
      invariant r == Response(length, done + us[..i])
    {
      NextUnit(length, done + us[..i], us[i]);
      assert done + us[..i + 1] == done + us[..i] + [us[i]];
      r := r + Be16(us[i]);
    }
    assert us[..|us|] == us;
  }

  lemma NextUnit(length: unit, done: seq<unit>, u: unit)
    ensures Response(length, done + [u]) == Response(length, done) + Be16(u)
  {
    Be16sConcat(done, [u]);
    assert Be16s([u]) == Be16(u) + Be16s([]);
    ConcatAssoc([0xFF] + Be16(length), Be16s(done), Be16(u));
  }

  /** `Legacy1_3PingResponse::to_writer`. */
  method Write13(p: Ping13) returns (out: bytes)
    requires p.length < 0x8000
    ensures out == Response(p.length, Body13(p))
  {
    out := [0xFF] + Be16(p.length);
    ghost var n: unit := p.length;
    var motd, sign, players, max :=
      Units(p.motd), Units([SECTION]), Units(p.players), Units(p.max);
    out := WriteUnits(out, motd, n, []);
    assert [] + motd == motd;
    out := WriteUnits(out, sign, n, motd);
    out := WriteUnits(out, players, n, motd + sign);
    out := WriteUnits(out, sign, n, motd + sign + players);
    out := WriteUnits(out, max, n, motd + sign + players + sign);
    Nested3(motd, sign, players, max);
  }

  /** `Legacy1_6PingResponse::to_writer`. */
  method Write16(p: Ping16) returns (out: bytes)
    requires p.length < 0x8000
    ensures out == Response(p.length, Body16(p))
  {
    out := [0xFF] + Be16(p.length);
    ghost var n: unit := p.length;
    var mark, protocol := Units([SECTION, '1' as int]), Units(['1' as int, '2' as int, '7' as int]);
    var version, motd, players, max := Units(p.version), Units(p.motd), Units(p.players), Units(p.max);
    out := WriteUnits(out, mark, n, []);
    assert [] + mark == mark;
    out := WriteUnits(out, [0], n, mark);
    ghost var d := mark + [0];
    out := WriteUnits(out, protocol, n, d);
    out := WriteUnits(out, [0], n, d + protocol);
    ghost var e := d + protocol + [0];
    out := WriteUnits(out, version, n, e);
    out := WriteUnits(out, [0], n, e + version);
    ghost var f := e + version + [0];
    out := WriteUnits(out, motd, n, f);
    out := WriteUnits(out, [0], n, f + motd);
    ghost var g := f + motd + [0];
    out := WriteUnits(out, players, n, g);
    out := WriteUnits(out, [0], n, g + players);
    out := WriteUnits(out, max, n, g + players + [0]);
    Nested(mark, protocol, version, motd, players, max);
  }

  lemma Nested3(a: seq<unit>, s: seq<unit>, b: seq<unit>, c: seq<unit>)
    ensures a + s + b + s + c == a + s + (b + s + c)
  {
  }

  lemma Nested(a: seq<unit>, b: seq<unit>, c: seq<unit>, d: seq<unit>, e: seq<unit>, f: seq<unit>)
    ensures a + [0] + b + [0] + c + [0] + d + [0] + e + [0] + f ==
            a + [0] + (b + [0] + (c + [0] + (d + [0] + (e + [0] + f))))
  {
  }
}
