/**
 * The adapters `read_packet` stacks on the look-ahead buffer: a bound (`Take`), and inside it
 * possibly an inflater with a bound of its own; and the packet handlers that read through them.
 */
module Adapters {
  import opened Bytes
  import opened VarInt
  import opened Readers
  import opened Inflating

  datatype Outcome<+T> = Done(value: T) | Error(error: ReadError)

  // ----- handlers

  datatype Request = Exact(n: nat) | Skip(n: nat) | AskRemaining | Stop
  datatype Answer = Got(data: bytes) | Skipped | Remaining(n: nat) | Short

  /**
   * An arbitrary handler: what it asks of the reader next, and in the end its result, are functions
   * of all the answers it has had; it makes at most `turns` requests.
   */
  datatype Handler<!R> = Handler(turns: nat, ask: seq<Answer> -> Request, finish: seq<Answer> -> R)

  /** The request a handler makes after the given answers. */
  function NextRequest<R>(h: Handler<R>, answers: seq<Answer>): Request {
    if |answers| >= h.turns then Stop else h.ask(answers)
  }

  /**
   * A handler run on its own over a bounded reader that can deliver `avail` although its bound is
   * `lacking` bytes more: its result and what it leaves unread. A read past the end takes
   * everything and fails.
   */
  function Handle<R>(h: Handler<R>, answers: seq<Answer>, avail: bytes, lacking: nat): (r: (R, bytes))
    ensures |r.1| <= |avail| && r.1 == avail[|avail| - |r.1|..]
    decreases h.turns - |answers|
  {
    match NextRequest(h, answers)
    case Stop => (h.finish(answers), avail)
    case AskRemaining => Handle(h, answers + [Remaining(|avail| + lacking)], avail, lacking)
    case Exact(n) =>
      if n <= |avail| then Handle(h, answers + [Got(avail[..n])], avail[n..], lacking)
      else Handle(h, answers + [Short], [], lacking)
    case Skip(n) =>
      if n <= |avail| then Handle(h, answers + [Skipped], avail[n..], lacking)
      else Handle(h, answers + [Short], [], lacking)
  }

  /** The answer to one request, and what it leaves unread. */
  ghost predicate Served(request: Request, avail: bytes, lacking: nat, answer: Answer, rest: bytes) {
    match request
    case AskRemaining => answer == Remaining(|avail| + lacking) && rest == avail
    case Exact(n) =>
      if n <= |avail| then answer == Got(avail[..n]) && rest == avail[n..]
      else answer == Short && rest == []
    case Skip(n) =>
      if n <= |avail| then answer == Skipped && rest == avail[n..]
      else answer == Short && rest == []
    case Stop => false
  }

  lemma HandleStep<R>(h: Handler<R>, answers: seq<Answer>, avail: bytes, lacking: nat,
                      answer: Answer, rest: bytes)
    requires Served(NextRequest(h, answers), avail, lacking, answer, rest)
    ensures Handle(h, answers, avail, lacking) == Handle(h, answers + [answer], rest, lacking)
  {
  }

  /** No run in which some read came up short could have given this result. */
  ghost predicate Telling<R>(h: Handler<R>, result: R) {
    forall a: seq<Answer> :: Short in a ==> h.finish(a) != result
  }

  lemma HandleEnd<R>(h: Handler<R>, answers: seq<Answer>, avail: bytes, lacking: nat)
    requires NextRequest(h, answers) == Stop
    ensures Handle(h, answers, avail, lacking) == (h.finish(answers), avail)
  {
  }

  /** The handler that asks for the remaining length, reads that much and returns it. */
  function Collect(): Handler<Option<bytes>> { Handler(2, CollectAsk, CollectFinish) }

  function CollectAsk(a: seq<Answer>): Request {
    if a == [] then AskRemaining
    else if |a| == 1 && a[0].Remaining? then Exact(a[0].n) else Stop
  }

  function CollectFinish(a: seq<Answer>): Option<bytes> {
    if |a| == 2 && a[0].Remaining? && a[1].Got? then Some(a[1].data) else None
  }

  lemma CollectTells(data: bytes)
    ensures Telling(Collect(), Some(data))
  {
    forall a: seq<Answer> | Short in a ensures CollectFinish(a) != Some(data) {
      var i :| 0 <= i < |a| && a[i] == Short;
    }
  }

  lemma CollectRequests(n: nat, data: bytes)
    ensures NextRequest(Collect(), []) == AskRemaining
    ensures NextRequest(Collect(), [] + [Remaining(n)]) == Exact(n)
    ensures NextRequest(Collect(), [] + [Remaining(n)] + [Got(data)]) == Stop
    ensures Collect().finish([] + [Remaining(n)] + [Got(data)]) == Some(data)
  {
  }

  /** It returns the whole payload, and that result shows that no read came up short. */
  lemma CollectReturnsAll(payload: bytes)
    ensures Handle(Collect(), [], payload, 0) == (Some(payload), [])
    ensures Telling(Collect(), Some(payload))
  {
    hide Handle, Telling, Collect, NextRequest;
    CollectRequests(|payload|, payload);
    assert payload[..|payload|] == payload && payload[|payload|..] == [];
    var a1 := [] + [Remaining(|payload|)];
    HandleStep(Collect(), [], payload, 0, Remaining(|payload|), payload);
    HandleStep(Collect(), a1, payload, 0, Got(payload), []);
    HandleEnd(Collect(), a1 + [Got(payload)], [], 0);
    CollectTells(payload);
  }

  /** A reader's outcome and what it leaves, against a parse of what it could read. */
  ghost predicate Yields(parse: Parse<i32>, r: Outcome<i32>, rest: bytes) {
    parse.rest == rest && r == if parse.Parsed? then Done(parse.value) else Error(parse.error)
  }

  lemma NoBytes()
    ensures Value([]) == 0 && Continuing([])
  {
  }

  /** How the reader's loop ended decides how the whole of what it could read parses. */
  lemma Conclude(head: bytes, got: bytes, rest: bytes, r: Outcome<i32>)
    requires |head| <= 5 && Continuing(head)
    requires match r
             case Done(x) => |head| < 5 && |got| == |head| + 1 && got[..|head|] == head &&
                             got[|head|] < 128 && x == AsI32(Value(got))
             case Error(e) => got == head &&
                              if |head| == 5 then e == OverSized else e == StreamError && rest == []
    ensures Yields(Decode(got + rest), r, rest)
  {
    if r.Done? {
      assert got == head + [got[|head|]];
      DecodeWhole(head, got[|head|], rest);
    } else {
      DecodeFails(head, rest);
    }
  }

  // ----- where a bounded reader stands

  /**
   * Whether decryption is on, the stream below the adapters and how much of it has not been read
   * ahead, the outer bound, and, once an inflater is stacked on it, what the inflater has eaten, bite
   * by bite, and delivered, and the bound on its output. `grab` is what an eager inflater takes at a
   * time, otherwise 0.
   */
  datatype Position = Position(secret: bool, view: bytes, later: nat, limit: nat, inflating: bool,
                               grab: nat, bites: seq<bytes>, eaten: bytes, delivered: nat, inner: nat)

  ghost predicate Placed(inflate: bytes -> bytes, p: Position) {
    && Streaming(inflate) && p.eaten == Flatten(p.bites)
    && (p.inflating ==> p.delivered <= |inflate(p.eaten)|)
  }

  /** The bytes of the stream inside the outer bound. */
  function Reach(p: Position): bytes { p.view[..Min(p.limit, |p.view|)] }

  /** `remaining()`: the limit of the innermost bound. */
  function Bound(p: Position): nat { if p.inflating then p.inner else p.limit }

  /** Everything that reading on to the end would deliver. */
  ghost function Avail(inflate: bytes -> bytes, p: Position): (avail: bytes)
    requires Placed(inflate, p)
    ensures |avail| <= Bound(p)
  {
    if !p.inflating then Reach(p)
    else
      assert Grows(inflate, p.eaten, Reach(p));
      Output(inflate(p.eaten + Reach(p)), p.delivered, p.inner)
  }

  /** How far the bound exceeds what can still be delivered. */
  ghost function Lacking(inflate: bytes -> bytes, p: Position): nat
    requires Placed(inflate, p)
  {
    Bound(p) - |Avail(inflate, p)|
  }

  function Output(all: bytes, delivered: nat, bound: nat): (out: bytes)
    requires delivered <= |all|
    ensures |out| <= bound
  {
    all[delivered..Min(|all|, delivered + bound)]
  }

  /** The outer bound lost what the stream moved by and, when inflating, what the inflater ate. */
  ghost predicate Moved(p: Position, q: Position) {
    && q.secret == p.secret && q.inflating == p.inflating
    && q.limit <= p.limit && p.limit - q.limit <= |Reach(p)|
    && q.view == p.view[p.limit - q.limit..]
    && (p.inflating ==> q.eaten == p.eaten + Reach(p)[..p.limit - q.limit])
    && Fed(p, q)
  }

  /** All that is inside the outer bound has been read ahead. */
  predicate Covered(p: Position) { p.later <= |p.view| - |Reach(p)| }

  /**
   * Bites only come to those there are. What is inside the bound being covered, nothing more is read
   * ahead, and the first bite of an eager inflater is as large as can be.
   */
  ghost predicate Fed(p: Position, q: Position) {
    && p.bites <= q.bites && q.grab == p.grab && (p.inflating || q.bites == p.bites)
    && (Covered(p) ==> q.later == p.later)
    && (Covered(p) && p.grab > 0 && p.bites == [] && q.bites != [] ==>
          |q.bites[0]| == Min(p.grab, |Reach(p)|))
  }

  /** From p to q exactly `got` has been delivered. */
  ghost predicate Advanced(inflate: bytes -> bytes, p: Position, q: Position, got: bytes)
    requires Placed(inflate, p)
  {
    && Placed(inflate, q) && Moved(p, q)
    && Avail(inflate, p) == got + Avail(inflate, q)
    && Bound(p) == |got| + Bound(q)
    && (p.inflating ==> q.delivered == p.delivered + |got|)
  }

  lemma AdvancedRefl(inflate: bytes -> bytes, p: Position)
    requires Placed(inflate, p)
    ensures Advanced(inflate, p, p, [])
  {
    assert p.eaten + [] == p.eaten;
  }

  lemma AdvancedAvail(inflate: bytes -> bytes, p: Position, q: Position, got: bytes)
    requires Placed(inflate, p) && Advanced(inflate, p, q, got)
    ensures Placed(inflate, q) && Avail(inflate, p) == got + Avail(inflate, q)
  {
  }

  lemma Nothing(rest: bytes, buf: bytes)
    ensures [] + rest == rest && (rest == [] ==> buf + rest == buf)
  {
  }

  lemma SliceTwice(s: bytes, i: nat, j: nat)
    requires i + j <= |s|
    ensures s[i..][j..] == s[i + j..] && s[..i] + s[i..][..j] == s[..i + j]
  {
  }

  lemma MovedTrans(inflate: bytes -> bytes, p: Position, q: Position, r: Position)
    requires Placed(inflate, p) && Placed(inflate, q) && Moved(p, q) && Moved(q, r)
    ensures Moved(p, r)
  {
    hide Fed, Flatten, Streaming;
    var i, j := p.limit - q.limit, q.limit - r.limit;
    assert Reach(q) == Reach(p)[i..];
    SliceTwice(p.view, i, j);
    SliceTwice(Reach(p), i, j);
    ConcatAssoc(p.eaten, Reach(p)[..i], Reach(q)[..j]);
    FedTrans(inflate, p, q, r);
  }

  lemma FedTrans(inflate: bytes -> bytes, p: Position, q: Position, r: Position)
    requires Placed(inflate, p) && Placed(inflate, q) && Moved(p, q) && Moved(q, r)
    ensures Fed(p, r)
  {
    var i := p.limit - q.limit;
    assert |Reach(q)| == |Reach(p)| - i;
    if p.inflating && q.bites == [] {
      assert |q.eaten| == |p.eaten| + i;
    }
  }

  lemma AdvancedTrans(inflate: bytes -> bytes, p: Position, q: Position, r: Position, a: bytes, b: bytes)
    requires Placed(inflate, p) && Advanced(inflate, p, q, a) && Advanced(inflate, q, r, b)
    ensures Advanced(inflate, p, r, a + b)
  {
    MovedTrans(inflate, p, q, r);
    ConcatAssoc(a, b, Avail(inflate, r));
  }

  /** Without an inflater the stream below moves by what was delivered. */
  lemma RawView(inflate: bytes -> bytes, p: Position, q: Position, got: bytes)
    requires Placed(inflate, p) && !p.inflating && Advanced(inflate, p, q, got)
    ensures q.view == Avail(inflate, q) + p.view[|Reach(p)|..]
    ensures q.view[|Reach(q)|..] == p.view[|Reach(p)|..]
    ensures q.limit - |Reach(q)| == p.limit - |Reach(p)|
    ensures p.view == got + q.view && q.secret == p.secret
    ensures Placed(inflate, q) && !q.inflating
    ensures Avail(inflate, p) == Reach(p) && Avail(inflate, q) == Reach(q)
    ensures Lacking(inflate, p) == p.limit - |Reach(p)|
    ensures q.bites == p.bites && q.grab == p.grab
    ensures Covered(p) ==> Covered(q) && q.later == p.later
  {
    assert Reach(p) == got + Reach(q);
    assert q.view == Reach(q) + q.view[|Reach(q)|..];
  }

  /**
   * With an inflater just stacked on: what it can deliver at all, what it has eaten and left of the
   * outer bound, and how much it must have decompressed once its own bound is used up.
   */
  lemma InflatedView(inflate: bytes -> bytes, p: Position, q: Position, got: bytes)
    requires Placed(inflate, p) && p.inflating && p.eaten == [] && p.delivered == 0
    requires Advanced(inflate, p, q, got)
    ensures var all := inflate(Reach(p)); Avail(inflate, p) == all[..Min(p.inner, |all|)]
    ensures q.eaten <= Reach(p)
    ensures q.view == Reach(p)[|q.eaten|..] + p.view[|Reach(p)|..]
    ensures Bound(q) == 0 ==> p.inner <= |inflate(q.eaten)|
  {
    assert [] + Reach(p) == Reach(p);
    var used := p.limit - q.limit;
    assert q.eaten == Reach(p)[..used];
  }

  /** Once the id has been read without a hitch, the first bite has added output, and it stays first. */
  lemma IdStarts(inflate: bytes -> bytes, p: Position, q: Position, r: Position, got: bytes, more: bytes)
    requires Placed(inflate, p) && p.inflating && p.bites == [] && p.delivered == 0 && got != []
    requires Advanced(inflate, p, q, got) && Productive(inflate, q.bites)
    requires Advanced(inflate, q, r, more)
    ensures Started(inflate, r.bites)
  {
    assert q.delivered > 0;
    assert q.bites == [] ==> q.eaten == [];
    StartedStays(inflate, q.bites, r.bites);
  }

  /** A read of the raw bounded stream. */
  lemma RawStep(inflate: bytes -> bytes, p: Position, q: Position, got: bytes)
    requires Placed(inflate, p) && !p.inflating && |got| <= p.limit
    requires got + q.view == p.view
    requires q == p.(view := q.view, later := q.later, limit := p.limit - |got|)
    requires Covered(p) ==> q.later == p.later
    ensures Advanced(inflate, p, q, got)
  {
    assert got + Reach(q) == Reach(p);
  }

  /** A call that took and gave nothing: all output is out, or the input cannot be taken. */
  lemma NothingLeft(inflate: bytes -> bytes, p: Position, eaten: bytes, stuck: bool)
    requires Placed(inflate, p) && p.inflating && p.eaten == eaten
    requires p.delivered == |inflate(eaten)| && (Reach(p) != [] ==> stuck)
    ensures Avail(inflate, p) == [] || (stuck && Reach(p) != [])
  {
    if Reach(p) == [] { assert p.eaten + Reach(p) == p.eaten; }
  }

  /** After a call of the inflater that took `used` bytes and gave `given`. */
  function AfterBite(p: Position, used: nat, given: nat, later: nat): Position
    requires used <= |Reach(p)|
  {
    p.(view := p.view[used..], later := later, limit := p.limit - used,
       bites := if used == 0 then p.bites else p.bites + [Reach(p)[..used]],
       eaten := p.eaten + Reach(p)[..used], delivered := p.delivered + given)
  }

  lemma BiteMoves(inflate: bytes -> bytes, p: Position, q: Position, used: nat, given: nat)
    requires p.inflating && p.eaten == Flatten(p.bites) && used <= |Reach(p)| && given <= p.inner
    requires q == AfterBite(p, used, given, q.later).(inner := p.inner - given)
    requires Covered(p) ==> q.later == p.later
    requires Covered(p) && p.grab > 0 && used > 0 ==> used == Min(p.grab, |Reach(p)|)
    ensures Moved(p, q) && q.eaten == Flatten(q.bites)
    ensures q.eaten + Reach(q) == p.eaten + Reach(p)
  {
    hide Flatten;
    if used > 0 { FlattenAppend(p.bites, Reach(p)[..used]); }
    ReachAfter(p, q, used);
    assert used == 0 ==> p.eaten + Reach(p)[..used] == p.eaten;
  }

  lemma ReachAfter(p: Position, q: Position, used: nat)
    requires used <= |Reach(p)| && q.view == p.view[used..] && q.limit == p.limit - used
    requires q.eaten == p.eaten + Reach(p)[..used]
    ensures Reach(q) == Reach(p)[used..] && q.eaten + Reach(q) == p.eaten + Reach(p)
  {
    assert Reach(q) == Reach(p)[used..];
    ConcatAssoc(p.eaten, Reach(p)[..used], Reach(p)[used..]);
    assert Reach(p)[..used] + Reach(p)[used..] == Reach(p);
  }

  /** A call of the inflater that ate `used` bytes and handed out `got`. */
  lemma InflateStep(inflate: bytes -> bytes, p: Position, q: Position, used: nat, got: bytes)
    requires Placed(inflate, p) && p.inflating && used <= |Reach(p)| && |got| <= p.inner
    requires q == AfterBite(p, used, |got|, q.later).(inner := p.inner - |got|)
    requires Covered(p) ==> q.later == p.later
    requires Covered(p) && p.grab > 0 && used > 0 ==> used == Min(p.grab, |Reach(p)|)
    requires q.delivered <= |inflate(q.eaten)| && got == inflate(q.eaten)[p.delivered..q.delivered]
    ensures Advanced(inflate, p, q, got)
    ensures q.eaten + Reach(q) == p.eaten + Reach(p)
  {
    hide Moved, Fed, Output, Flatten;
    BiteMoves(inflate, p, q, used, |got|);
    assert Grows(inflate, q.eaten, Reach(q));
    OutputStep(inflate(p.eaten + Reach(p)), inflate(q.eaten), p.delivered, q.delivered, p.inner);
  }

  lemma OutputStep(all: bytes, part: bytes, before: nat, after: nat, bound: nat)
    requires part <= all && before <= after <= |part| && after - before <= bound
    ensures part[before..after] + Output(all, after, bound - (after - before)) ==
            Output(all, before, bound)
  {
    assert part[before..after] == all[before..after];
  }

  /** Why a read can come up short before the end: a wasted bite, or input that cannot be taken. */
  ghost predicate Dry(inflate: bytes -> bytes, stuck: bool, p: Position) {
    p.inflating && (Productive(inflate, p.bites) ==> stuck && Reach(p) != [])
  }

  /** What is dry stays dry; and a call that gives nothing although there is something shows it. */
  lemma DryAfter(inflate: bytes -> bytes, was: bool, stuck: bool, p: Position, q: Position, used: nat,
                 got: bytes)
    requires p.inflating && q.inflating && (was ==> stuck && used == 0)
    requires Productive(inflate, q.bites) ==> Productive(inflate, p.bites)
    requires used == 0 ==> Reach(q) == Reach(p)
    requires got == [] ==> used > 0 || (Reach(p) != [] ==> stuck)
    requires got == [] && used > 0 ==> !Productive(inflate, q.bites)
    ensures Dry(inflate, was, p) ==> Dry(inflate, stuck, q)
    ensures got == [] && (used == 0 ==> Reach(p) != []) ==> Dry(inflate, stuck, q)
  {
  }

  /** Bites were needed when they were taken, and only what is not valid was found corrupt. */
  ghost predicate Steady(inflate: bytes -> bytes, valid: bytes -> bool, broken: bool, p: Position) {
    p.inflating ==>
      && Needed(inflate, p.bites, p.delivered + p.inner)
      && (broken ==> !valid(p.eaten + Reach(p)))
  }

  /** The bound on the output going down with what is given changes neither. */
  lemma InnerMoves(inflate: bytes -> bytes, valid: bytes -> bool, broken: bool, stuck: bool,
                   p: Position, q: Position, r: Position, given: nat)
    requires q.inflating && given <= q.inner && r == q.(inner := q.inner - given)
    requires q.eaten + Reach(q) == p.eaten + Reach(p) && q.delivered == p.delivered + given
    requires Needed(inflate, q.bites, p.delivered + p.inner) && q.inner == p.inner
    requires broken ==> !valid(p.eaten + Reach(p))
    ensures Steady(inflate, valid, broken, r)
    ensures Dry(inflate, stuck, r) == Dry(inflate, stuck, q)
  {
  }

  /** No more compressed bytes can be taken. */
  ghost predicate InputStops(base: BufReader, inflater: Inflater)
    reads inflater
  {
    base.capacity == 0 || inflater.broken
  }

  // ----- the bounded reader

  class PacketReader {
    const base: BufReader
    const inflater: Inflater
    var limit: nat       // of the Take over the buffered reader
    var inflating: bool
    var inner: nat       // of the Take over the inflater
    ghost var starved: bool  // a read returned nothing although more was to come

    ghost const Repr: set<object> := {this, inflater} + base.Repr

    ghost predicate Valid()
      reads Repr
    {
      && base.Valid() && inflater.Valid()
      && Steady(inflater.inflate, inflater.valid, inflater.broken, At())
      && (starved ==> inflating && Dry(inflater.inflate, Stuck(), At()))
    }

    ghost predicate Stuck()
      reads base, inflater
    {
      InputStops(base, inflater)
    }

    /** Nothing has come up short, and every bite so far added output. */
    ghost predicate Smooth()
      reads Repr
    {
      !starved && Productive(inflater.inflate, inflater.bites)
    }

    ghost function At(): Position
      reads Repr
    {
      Position(base.inner.state.Decrypting?, base.View(), base.Later(), limit, inflating,
               if inflater.eager then inflater.most else 0,
               inflater.bites, inflater.eaten, inflater.delivered, inner)
    }

    constructor (base: BufReader, inflater: Inflater, bound: nat)
      requires base.Valid() && inflater.Valid()
      ensures Valid() && this.base == base && this.inflater == inflater && !starved
      ensures limit == bound && !inflating && inner == 0
    {
      this.base, this.inflater := base, inflater;
      limit, inflating, inner, starved := bound, false, 0, false;
    }

    lemma Parts()
      requires Valid()
      ensures base.Valid() && inflater.Valid() && (starved ==> inflating)
      ensures Placed(inflater.inflate, At())
      ensures At().view == base.View() && At().limit == limit && At().inflating == inflating
      ensures At().secret == base.inner.state.Decrypting? && At().later == base.Later()
      ensures At().bites == inflater.bites
    {
    }

    /** `with_decompression` followed by `with_bound`. */
    method WithDecompression(bound: nat)
      requires Valid() && !inflating
      modifies this, inflater
      ensures Valid() && Smooth()
      ensures inflater.bites == [] && !inflater.broken
      ensures At() == old(At()).(inflating := true, bites := [], eaten := [], delivered := 0,
                                 inner := bound)
    {
      inflater.Reset();
      inflating, inner, starved := true, bound, false;
    }

    /** `Read::read` through all the adapters, for a non-empty buffer. */
    method Read(room: nat) returns (got: bytes)
      requires Valid() && room > 0
      modifies Repr
      ensures Valid() && (old(starved) ==> starved) && |got| <= room
      ensures Advanced(inflater.inflate, old(At()), At(), got)
      ensures !starved && old(Avail(inflater.inflate, At())) != [] ==> got != []
      ensures old(Smooth()) && got != [] ==> Smooth()
    {
      hide Productive, Streaming, Flatten, Moved, Within, Advanced, Fed, Needed;
      ghost var p := At();
      if !inflating {
        if limit == 0 {
          AdvancedRefl(inflater.inflate, p);
          assert Reach(p) == [] && Avail(inflater.inflate, p) == [];
          return [];
        }
        got := base.Read(Min(room, limit));
        limit := limit - |got|;
        RawStep(inflater.inflate, p, At(), got);
      } else {
        got := ReadInflated(room, p);
      }
    }

    /** `DecompressionReader::read` between its two bounds. */
    method ReadInflated(room: nat, ghost p: Position) returns (got: bytes)
      requires Valid() && room > 0 && inflating && p == At()
      modifies Repr
      ensures Valid() && (old(starved) ==> starved) && |got| <= room
      ensures Advanced(inflater.inflate, p, At(), got)
      ensures !starved && Avail(inflater.inflate, p) != [] ==> got != []
      ensures old(Smooth()) && got != [] ==> Smooth()
    {
      hide Productive, Streaming, Dry, Flatten, Moved, Within, Advanced, Fed, Needed, Covered, Steady;
      if inner == 0 {
        AdvancedRefl(inflater.inflate, p);
        return [];
      }
      got := InflateBound(room, p);
      if got == [] && Avail(inflater.inflate, p) != [] { starved := true; }
    }

    /** The bounded read: the inner bound goes down by what is handed out. */
    method InflateBound(room: nat, ghost p: Position) returns (got: bytes)
      requires base.Valid() && inflater.Valid() && 0 < room && inflating && inner > 0 && p == At()
      requires Steady(inflater.inflate, inflater.valid, inflater.broken, p)
      modifies Repr
      ensures base.Valid() && inflater.Valid() && starved == old(starved) && inflating && |got| <= room
      ensures Steady(inflater.inflate, inflater.valid, inflater.broken, At())
      ensures Advanced(inflater.inflate, p, At(), got)
      ensures Productive(inflater.inflate, old(inflater.bites)) && got != [] ==>
              Productive(inflater.inflate, inflater.bites)
      ensures old(Dry(inflater.inflate, Stuck(), At())) ==> Dry(inflater.inflate, Stuck(), At())
      ensures got == [] && Avail(inflater.inflate, p) != [] ==> Dry(inflater.inflate, Stuck(), At())
    {
      hide Productive, Streaming, Dry, Flatten, Moved, Within, Advanced, Fed, Needed, Covered;
      var used;
      used, got := InflateTake(Min(room, inner), p);
      ghost var q := At();
      inner := inner - |got|;
      ghost var r := At();
      assert r == q.(inner := q.inner - |got|);
      InnerMoves(inflater.inflate, inflater.valid, inflater.broken, Stuck(), p, q, r, |got|);
      InflateStep(inflater.inflate, p, r, used, got);
    }

    /**
     * The unbounded read: one look-ahead slice through the inflater. It hands out nothing only when
     * nothing is left, or when it took a bite that added no output.
     */
    method InflateTake(room: nat, ghost p: Position) returns (used: nat, got: bytes)
      requires base.Valid() && inflater.Valid() && inflating && 0 < room <= inner && p == At()
      requires Needed(inflater.inflate, inflater.bites, p.delivered + p.inner)
      requires inflater.broken ==> !inflater.valid(p.eaten + Reach(p))
      modifies Repr
      ensures base.Valid() && inflater.Valid() && inner == old(inner) && starved == old(starved)
      ensures used <= |Reach(p)| && |got| <= room
      ensures At() == AfterBite(p, used, |got|, base.Later())
      ensures Covered(p) ==> base.Later() == p.later
      ensures Covered(p) && p.grab > 0 && used > 0 ==> used == Min(p.grab, |Reach(p)|)
      ensures Needed(inflater.inflate, inflater.bites, p.delivered + p.inner)
      ensures inflater.broken ==> !inflater.valid(p.eaten + Reach(p))
      ensures At().eaten + Reach(At()) == p.eaten + Reach(p)
      ensures inflater.delivered <= |inflater.inflate(inflater.eaten)|
      ensures got == inflater.inflate(inflater.eaten)[p.delivered..inflater.delivered]
      ensures Productive(inflater.inflate, old(inflater.bites)) && got != [] ==>
              Productive(inflater.inflate, inflater.bites)
      ensures old(Dry(inflater.inflate, Stuck(), At())) ==> Dry(inflater.inflate, Stuck(), At())
      ensures got == [] && Avail(inflater.inflate, p) != [] ==> Dry(inflater.inflate, Stuck(), At())
    {
      hide Productive, Streaming, Avail, Flatten, Within, Needed, Closed, Steady, Moved, Fed, Advanced, Placed,
        Dry;
      var slice := FillTake(p);
      assert inflater.eaten == p.eaten && inflater.delivered == p.delivered;
      used, got := inflater.Inflate(slice, room);
      BiteFacts(p, slice, used, old(inflater.broken));
      ConsumeTake(used, p);
      ReachAfter(p, At(), used);
      if used == 0 {
        assert base.View() == p.view;
        if got == [] { NothingLeft(inflater.inflate, p, inflater.eaten, Stuck()); }
      }
      DryAfter(inflater.inflate, old(Stuck()), Stuck(), p, At(), used, got);
    }

    /** What taking the slice, or finding it corrupt, means for what is inside the bound. */
    lemma BiteFacts(p: Position, slice: bytes, used: nat, wasBroken: bool)
      requires inflater.Valid() && slice <= Reach(p) && used <= |slice|
      requires used > 0 ==> p.eaten == Flatten(p.bites) && |inflater.inflate(p.eaten)| < p.delivered + p.inner
      requires Needed(inflater.inflate, p.bites, p.delivered + p.inner)
      requires inflater.bites == if used == 0 then p.bites else p.bites + [slice[..used]]
      requires inflater.broken && !wasBroken ==> used == 0 && !inflater.valid(p.eaten + slice)
      requires wasBroken ==> !inflater.valid(p.eaten + Reach(p))
      ensures slice[..used] == Reach(p)[..used]
      ensures Needed(inflater.inflate, inflater.bites, p.delivered + p.inner)
      ensures inflater.broken ==> !inflater.valid(p.eaten + Reach(p))
    {
      if used > 0 { NeededAppend(inflater.inflate, p.bites, p.delivered + p.inner, slice[..used]); }
      if inflater.broken && !wasBroken { CorruptOn(inflater.valid, p.eaten, slice, Reach(p)); }
    }

    /** `Take::fill_buf`: the look-ahead, cut at the bound. */
    method FillTake(ghost p: Position) returns (slice: bytes)
      requires base.Valid() && inflating && p == At()
      modifies base.Repr
      ensures base.Valid() && At() == p.(later := base.Later())
      ensures slice <= base.ahead && slice <= Reach(p)
      ensures slice == [] ==> Reach(p) == [] || base.capacity == 0
      ensures base.capacity == 0 ==> slice == []
      ensures Covered(p) ==> base.Later() == p.later && slice == Reach(p)
    {
      if limit == 0 { return []; }
      assert |base.View()| == |base.ahead| + base.Later();
      base.FillBuf();
      slice := base.ahead[..Min(limit, |base.ahead|)];
    }

    /** `Take::consume`. */
    method ConsumeTake(used: nat, ghost p: Position)
      requires base.Valid() && used <= limit && used <= |base.ahead|
      requires base.View() == p.view && limit == p.limit && used <= |p.view|
      modifies this`limit, base
      ensures base.Valid() && limit == p.limit - used && base.View() == p.view[used..]
      ensures base.Later() == old(base.Later())
    {
      base.Consume(used);
      limit := limit - used;
    }

    /**
     * `read_exact`: loops until the buffer is full; a read of nothing is the end of the stream, by
     * then everything has been taken.
     */
    method ReadExact(n: nat) returns (data: Option<bytes>, ghost got: bytes)
      requires Valid()
      modifies Repr
      ensures Valid() && (old(starved) ==> starved)
      ensures Advanced(inflater.inflate, old(At()), At(), got)
      ensures data.Some? ==> data.value == got && |got| == n
      ensures data.None? ==> |got| < n
      ensures old(Smooth()) && data.Some? ==> Smooth()
      ensures data.None? && !starved ==>
        got == old(Avail(inflater.inflate, At())) && Avail(inflater.inflate, At()) == []
    {
      hide Productive, Streaming, Dry, Flatten, Moved, Within, Advanced, Fed, Needed, Steady, Covered;
      var buf := [];
      got := [];
      AdvancedRefl(inflater.inflate, At());
      while |buf| < n
        invariant Valid() && (old(starved) ==> starved) && |buf| <= n && got == buf
        invariant Advanced(inflater.inflate, old(At()), At(), buf)
        invariant old(Smooth()) ==> Smooth()
      {
        ghost var q := At();
        var chunk := Read(n - |buf|);
        AdvancedTrans(inflater.inflate, old(At()), q, At(), buf, chunk);
        buf := buf + chunk;
        got := buf;
        if chunk == [] {
          AdvancedAvail(inflater.inflate, q, At(), []);
          AdvancedAvail(inflater.inflate, old(At()), At(), buf);
          Nothing(Avail(inflater.inflate, At()), buf);
          return None, got;
        }
      }
      data := Some(buf);
    }

    /** `discard`: copies exactly `n` bytes away. */
    method Discard(n: nat) returns (ok: bool, ghost got: bytes)
      requires Valid()
      modifies Repr
      ensures Valid() && (old(starved) ==> starved)
      ensures Advanced(inflater.inflate, old(At()), At(), got)
      ensures if ok then |got| == n else |got| < n
      ensures old(Smooth()) && ok ==> Smooth()
      ensures !ok && !starved ==>
        got == old(Avail(inflater.inflate, At())) && Avail(inflater.inflate, At()) == []
    {
      var data;
      data, got := ReadExact(n);
      ok := data.Some?;
    }

    /** `u8::from_reader`. */
    method ReadByte() returns (b: Option<byte>, ghost got: bytes)
      requires Valid()
      modifies Repr
      ensures Valid() && (old(starved) ==> starved)
      ensures Advanced(inflater.inflate, old(At()), At(), got)
      ensures !starved ==>
        var avail, rest := old(Avail(inflater.inflate, At())), Avail(inflater.inflate, At());
        if avail == [] then b == None && rest == [] else b == Some(avail[0]) && rest == avail[1..]
      ensures b.Some? ==> got == [b.value]
      ensures b.None? ==> got == []
      ensures old(Smooth()) && b.Some? ==> Smooth()
    {
      ghost var p := At();
      var data;
      data, got := ReadExact(1);
      if data.None? { return None, got; }
      b := Some(data.value[0]);
      assert Avail(inflater.inflate, p)[1..] == Avail(inflater.inflate, At());
    }

    /** `VarInt::from_reader`: at most five bytes, the last group shifted to bit 28. */
    method ReadVarInt() returns (r: Outcome<i32>, ghost got: bytes)
      requires Valid()
      modifies Repr
      ensures Valid() && (old(starved) ==> starved)
      ensures Advanced(inflater.inflate, old(At()), At(), got)
      ensures !starved ==>
        Yields(Decode(old(Avail(inflater.inflate, At()))), r, Avail(inflater.inflate, At()))
      ensures old(Smooth()) && r.Done? ==> Smooth()
      ensures r.Done? ==> got != []
      ensures r.Error? ==> r.error in {StreamError, OverSized}
    {
      hide Productive, Streaming, Dry, Flatten, Moved, Within, Advanced, Fed, Needed, Covered, Reach,
        Steady, Decode, Yields, Avail, Weight;
      ghost var p := At();
      NoBytes();
      var value: u32 := 0;
      var group := 0;
      ghost var head := [];
      got := [];
      r := Error(OverSized);
      AdvancedRefl(inflater.inflate, p);
      while group < 5
        invariant group == |head| <= 5 && Continuing(head) && value == Value(head)
        invariant Valid() && (old(starved) ==> starved)
        invariant got == head && r == Error(OverSized)
        invariant old(Smooth()) ==> Smooth()
        invariant Advanced(inflater.inflate, p, At(), got)
      {
        var next;
        next, got := ReadAnother(p, got);
        if next.None? { r := Error(StreamError); break; }
        var curr := next.value;
        value := Accumulate(value, curr, group, head);
        if curr < 128 { r := Done(AsI32(value)); break; }
        head := got;
        group := group + 1;
      }
      AdvancedAvail(inflater.inflate, p, At(), got);
      if !starved { Conclude(head, got, Avail(inflater.inflate, At()), r); }
    }

    /** One more byte after `sofar` since position p. */
    method ReadAnother(ghost p: Position, ghost sofar: bytes) returns (b: Option<byte>, ghost got: bytes)
      requires Valid() && Placed(inflater.inflate, p) && Advanced(inflater.inflate, p, At(), sofar)
      modifies Repr
      ensures Valid() && (old(starved) ==> starved)
      ensures Advanced(inflater.inflate, p, At(), got)
      ensures got == if b.Some? then sofar + [b.value] else sofar
      ensures b.None? && !starved ==> Avail(inflater.inflate, At()) == []
      ensures old(Smooth()) && b.Some? ==> Smooth()
    {
      ghost var here := At();
      ghost var more;
      b, more := ReadByte();
      AdvancedTrans(inflater.inflate, p, here, At(), sofar, more);
      got := sofar + more;
    }

    /** Runs a handler against this reader. */
    method Run<R>(h: Handler<R>) returns (result: R, ghost got: bytes)
      requires Valid()
      modifies Repr
      ensures Valid() && (old(starved) ==> starved)
      ensures Advanced(inflater.inflate, old(At()), At(), got)
      ensures !starved ==>
        (result, Avail(inflater.inflate, At())) ==
        Handle(h, [], old(Avail(inflater.inflate, At())), old(Lacking(inflater.inflate, At())))
      ensures old(Smooth()) && Telling(h, result) ==> Smooth()
    {
      hide Productive, Streaming, Dry, Flatten, Moved, Within, Advanced, Fed, Needed, Steady, Handle;
      ghost var inflate := inflater.inflate;
      ghost var p := At();
      ghost var here := p;
      ghost var lacking := Lacking(inflate, p);
      ghost var whole := Handle(h, [], Avail(inflate, p), lacking);
      var answers := [];
      got := [];
      AdvancedRefl(inflate, p);
      while NextRequest(h, answers) != Stop
        invariant Valid() && (old(starved) ==> starved)
        invariant here == At() && Advanced(inflate, p, here, got)
        invariant |answers| <= h.turns
        invariant old(Smooth()) && Short !in answers ==> Smooth()
        invariant !starved ==> whole == Handle(h, answers, Avail(inflate, here), lacking)
        decreases h.turns - |answers|
      {
        ghost var q := here;
        var answer;
        ghost var more;
        answer, more := Serve(NextRequest(h, answers));
        here := At();
        AdvancedTrans(inflate, p, q, here, got, more);
        assert Lacking(inflate, q) == lacking;
        if !starved {
          HandleStep(h, answers, Avail(inflate, q), lacking, answer, Avail(inflate, here));
        }
        got := got + more;
        answers := answers + [answer];
      }
      HandleEnd(h, answers, Avail(inflate, here), lacking);
      result := h.finish(answers);
    }

    /** One request of a handler. */
    method Serve(request: Request) returns (answer: Answer, ghost got: bytes)
      requires Valid() && request != Stop
      modifies Repr
      ensures Valid() && (old(starved) ==> starved)
      ensures Advanced(inflater.inflate, old(At()), At(), got)
      ensures !starved ==>
        Served(request, old(Avail(inflater.inflate, At())), old(Lacking(inflater.inflate, At())),
               answer, Avail(inflater.inflate, At()))
      ensures old(Smooth()) && answer != Short ==> Smooth()
    {
      match request {
        case Exact(n) =>
          var data;
          data, got := ReadExact(n);
          answer := if data.Some? then Got(data.value) else Short;
        case Skip(n) =>
          var ok;
          ok, got := Discard(n);
          answer := if ok then Skipped else Short;
        case AskRemaining =>
          AdvancedRefl(inflater.inflate, At());
          got := [];
          answer := Remaining(if inflating then inner else limit);
      }
    }
  }
}
