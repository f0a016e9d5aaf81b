/** payload.go: reassembly of a payload that arrives in pieces. */
module Payload {
  import opened Wire
  import opened Machine
  import opened Chunking
  import opened Grammar

  /** What an accumulator holds: the prefix so far and the length it was opened for. */
  datatype Carry = Carry(buf: Bytes, total: int)

  const IDLE: Carry := Carry([], 0)

  /** One chunk: the carry after it, and the payload when it is complete. */
  function Taken(a: Carry, total: int, offset: int, chunk: Bytes): (Carry, Option<Bytes>) {
    if total < 0 || offset < 0 then (IDLE, None)
    else if offset == 0 && |chunk| >= total then (IDLE, Some(chunk[..total]))
    else if offset > 0 && (total != a.total || offset != |a.buf|) then (IDLE, None)
    else
      var buf := (if offset == 0 then [] else a.buf) + chunk;
      if |buf| < total then (Carry(buf, total), None) else (IDLE, Some(buf[..total]))
  }

  class PayloadAcc {
    var buf: Bytes
    var total: int

    ghost function State(): Carry
      reads this
    {
      Carry(buf, total)
    }

    constructor ()
      ensures State() == IDLE
    {
      buf, total := [], 0;
    }

    method Reset()
      modifies this
      ensures State() == IDLE
    {
      buf, total := [], 0;
    }

    /** Contribute one chunk of a payload of `total` bytes, arriving at `offset` in it. */
    method Take(total: int, offset: int, chunk: Bytes) returns (p: Option<Bytes>)
      modifies this
      ensures (State(), p) == Taken(old(State()), total, offset, chunk)
    {
      if total < 0 || offset < 0 {
        Reset();
        return None;
      }
      if offset == 0 {
        this.buf, this.total := [], total;
        if |chunk| >= total {
          this.total := 0;
          return Some(chunk[..total]);
        }
      } else if total != this.total || offset != |this.buf| {
        Reset();
        return None;
      }
      this.buf := this.buf + chunk;
      if |this.buf| < total { return None; }
      p := Some(this.buf[..total]);
      this.buf, this.total := [], 0;
    }
  }

  /* ----- any caller ----- */

  datatype Offer = Offer(total: int, offset: int, chunk: Bytes)

  /** The accumulator after a history of offers. A `Reset` is an offer of a negative total. */
  function After(h: seq<Offer>): Carry {
    if h == [] then IDLE
    else var c := h[|h| - 1]; Taken(After(h[..|h| - 1]), c.total, c.offset, c.chunk).0
  }

  function Answer(h: seq<Offer>): Option<Bytes>
    requires h != []
  {
    var c := h[|h| - 1];
    Taken(After(h[..|h| - 1]), c.total, c.offset, c.chunk).1
  }

  function Spliced(h: seq<Offer>): Bytes {
    if h == [] then [] else Spliced(h[..|h| - 1]) + h[|h| - 1].chunk
  }

  /** Offers of one announced length, the first opening a payload and each later one
      starting where the one before it ended. */
  ghost predicate Contiguous(h: seq<Offer>, total: int)
    decreases |h|
  {
    h != [] && var init, c := h[..|h| - 1], h[|h| - 1];
    && c.total == total
    && if init == [] then c.offset == 0 else Contiguous(init, total) && c.offset == |Spliced(init)| > 0
  }

  lemma SplicedMore(h: seq<Offer>, c: Offer)
    ensures Spliced(h + [c]) == Spliced(h) + c.chunk
  {
    assert (h + [c])[..|h|] == h;
  }

  lemma ContiguousMore(h: seq<Offer>, c: Offer, total: int)
    requires Contiguous(h, total) && c.total == total && c.offset == |Spliced(h)| > 0
    ensures Contiguous(h + [c], total)
  {
    assert (h + [c])[..|h|] == h;
  }

  lemma SplicedOne(c: Offer)
    ensures Spliced([c]) == c.chunk && (c.offset == 0 ==> Contiguous([c], c.total))
  {
    assert [c][..0] == [];
    assert Spliced([]) == [];
  }

  /** What an offer leaves held is the offer's bytes, behind those held before if it continues them. */
  lemma CarryGrew(a: Carry, c: Offer)
    requires Taken(a, c.total, c.offset, c.chunk).0.buf != []
    ensures var b := Taken(a, c.total, c.offset, c.chunk).0;
      && c.offset >= 0 && b.total == c.total && b.buf == (if c.offset == 0 then [] else a.buf) + c.chunk
      && (c.offset > 0 ==> a.total == c.total && |a.buf| == c.offset)
  {
  }

  /** A carry with bytes in it is a contiguous run of the last offers, not yet complete. */
  lemma {:induction false} CarryIsContiguous(h: seq<Offer>) returns (j: nat)
    requires After(h).buf != []
    ensures j < |h| && Contiguous(h[j..], After(h).total) && Spliced(h[j..]) == After(h).buf
    decreases |h|
  {
    hide Contiguous, Spliced, Taken;
    var init, c := h[..|h| - 1], h[|h| - 1];
    CarryGrew(After(init), c);
    if c.offset == 0 {
      j := |h| - 1;
      assert h[j..] == [c];
      SplicedOne(c);
    } else {
      j := CarryIsContiguous(init);
      assert h[j..] == init[j..] + [c];
      SplicedMore(init[j..], c);
      ContiguousMore(init[j..], c, After(init).total);
    }
  }

  /** Whatever the calls, a payload handed out is the `total`-byte prefix of a contiguous
      run of the latest offers, all announcing that length: never a splice. */
  lemma NeverASplice(h: seq<Offer>) returns (j: nat)
    requires h != [] && Answer(h).Some?
    ensures j < |h| && var total := h[|h| - 1].total;
            && Contiguous(h[j..], total) && 0 <= total <= |Spliced(h[j..])|
            && Answer(h).value == Spliced(h[j..])[..total]
  {
    hide Contiguous, Spliced;
    var init, c := h[..|h| - 1], h[|h| - 1];
    if c.offset == 0 {
      j := |h| - 1;
      assert h[j..] == [c];
      SplicedOne(c);
    } else {
      j := CarryIsContiguous(init);
      assert h[j..] == init[j..] + [c];
      SplicedMore(init[j..], c);
      ContiguousMore(init[j..], c, c.total);
    }
  }

  /** A contiguous run is taken whole, whatever came before it: its bytes are held while they
      are fewer than announced, and handed out with the offer that makes them enough. */
  lemma {:induction false} ContiguousCompletes(p: seq<Offer>, h: seq<Offer>, total: nat)
    requires Contiguous(h, total) && (|h| > 1 ==> |Spliced(h[..|h| - 1])| < total)
    ensures Answer(p + h) == if |Spliced(h)| < total then None else Some(Spliced(h)[..total])
    ensures After(p + h) == if |Spliced(h)| < total then Carry(Spliced(h), total) else IDLE
    decreases |h|
  {
    var init, c := h[..|h| - 1], h[|h| - 1];
    assert (p + h)[..|p + h| - 1] == p + init;
    if init == [] {
      assert Spliced(h) == c.chunk;
    } else {
      ContiguousCompletes(p, init, total);
    }
  }

  /** Any offer of an impossible place, or one that continues something else, drops what is held. */
  lemma OthersAreDropped(h: seq<Offer>, c: Offer)
    requires c.total < 0 || c.offset < 0 || (c.offset > 0 && (c.total != After(h).total || c.offset != |After(h).buf|))
    ensures Answer(h + [c]).None? && After(h + [c]) == IDLE
  {
    assert (h + [c])[..|h|] == h;
  }

  /* ----- the decoder as the caller ----- */

  /** Which payloads a destination takes: those of its own scope and type. */
  type Mine = (Visitor, Subtype) -> bool

  datatype Assembly = Assembly(carry: Carry, payloads: seq<(int, Bytes)>)

  predicate Wanted(mine: Mine, c: Call) { c.ev.Piece? && mine(c.on, c.ev.sub) }

  /** One callback of a decode, its payload pieces taken by the accumulator. */
  function Deliver(mine: Mine, a: Assembly, c: Call): Assembly {
    if !Wanted(mine, c) then a
    else
      var (carry, p) := Taken(a.carry, c.ev.total, c.ev.off, c.ev.chunk);
      Assembly(carry, if p.Some? then a.payloads + [(c.ev.id, p.value)] else a.payloads)
  }

  /** A log through an accumulator that held `carry` before. */
  function Assemble(mine: Mine, carry: Carry, log: Log): Assembly {
    if log == [] then Assembly(carry, []) else Deliver(mine, Assemble(mine, carry, log[..|log| - 1]), log[|log| - 1])
  }

  /** The payloads of a log that are there from the first byte to the last. */
  function Wholes(mine: Mine, log: Log): seq<(int, Bytes)> {
    if log == [] then [] else Wholes(mine, log[..|log| - 1]) + WholeOf(mine, log[|log| - 1])
  }

  function WholeOf(mine: Mine, c: Call): seq<(int, Bytes)> {
    if Wanted(mine, c) && c.ev.off == 0 && |c.ev.chunk| == c.ev.total then [(c.ev.id, c.ev.chunk)] else []
  }

  lemma WholesMore(mine: Mine, log: Log, c: Call)
    ensures Wholes(mine, log + [c]) == Wholes(mine, log) + WholeOf(mine, c)
  {
    assert (log + [c])[..|log|] == log;
  }

  /** The last joined call is the payload the decode is inside, with the bytes so far. */
  ghost predicate Inside(g: Grammar, j: Log)
  {
    g.Good? && g.place.Paying? && g.place.off > 0 ==>
      && g.open != [] && 0 < g.place.off < g.place.total
      && j != [] && var last := j[|j| - 1];
      && last.ev.Piece? && |last.ev.chunk| == g.place.off
      && last == Call(g.open[|g.open| - 1], Piece(g.place.id, g.place.sub, g.place.total, 0, last.ev.chunk))
  }

  /** Inside a payload it takes, the accumulator has exactly the bytes delivered so far. */
  ghost predicate Carried(mine: Mine, g: Grammar, j: Log, a: Assembly) {
    && Inside(g, j) && a.payloads == Wholes(mine, j)
    && (g.Good? && g.place.Paying? && g.place.off > 0 && Wanted(mine, j[|j| - 1]) ==>
          a.carry == Carry(j[|j| - 1].ev.chunk, g.place.total))
  }

  lemma OpeningKeeps(pol: Policy, mine: Mine, g: Grammar, j: Log, a: Assembly, h: Log)
    requires h != [] && Next(pol, g, h).Good? && Carried(mine, g, j, a)
    requires h[|h| - 1].ev.Piece? && h[|h| - 1].ev.off == 0
    ensures Carried(mine, Next(pol, g, h), JoinCall(j, h[|h| - 1]), Deliver(mine, a, h[|h| - 1]))
  {
    hide Wholes;
    var c := h[|h| - 1];
    WholesMore(mine, j, c);
    assert [] + c.ev.chunk == c.ev.chunk == c.ev.chunk[..|c.ev.chunk|];
  }

  lemma ContinuingKeeps(pol: Policy, mine: Mine, g: Grammar, j: Log, a: Assembly, h: Log)
    requires h != [] && Next(pol, g, h).Good? && Carried(mine, g, j, a)
    requires h[|h| - 1].ev.Piece? && h[|h| - 1].ev.off > 0
    ensures Carried(mine, Next(pol, g, h), JoinCall(j, h[|h| - 1]), Deliver(mine, a, h[|h| - 1]))
  {
    hide Wholes;
    var c, init, last := h[|h| - 1], j[..|j| - 1], j[|j| - 1];
    var joined := Call(c.on, last.ev.(chunk := last.ev.chunk + c.ev.chunk));
    assert j == init + [last];
    WholesMore(mine, init, last);
    WholesMore(mine, init, joined);
    var buf := last.ev.chunk + c.ev.chunk;
    assert buf[..|buf|] == buf;
    assert Continues(j, c);
  }

  lemma DeliverKeeps(pol: Policy, mine: Mine, g: Grammar, j: Log, a: Assembly, h: Log)
    requires h != [] && Next(pol, g, h).Good? && Carried(mine, g, j, a)
    ensures Carried(mine, Next(pol, g, h), JoinCall(j, h[|h| - 1]), Deliver(mine, a, h[|h| - 1]))
  {
    hide Wholes;
    var c := h[|h| - 1];
    if c.ev.Piece? {
      if c.ev.off == 0 { OpeningKeeps(pol, mine, g, j, a, h); } else { ContinuingKeeps(pol, mine, g, j, a, h); }
    } else {
      WholesMore(mine, j, c);
    }
  }

  lemma {:induction false} AssembleKeeps(pol: Policy, mine: Mine, root: Visitor, log: Log, carry: Carry)
    requires Recognize(pol, root, log).Good?
    ensures Carried(mine, Recognize(pol, root, log), Join(log), Assemble(mine, carry, log))
    decreases |log|
  {
    hide Next, JoinCall, Deliver;
    if log != [] {
      var init := log[..|log| - 1];
      NextNeedsGood(pol, Recognize(pol, root, init), log);
      AssembleKeeps(pol, mine, root, init, carry);
      DeliverKeeps(pol, mine, Recognize(pol, root, init), Join(init), Assemble(mine, carry, init), log);
    }
  }

  lemma NextNeedsGood(pol: Policy, g: Grammar, h: Log)
    requires h != [] && Next(pol, g, h).Good?
    ensures g.Good?
  {
  }

  /** However the bytes of a decode are cut, and whatever the accumulator was left with, the
      payloads it hands out are, in order, exactly those the decode delivered whole. */
  lemma PayloadsReassemble(pol: Policy, mine: Mine, root: Visitor, cs: seq<Bytes>, carry: Carry)
    requires root != Nil
    ensures var log := Feeds(pol, Initial(root), cs).All();
            Assemble(mine, carry, log).payloads == Wholes(mine, Join(log))
  {
    hide Recognize, Feeds, Join, Assemble, Wholes;
    EventGrammar(pol, root, cs);
    AssembleKeeps(pol, mine, root, Feeds(pol, Initial(root), cs).All(), carry);
  }

  /** Each payload completes once, on its last piece. */
  lemma CompletesOnTheLastPiece(pol: Policy, mine: Mine, root: Visitor, cs: seq<Bytes>, carry: Carry, k: nat)
    requires root != Nil && k < |Feeds(pol, Initial(root), cs).All()|
    requires Wanted(mine, Feeds(pol, Initial(root), cs).All()[k])
    ensures var log := Feeds(pol, Initial(root), cs).All();
            var ev, p := log[k].ev, Taken(Assemble(mine, carry, log[..k]).carry, log[k].ev.total, log[k].ev.off, log[k].ev.chunk).1;
            && (p.Some? <==> ev.off + |ev.chunk| == ev.total)
            && (p.Some? ==> |p.value| == ev.total)
  {
    hide Feeds, Join, Assemble, Wholes;
    var log := Feeds(pol, Initial(root), cs).All();
    EventGrammar(pol, root, cs);
    PrefixGood(pol, root, log, k + 1);
    assert log[..k + 1][..k] == log[..k];
    NextNeedsGood(pol, Recognize(pol, root, log[..k]), log[..k + 1]);
    AssembleKeeps(pol, mine, root, log[..k], carry);
  }

  lemma {:induction false} PrefixGood(pol: Policy, root: Visitor, log: Log, k: nat)
    requires k <= |log| && Recognize(pol, root, log).Good?
    ensures Recognize(pol, root, log[..k]).Good?
    decreases |log|
  {
    hide Next;
    if k == |log| {
      assert log[..k] == log;
    } else {
      var init := log[..|log| - 1];
      NextNeedsGood(pol, Recognize(pol, root, init), log);
      PrefixGood(pol, root, init, k);
      assert init[..k] == log[..k];
    }
  }
}
