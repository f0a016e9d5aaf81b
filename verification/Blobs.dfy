/** collectors.go: the blob-array collector, payloads assembled and placed by id. */
module Blobs {
  import opened Wire
  import opened Machine
  import opened Grammar
  import opened Chunking
  import opened Placement
  import opened Payload
  import opened Storage
  import opened Heard
  import opened Patience
  import Matrix

  /** The bounds of the array and of an element, the schema's and the receiver's. */
  datatype Bounds = Bounds(count: int, elemLen: int, countCap: int, lenCap: int)

  function Bounded(bs: Bounds, id: nat, total: nat): Option<Error> {
    if OverIndex(id, bs.count, bs.countCap).Some? then OverIndex(id, bs.count, bs.countCap)
    else OverLen(total, bs.elemLen, bs.lenCap)
  }

  type Rows = seq<Option<Bytes>>

  /** A stored blob: an empty one is nil. */
  function Stored(b: Bytes): Option<Bytes> { if b == [] then None else Some(b) }

  /** A collector without its storage. */
  datatype Filling = Filling(rows: Rows, carry: Carry)

  function OnPiece(bs: Bounds, s: Filling, id: nat, total: nat, off: nat, chunk: Bytes): (Filling, Option<Error>) {
    if Bounded(bs, id, total).Some? then (s, Bounded(bs, id, total))
    else
      var (carry, p) := Taken(s.carry, total, off, chunk);
      (Filling(if p.Some? then PlaceAt(s.rows, None, id, Stored(p.value)) else s.rows, carry), None)
  }

  function On(bs: Bounds, s: Filling, ev: Event): (Filling, Option<Error>) {
    if ev.FixlenBegin? && ev.sub.Blob? then (s, Bounded(bs, Matrix.AsNat(ev.id), Matrix.AsNat(ev.total)))
    else if ev.Piece? && ev.sub.Blob? then OnPiece(bs, s, Matrix.AsNat(ev.id), Matrix.AsNat(ev.total), ev.off, ev.chunk)
    else (s, None)
  }

  class BlobSeq {
    const bs: Bounds
    const store: Store<Byte>
    const acc: PayloadAcc

    ghost predicate Valid()
      reads store
    {
      store.Valid()
    }

    ghost function State(): Filling
      reads store, acc
    {
      Filling(store.Contents(), acc.State())
    }

    constructor (bs: Bounds, store: Store<Byte>)
      requires store.Valid()
      ensures Valid() && this.bs == bs && this.store == store && fresh(acc) && State() == Filling(store.Contents(), IDLE)
    {
      this.bs, this.store := bs, store;
      acc := new PayloadAcc();
    }

    /** Both bounds at the length word, for an element of the declared type only. */
    method FixlenBegin(id: nat, sub: Subtype, total: nat) returns (e: Option<Error>)
      ensures e == if sub.Blob? then Bounded(bs, id, total) else None
      ensures sub.Blob? ==>
                && (e.None? <==>
                      id < Governing(bs.count, bs.countCap) && 0 < Governing(bs.elemLen, bs.lenCap) && total <= Governing(bs.elemLen, bs.lenCap))
                && (id >= Governing(bs.count, bs.countCap) ==> e == OverIndex(id, bs.count, bs.countCap))
    {
      IndexBound(id, bs.count, bs.countCap);
      LengthBound(total, bs.elemLen, bs.lenCap);
      e := None;
      if sub.Blob? {
        e := OverIndex(id, bs.count, bs.countCap);
        if e.None? { e := OverLen(total, bs.elemLen, bs.lenCap); }
      }
    }

    /** Assemble an element and, with its last piece, place it at its id. */
    method Bytes(id: nat, total: nat, off: nat, chunk: Bytes) returns (e: Option<Error>)
      requires Valid()
      modifies store, acc
      ensures Valid() && (State(), e) == OnPiece(bs, old(State()), id, total, off, chunk)
      ensures e.Some? ==> unchanged(store) && unchanged(acc)
    {
      e := OverIndex(id, bs.count, bs.countCap);
      if e.Some? { return; }
      e := OverLen(total, bs.elemLen, bs.lenCap);
      if e.Some? { return; }
      var p := acc.Take(total, off, chunk);
      if p.Some? { store.PutBlob(id, bs.count, p.value, off > 0); }
    }

    /** A callback; those the collector does not override do nothing. */
    method Receive(ev: Event) returns (e: Option<Error>)
      requires Valid()
      modifies store, acc
      ensures Valid() && (State(), e) == On(bs, old(State()), ev)
    {
      e := None;
      if ev.FixlenBegin? {
        e := FixlenBegin(Matrix.AsNat(ev.id), ev.sub, Matrix.AsNat(ev.total));
      } else if ev.Piece? && ev.sub.Blob? {
        e := Bytes(Matrix.AsNat(ev.id), Matrix.AsNat(ev.total), ev.off, ev.chunk);
      }
    }
  }

  /* ----- over a decode ----- */

  datatype Run = Run(s: Filling, err: Option<Error>)

  function InScope(v: Visitor): Mine { (w: Visitor, sub: Subtype) => w == v && sub == Blob }

  function Follow(bs: Bounds, v: Visitor, r: Run, c: Call): Run {
    if r.err.Some? || c.on != v then r
    else var (s, e) := On(bs, r.s, c.ev); Run(s, e)
  }

  /** The decode stops at the collector's first error. */
  function Collect(bs: Bounds, s: Filling, v: Visitor, log: Log): Run {
    if log == [] then Run(s, None) else Follow(bs, v, Collect(bs, s, v, log[..|log| - 1]), log[|log| - 1])
  }

  function Deliveries(ps: seq<(int, Bytes)>): seq<Delivery<Option<Bytes>>> {
    seq(|ps|, i requires 0 <= i < |ps| => At(Matrix.AsNat(ps[i].0), Stored(ps[i].1)))
  }

  /** A call in the scope of `v` that announces a blob out of bounds, and its error. */
  function Breach(bs: Bounds, v: Visitor, c: Call): Option<Error> {
    if c.on == v && c.ev.FixlenBegin? && c.ev.sub.Blob? then Bounded(bs, Matrix.AsNat(c.ev.id), Matrix.AsNat(c.ev.total)) else None
  }

  /** The calls before the first such announcement. */
  function Kept(bs: Bounds, v: Visitor, log: Log): (k: nat)
    ensures k <= |log| && (k < |log| ==> Breach(bs, v, log[k]).Some?)
    ensures forall i: nat :: i < k ==> Breach(bs, v, log[i]).None?
  {
    if log == [] then 0
    else
      var k := Kept(bs, v, log[..|log| - 1]);
      if k < |log| - 1 || Breach(bs, v, log[|log| - 1]).Some? then k else |log|
  }

  /** A payload under way keeps to the bounds, and the collector holds what it was given. */
  ghost predicate Tracks(bs: Bounds, s: Filling, v: Visitor, g: Grammar, a: Assembly, r: Run) {
    r.err.None? ==>
      && (g.Good? && g.place.Paying? && OnTop(g, v) && g.place.sub.Blob? ==>
            Bounded(bs, Matrix.AsNat(g.place.id), Matrix.AsNat(g.place.total)).None?)
      && (g.Good? && g.place.Paying? ==> g.place.total >= 0)
      && r.s.carry == a.carry && r.s.rows == PlaceAll(s.rows, None, Deliveries(a.payloads))
  }

  lemma DeliveriesMore(xs: Rows, ps: seq<(int, Bytes)>, p: (int, Bytes))
    ensures PlaceAll(xs, None, Deliveries(ps + [p])) ==
            PlaceAt(PlaceAll(xs, None, Deliveries(ps)), None, Matrix.AsNat(p.0), Stored(p.1))
  {
    var ds := Deliveries(ps + [p]);
    assert ds[..|ds| - 1] == Deliveries(ps);
  }

  lemma CallTracks(pol: Policy, bs: Bounds, s: Filling, v: Visitor, g: Grammar, a: Assembly, r: Run, h: Log)
    requires h != [] && Next(pol, g, h).Good? && g.Good? && Tracks(bs, s, v, g, a, r)
    ensures var c := h[|h| - 1];
      && Tracks(bs, s, v, Next(pol, g, h), Deliver(InScope(v), a, c), Follow(bs, v, r, c))
      && (r.err.None? ==> Follow(bs, v, r, c).err == Breach(bs, v, c))
      && (r.err.None? && Breach(bs, v, c).Some? ==> Follow(bs, v, r, c).s.rows == r.s.rows)
  {
    hide OverIndex, OverLen, PlaceAt, PlaceAll, Deliveries, Bounded;
    var c := h[|h| - 1];
    if Wanted(InScope(v), c) {
      var p := Taken(a.carry, c.ev.total, c.ev.off, c.ev.chunk).1;
      if p.Some? { DeliveriesMore(s.rows, a.payloads, (c.ev.id, p.value)); }
    }
  }

  /** The first breach ends the run with its error, and the rows as they were before it. */
  lemma {:induction false} CollectTracks(pol: Policy, root: Visitor, bs: Bounds, s: Filling, v: Visitor, log: Log)
    requires Recognize(pol, root, log).Good?
    ensures Tracks(bs, s, v, Recognize(pol, root, log), Assemble(InScope(v), s.carry, log), Collect(bs, s, v, log))
    ensures var r, k := Collect(bs, s, v, log), Kept(bs, v, log);
      && r.err == (if k < |log| then Breach(bs, v, log[k]) else None)
      && r.s.rows == Collect(bs, s, v, log[..k]).s.rows
    decreases |log|
  {
    hide Next, Follow, Deliver, Breach, PlaceAt, PlaceAll, Deliveries;
    if log == [] {
      NothingYet(s);
    } else {
      var init, c := log[..|log| - 1], log[|log| - 1];
      var g := Recognize(pol, root, init);
      NextNeedsGood(pol, g, log);
      CollectTracks(pol, root, bs, s, v, init);
      var r := Collect(bs, s, v, init);
      CallTracks(pol, bs, s, v, g, Assemble(InScope(v), s.carry, init), r, log);
      assert log[..|log|] == log;
      var k := Kept(bs, v, init);
      if k < |init| {
        assert log[..k] == init[..k] && log[k] == init[k];
        Stopped(bs, v, r, c);
      } else {
        assert init[..k] == init;
      }
    }
  }

  lemma NothingYet(s: Filling)
    ensures PlaceAll(s.rows, None, Deliveries([])) == s.rows
  {
    assert Deliveries([]) == [];
  }

  lemma Stopped(bs: Bounds, v: Visitor, r: Run, c: Call)
    requires r.err.Some?
    ensures Follow(bs, v, r, c) == r
  {
  }

  /** Over any decode, any chunking and any scope, from any left-over carry: the error is
      that of the first announced blob to break a bound, at its length word; and the
      destination is the placement, by id, of exactly the payloads delivered whole
      before it. */
  lemma BlobsOfADecode(pol: Policy, root: Visitor, cs: seq<Bytes>, bs: Bounds, s: Filling, v: Visitor)
    requires root != Nil
    ensures var log := Feeds(pol, Initial(root), cs).All();
            var r, k := Collect(bs, s, v, log), Kept(bs, v, log);
      && r.err == (if k < |log| then Breach(bs, v, log[k]) else None)
      && r.s.rows == PlaceAll(s.rows, None, Deliveries(Wholes(InScope(v), Join(log[..k]))))
  {
    hide Recognize, Feeds, Collect, Assemble, Wholes, Join, PlaceAll, Deliveries, Breach;
    var log := Feeds(pol, Initial(root), cs).All();
    var k := Kept(bs, v, log);
    EventGrammar(pol, root, cs);
    CollectTracks(pol, root, bs, s, v, log);
    PrefixGood(pol, root, log, k);
    CollectTracks(pol, root, bs, s, v, log[..k]);
    KeptAll(bs, v, log[..k]);
    AssembleKeeps(pol, InScope(v), root, log[..k], s.carry);
  }

  lemma KeptAll(bs: Bounds, v: Visitor, log: Log)
    requires forall i: nat :: i < |log| ==> Breach(bs, v, log[i]).None?
    ensures Kept(bs, v, log) == |log|
  {
    hide Breach;
  }

  /* ----- the collector itself, over a log ----- */

  method Drive(b: BlobSeq, v: Visitor, log: Log) returns (e: Option<Error>)
    requires b.Valid()
    modifies b.store, b.acc
    ensures b.Valid() && Run(b.State(), e) == Collect(b.bs, old(b.State()), v, log)
  {
    hide On;
    ghost var s := b.State();
    e := None;
    for i := 0 to |log|
      invariant b.Valid() && Run(b.State(), e) == Collect(b.bs, s, v, log[..i])
    {
      assert log[..i + 1][..i] == log[..i];
      if e.None? && log[i].on == v { e := b.Receive(log[i].ev); }
    }
    assert log[..|log|] == log;
  }

  /** Decoding blobs into a destination truncated over an earlier decode's storage gives what
      decoding into a new one gives, nil and non-empty told apart. */
  method ReuseIsFresh(used: Store<Byte>, bs: Bounds, v: Visitor, log: Log)
    returns (first: Store<Byte>, e: Option<Error>, f: Option<Error>)
    requires used.Valid()
    modifies used
    ensures used.Valid() && first.Valid()
    ensures e == f == Collect(bs, Filling([], IDLE), v, log).err
    ensures used.Contents() == first.Contents() == Collect(bs, Filling([], IDLE), v, log).s.rows
  {
    hide Collect;
    used.Truncate();
    var again := new BlobSeq(bs, used);
    e := Drive(again, v, log);
    first := new Store<Byte>(used.zero, used.slack);
    var other := new BlobSeq(bs, first);
    f := Drive(other, v, log);
  }

  /* ----- the collector as a visitor ----- */

  predicate Collected(v: Visitor, c: Call) {
    c.on == v && ((c.ev.FixlenBegin? && c.ev.sub.Blob?) || (c.ev.Piece? && c.ev.sub.Blob?))
  }

  /** Visitors of which `v` is a blob collector, with the collector's own errors. */
  function Collecting(bs: Bounds, v: Visitor, others: Policy): Policy {
    Policy((h: Log) => if h != [] && Collected(v, h[|h| - 1]) then On(bs, Filling([], IDLE), h[|h| - 1].ev).1 else others.refuse(h),
           others.child, others.takesCheck)
  }

  /** The error depends on nothing the collector holds. */
  lemma ErrorOfACall(bs: Bounds, s: Filling, v: Visitor, c: Call)
    requires Collected(v, c)
    ensures On(bs, s, c.ev).1 == Bounded(bs, Matrix.AsNat(c.ev.id), Matrix.AsNat(c.ev.total))
  {
    hide Bounded;
  }

  /** In a payload it was asked about, the collector refuses no piece. */
  lemma NoPieceRefused(bs: Bounds, v: Visitor, others: Policy, root: Visitor, cs: seq<Bytes>, k: nat)
    requires root != Nil && 0 < k <= |Decode(Collecting(bs, v, others), root, cs).All()|
    requires var c := Decode(Collecting(bs, v, others), root, cs).All()[k - 1]; Collected(v, c) && c.ev.Piece?
    ensures Collecting(bs, v, others).refuse(Decode(Collecting(bs, v, others), root, cs).All()[..k]) == None
  {
    hide Recognize, Feeds, Collect, Assemble, Bounded, Deliveries, PlaceAll, On;
    var pol := Collecting(bs, v, others);
    var n := Feeds(pol, Initial(root), cs);
    var log, h := n.All(), n.All()[..k - 1];
    EventGrammar(pol, root, cs);
    FeedsAsk(pol, pol, Initial(root), cs);
    PrefixGood(pol, root, log, k);
    PrefixGood(pol, root, log, k - 1);
    forall i: nat | i < |h| ensures Breach(bs, v, h[i]).None? {
      assert Answered(pol, n, i + 1);
      assert log[..i + 1][i] == h[i];
      if Breach(bs, v, h[i]).Some? { ErrorOfACall(bs, Filling([], IDLE), v, h[i]); }
    }
    KeptAll(bs, v, h);
    CollectTracks(pol, root, bs, Filling([], IDLE), v, h);
    assert log[..k][..k - 1] == h && log[..k][k - 1] == log[k - 1];
    RecognizeAppend(pol, root, h, log[k - 1]);
    assert h + [log[k - 1]] == log[..k];
    ErrorOfACall(bs, Filling([], IDLE), v, log[k - 1]);
  }

  /** A blob collector among visitors that cannot see cuts is a patient visitor: its bounds
      are settled at the length word, so it never refuses a piece. */
  lemma CollectorIsPatient(bs: Bounds, v: Visitor, others: Policy, root: Visitor)
    requires CutBlind(others) && root != Nil
    ensures Patient(Collecting(bs, v, others), Initial(root))
  {
    hide Feeds, Explode, Bounded, Unfinished, On, CutBlind;
    var pol := Collecting(bs, v, others);
    forall cs: seq<Bytes>, k: nat | 0 < k <= |Feeds(pol, Initial(root), cs).All()|
      ensures CutBlindAt(pol, Feeds(pol, Initial(root), cs).All()[..k])
    {
      var log := Feeds(pol, Initial(root), cs).All();
      var h, c := log[..k], log[k - 1];
      assert h == log[..k - 1] + [c] && h[k - 1] == c;
      LastOfExplode(log[..k - 1], c);
      assert CutBlindAt(others, h) by { BlindThere(others, h); }
      if Collected(v, c) {
        var e := Explode(h);
        ErrorOfACall(bs, Filling([], IDLE), v, c);
        ErrorOfACall(bs, Filling([], IDLE), v, e[|e| - 1]);
        if c.ev.Piece? { NoPieceRefused(bs, v, others, root, cs, k); } else { FinishedBegin(c.ev); }
      }
    }
  }

  lemma BlindThere(pol: Policy, h: Log)
    requires CutBlind(pol)
    ensures CutBlindAt(pol, h)
  {
  }

  lemma FinishedBegin(ev: Event)
    requires !ev.Piece?
    ensures !Unfinished(ev)
  {
  }
}
