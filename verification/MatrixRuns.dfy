/** A matrix collector over whole decodes: what it ends with, from the arrays the decode
    delivered in its scope. */
module MatrixRuns {
  import opened Wire
  import opened Machine
  import opened Grammar
  import opened Placement
  import opened Storage
  import opened Matrix
  import Payload

  /** A native array as its callbacks tell it. */
  datatype Row = Row(id: int, kind: Kind, count: int, elems: seq<int>)

  /** The arrays ended in a scope, and the one under way. */
  datatype Tally = Tally(done: seq<Row>, open: Option<Row>)

  function ElementOf(ev: Event): Option<int> {
    match ev
    case ArrayUnsigned(_, _, v) => Some(v)
    case ArraySigned(_, _, s) => Some(s)
    case ArrayFloat(_, _, _, bits) => Some(bits)
    case _ => None
  }

  function TallyCall(t: Tally, v: Visitor, c: Call): Tally {
    if c.on != v then t
    else if c.ev.ArrayBegin? then t.(open := Some(Row(c.ev.id, c.ev.kind, c.ev.count, [])))
    else if t.open.None? then t
    else if c.ev.ArrayEnd? then Tally(t.done + [t.open.value], None)
    else if ElementOf(c.ev).Some? then
      t.(open := Some(t.open.value.(elems := t.open.value.elems + [ElementOf(c.ev).value])))
    else t
  }

  function Arrays(v: Visitor, log: Log): Tally {
    if log == [] then Tally([], None) else TallyCall(Arrays(v, log[..|log| - 1]), v, log[|log| - 1])
  }

  /* ----- what the collector owes ----- */

  predicate AnyRefused(elem: Element, vs: seq<int>) {
    exists i :: 0 <= i < |vs| && elem.Refuses(vs[i])
  }

  /** Another kind is never judged; the row's own kind answers to both bounds, then to the
      declared width. */
  function Judge(sp: Shape, r: Row): Option<Error> {
    if r.kind != sp.elem.Kind() then None
    else if OverIndex(AsNat(r.id), sp.count, sp.cap).Some? then OverIndex(AsNat(r.id), sp.count, sp.cap)
    else if OverLen(AsNat(r.count), sp.rowCount, sp.cap).Some? then OverLen(AsNat(r.count), sp.rowCount, sp.cap)
    else if AnyRefused(sp.elem, r.elems) then Some(InvalidMsg)
    else None
  }

  /** The first refusal. */
  function Verdict(sp: Shape, rows: seq<Row>): Option<Error> {
    if rows == [] then None
    else if Verdict(sp, rows[..|rows| - 1]).Some? then Verdict(sp, rows[..|rows| - 1])
    else Judge(sp, rows[|rows| - 1])
  }

  /** The rows of the declared kind, up to the first refusal, with the values of the wire. */
  function Accepted(sp: Shape, rows: seq<Row>): seq<Delivery<Option<seq<int>>>> {
    if rows == [] then []
    else
      var init, r := Accepted(sp, rows[..|rows| - 1]), rows[|rows| - 1];
      if Verdict(sp, rows).Some? || r.kind != sp.elem.Kind() then init else init + [At(AsNat(r.id), Some(r.elems))]
  }

  function FirstRefusal(sp: Shape, t: Tally): Option<Error> {
    if Verdict(sp, t.done).Some? then Verdict(sp, t.done)
    else if t.open.Some? then Judge(sp, t.open.value)
    else None
  }

  /* ----- the run ----- */

  datatype Run = Run(s: Building, err: Option<Error>)

  /** The decode stops at the collector's first error. */
  function Follow(sp: Shape, v: Visitor, r: Run, c: Call): Run
    requires sp.elem.Declared()
  {
    if r.err.Some? || c.on != v then r
    else var (s, e) := On(sp, r.s, c.ev); Run(s, e)
  }

  function Collect(sp: Shape, rows: Rows, v: Visitor, log: Log): Run
    requires sp.elem.Declared()
  {
    if log == [] then Run(Building(rows, false, []), None)
    else Follow(sp, v, Collect(sp, rows, v, log[..|log| - 1]), log[|log| - 1])
  }

  /** The array under way, as the callbacks, the tally and the collector see it. */
  ghost predicate UnderWay(sp: Shape, v: Visitor, g: Grammar, t: Tally, r: Run) {
    if g.Good? && g.place.Listing? && OnTop(g, v) then
      && t.open.Some? && var w := t.open.value;
      && IsId(w.id) && 0 <= w.count && w == Row(g.place.id, g.place.kind, g.place.count, w.elems)
      && (r.err.None? ==>
            && r.s.declined == (w.kind != sp.elem.Kind())
            && (!r.s.declined ==> r.s.cur == w.elems))
    else t.open.None? && (r.err.None? ==> !r.s.declined)
  }

  ghost predicate Owed(sp: Shape, rows: Rows, t: Tally, r: Run) {
    r.err == FirstRefusal(sp, t) && r.s.rows == PlaceAll(rows, None, Accepted(sp, t.done))
  }

  lemma BeginOwed(sp: Shape, rows: Rows, v: Visitor, t: Tally, r: Run, c: Call)
    requires sp.elem.Declared() && Owed(sp, rows, t, r) && t.open.None? && c.on == v && c.ev.ArrayBegin?
    ensures Owed(sp, rows, TallyCall(t, v, c), Follow(sp, v, r, c))
  {
    hide PlaceAll, Accepted, Verdict, OverIndex, OverLen;
  }

  lemma ElementOwed(sp: Shape, rows: Rows, v: Visitor, t: Tally, r: Run, c: Call)
    requires sp.elem.Declared() && Owed(sp, rows, t, r) && c.on == v && InRange(c.ev)
    requires t.open.Some? && ElementOf(c.ev).Some?
    requires t.open.value.kind == sp.elem.Kind() <==> sp.elem.ValueOf(c.ev).Some?
    requires r.err.None? ==> r.s.declined == (t.open.value.kind != sp.elem.Kind()) && (!r.s.declined ==> r.s.cur == t.open.value.elems)
    ensures var u, q := TallyCall(t, v, c), Follow(sp, v, r, c);
      && Owed(sp, rows, u, q)
      && (q.err.None? ==> q.s.declined == r.s.declined && (!q.s.declined ==> q.s.cur == u.open.value.elems))
  {
    hide PlaceAll, Accepted, Verdict, OverIndex, OverLen, Element.Narrow, Element.Declared;
    var was, x := t.open.value.elems, ElementOf(c.ev).value;
    RefusedMore(sp.elem, was, x);
    if sp.elem.ValueOf(c.ev).Some? && !sp.elem.Refuses(x) { NarrowedExactly(sp.elem, x); }
  }

  lemma RefusedMore(elem: Element, vs: seq<int>, x: int)
    ensures AnyRefused(elem, vs + [x]) <==> AnyRefused(elem, vs) || elem.Refuses(x)
  {
    hide Element.Refuses;
    if AnyRefused(elem, vs) {
      var i :| 0 <= i < |vs| && elem.Refuses(vs[i]);
      assert (vs + [x])[i] == vs[i];
    }
    assert (vs + [x])[|vs|] == x;
  }

  lemma EndOwed(sp: Shape, rows: Rows, v: Visitor, t: Tally, r: Run, c: Call)
    requires sp.elem.Declared() && Owed(sp, rows, t, r) && c.on == v && c.ev.ArrayEnd?
    requires t.open.Some? && t.open.value.id == c.ev.id
    requires r.err.None? ==> r.s.declined == (t.open.value.kind != sp.elem.Kind()) && (!r.s.declined ==> r.s.cur == t.open.value.elems)
    ensures var u, q := TallyCall(t, v, c), Follow(sp, v, r, c); Owed(sp, rows, u, q) && (q.err.None? ==> !q.s.declined)
  {
    hide OverIndex, OverLen, PlaceAt, AnyRefused;
    var w := t.open.value;
    var done := t.done + [w];
    assert done[..|done| - 1] == t.done;
    var ds := Accepted(sp, t.done);
    if FirstRefusal(sp, t).None? && w.kind == sp.elem.Kind() {
      assert Accepted(sp, done) == ds + [At(AsNat(w.id), Some(w.elems))];
      assert Accepted(sp, done)[..|ds|] == ds;
    }
  }

  lemma CallKeeps(pol: Policy, sp: Shape, rows: Rows, v: Visitor, g: Grammar, t: Tally, r: Run, h: Log)
    requires h != [] && sp.elem.Declared() && g.Good? && Next(pol, g, h).Good?
    requires UnderWay(sp, v, g, t, r) && Owed(sp, rows, t, r)
    ensures var c := h[|h| - 1];
      && UnderWay(sp, v, Next(pol, g, h), TallyCall(t, v, c), Follow(sp, v, r, c))
      && Owed(sp, rows, TallyCall(t, v, c), Follow(sp, v, r, c))
  {
    hide Owed, Judge, Verdict, Accepted, FirstRefusal, OverIndex, OverLen, Element.Narrow, Element.Declared, OnElem, OnEnd;
    var c := h[|h| - 1];
    if c.on == v {
      if c.ev.ArrayBegin? {
        BeginOwed(sp, rows, v, t, r, c);
      } else if c.ev.ArrayEnd? {
        EndOwed(sp, rows, v, t, r, c);
      } else if ElementOf(c.ev).Some? {
        ElementOwed(sp, rows, v, t, r, c);
      }
    }
  }

  lemma {:induction false} CollectKeeps(pol: Policy, root: Visitor, sp: Shape, rows: Rows, v: Visitor, log: Log)
    requires sp.elem.Declared() && Recognize(pol, root, log).Good?
    ensures UnderWay(sp, v, Recognize(pol, root, log), Arrays(v, log), Collect(sp, rows, v, log))
    ensures Owed(sp, rows, Arrays(v, log), Collect(sp, rows, v, log))
    decreases |log|
  {
    hide Next, TallyCall, Follow, Judge, Element.Declared;
    if log != [] {
      var init := log[..|log| - 1];
      var g := Recognize(pol, root, init);
      Payload.NextNeedsGood(pol, g, log);
      CollectKeeps(pol, root, sp, rows, v, init);
      CallKeeps(pol, sp, rows, v, g, Arrays(v, init), Collect(sp, rows, v, init), log);
    }
  }

  /** Over any decode, any chunking and any scope: the destination is the placement of
      exactly the rows of its kind, with the integers of the wire, that no bound refused
      before; its error is the first refusal; and rows of another kind count for nothing. */
  lemma MatrixOfADecode(pol: Policy, root: Visitor, cs: seq<Bytes>, sp: Shape, rows: Rows, v: Visitor)
    requires root != Nil && sp.elem.Declared()
    ensures var log := Feeds(pol, Initial(root), cs).All();
            var t, r := Arrays(v, log), Collect(sp, rows, v, log);
      && r.err == FirstRefusal(sp, t)
      && r.s.rows == PlaceAll(rows, None, Accepted(sp, t.done))
  {
    hide Recognize, Feeds, Arrays, Collect, PlaceAll, Accepted, FirstRefusal;
    EventGrammar(pol, root, cs);
    CollectKeeps(pol, root, sp, rows, v, Feeds(pol, Initial(root), cs).All());
  }

  /* ----- the collector itself, over a log ----- */

  /** The row under way was opened at the id its callbacks carry. */
  ghost predicate Placing(declined: bool, at: nat, v: Visitor, g: Grammar) {
    g.Good? && (if g.place.Listing? && OnTop(g, v) then declined || at == AsNat(g.place.id) else !declined)
  }

  lemma PlacingKeeps(pol: Policy, elem: Element, v: Visitor, g: Grammar, h: Log, d: bool, at: nat, d': bool, at': nat)
    requires h != [] && Placing(d, at, v, g) && Next(pol, g, h).Good?
    requires var c := h[|h| - 1];
      if c.on == v && c.ev.ArrayBegin? then if c.ev.kind == elem.Kind() then !d' && at' == AsNat(c.ev.id) else d'
      else if c.on == v && c.ev.ArrayEnd? then !d'
      else d' == d && at' == at
    ensures Placing(d', at', v, Next(pol, g, h))
  {
    hide Element.Kind, InRange;
  }

  lemma EndsWhereItBegan(pol: Policy, v: Visitor, g: Grammar, h: Log, d: bool, at: nat)
    requires h != [] && Placing(d, at, v, g) && Next(pol, g, h).Good?
    requires h[|h| - 1].on == v && h[|h| - 1].ev.ArrayEnd?
    ensures d || AsNat(h[|h| - 1].ev.id) == at
  {
    hide InRange;
  }

  method Receive(m: MatrixSeq, v: Visitor, c: Call, ghost pol: Policy, ghost h: Log, ghost g: Grammar) returns (e: Option<Error>)
    requires m.Valid() && m.sp.elem.Declared() && h != [] && c == h[|h| - 1] && Next(pol, g, h).Good?
    requires Placing(m.declined, m.at, v, g)
    modifies m, m.store
    ensures m.Valid() && Run(m.State(), e) == Follow(m.sp, v, Run(old(m.State()), None), c)
    ensures e.None? ==> Placing(m.declined, m.at, v, Next(pol, g, h))
  {
    hide Next, Placing, OverIndex, OverLen, Element.Declared, PlaceAt, Element.ValueOf;
    ghost var d, at := m.declined, m.at;
    e := None;
    if c.on == v {
      if c.ev.ArrayEnd? { EndsWhereItBegan(pol, v, g, h, d, at); }
      e := m.Receive(c.ev);
    }
    if e.None? { PlacingKeeps(pol, m.sp.elem, v, g, h, d, at, m.declined, m.at); }
  }

  /** A whole log through the collector, which stops at its first error. */
  method Drive(m: MatrixSeq, v: Visitor, log: Log, ghost pol: Policy, ghost root: Visitor) returns (e: Option<Error>)
    requires m.Valid() && m.sp.elem.Declared() && Recognize(pol, root, log).Good?
    requires !m.declined && m.State().cur == []
    modifies m, m.store
    ensures m.Valid() && Run(m.State(), e) == Collect(m.sp, old(m.State()).rows, v, log)
  {
    hide Next, Follow, Element.Declared, OnTop;
    ghost var rows := m.State().rows;
    e := None;
    RecognizeNothing(pol, root);
    assert Placing(m.declined, m.at, v, Good(Between, [root], [false]));
    for i := 0 to |log|
      invariant m.Valid() && Run(m.State(), e) == Collect(m.sp, rows, v, log[..i])
      invariant e.None? ==> Placing(m.declined, m.at, v, Recognize(pol, root, log[..i]))
    {
      assert log[..i + 1][..i] == log[..i];
      if e.None? {
        Payload.PrefixGood(pol, root, log, i + 1);
        e := Receive(m, v, log[i], pol, log[..i + 1], Recognize(pol, root, log[..i]));
      } else {
        Stopped(m.sp, v, Collect(m.sp, rows, v, log[..i]), log[i]);
      }
    }
    assert log[..|log|] == log;
  }

  lemma Stopped(sp: Shape, v: Visitor, r: Run, c: Call)
    requires sp.elem.Declared() && r.err.Some?
    ensures Follow(sp, v, r, c) == r
  {
  }

  /** Decoding into a destination truncated over an earlier decode's storage gives what
      decoding into a new one gives, nil rows and empty rows told apart. */
  method ReuseIsFresh(used: Store<int>, sp: Shape, v: Visitor, log: Log, ghost pol: Policy, ghost root: Visitor)
    returns (again: MatrixSeq, first: MatrixSeq, e: Option<Error>, f: Option<Error>)
    requires used.Valid() && sp.elem.Declared() && Recognize(pol, root, log).Good?
    modifies used
    ensures again.store == used && again.Valid() && first.Valid()
    ensures e == f && used.Contents() == first.store.Contents()
    ensures used.Contents() == Collect(sp, [], v, log).s.rows
  {
    hide Collect, Recognize, Element.Declared;
    used.Truncate();
    again := new MatrixSeq(sp, used);
    e := Drive(again, v, log, pol, root);
    var store := new Store<int>(used.zero, used.slack);
    first := new MatrixSeq(sp, store);
    f := Drive(first, v, log, pol, root);
  }
}
