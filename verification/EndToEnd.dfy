/** The encoder's bytes in the decoder: unfinished messages, whole messages, any cut. */
module EndToEnd {
  import opened Wire
  import opened Machine
  import opened FastPaths
  import opened Serializer
  import opened RoundTrip
  import opened Completion
  import opened Chunking
  import opened Patience
  import Frames

  /* ----- what an encoder's trace builds is sound and bounded ----- */

  function Height(nodes: seq<Node>): nat {
    if nodes == [] then 0 else Max(HeightOf(nodes[0]), Height(nodes[1..]))
  }

  function HeightOf(n: Node): nat {
    if n.Sequence? then 1 + Height(n.kids) else 0
  }

  function Max(a: nat, b: nat): nat { if a > b then a else b }

  /** The argument of a call has a type of the encoder's interface. */
  ghost predicate TypedOps(ops: seq<Op>) {
    forall i :: 0 <= i < |ops| && ops[i].Put? ==> ops[i].value.Typed()
  }

  /** Every level holds what an encoder may write there. */
  ghost predicate SoundDraft(d: Draft, max: nat) {
    && 1 <= |d| <= max + 1
    && forall i :: 0 <= i < |d| ==> d[i].id <= ID_MAX && Sound(d[i].kids) && i + Height(d[i].kids) <= max
  }

  lemma {:induction false} HeightAppend(a: seq<Node>, n: Node)
    ensures Height(a + [n]) == Max(Height(a), HeightOf(n))
    decreases |a|
  {
    hide HeightOf;
    if a == [] {
      assert a + [n] == [n] && [n][1..] == [];
      assert Height([]) == 0;
    } else {
      assert (a + [n])[1..] == a[1..] + [n];
      HeightAppend(a[1..], n);
    }
  }

  lemma AddSound(d: Draft, n: Node, max: nat)
    requires SoundDraft(d, max) && SoundNode(n) && |d| - 1 + HeightOf(n) <= max
    ensures SoundDraft(AddTo(d, n), max)
  {
    hide SoundNode, Height, HeightOf;
    HeightAppend(d[|d| - 1].kids, n);
  }

  lemma GrowSound(lim: Limits, e: Encoding, d: Draft, op: Op)
    requires SoundDraft(d, lim.maxDepth) && e.depth == |d| - 1 && !Refused(lim, e, op) && (op.Put? ==> op.value.Typed())
    ensures SoundDraft(Grow(d, op), lim.maxDepth)
  {
    match op
    case Put(id, value) => AddSound(d, Field(id, value), lim.maxDepth);
    case Begin(id) =>
    case End => CloseSound(d, false, lim.maxDepth);
    case EndKeep => CloseSound(d, true, lim.maxDepth);
  }

  lemma CloseSound(d: Draft, keep: bool, max: nat)
    requires SoundDraft(d, max) && |d| >= 2
    ensures SoundDraft(CloseLevel(d, keep), max)
  {
    hide Height;
    AddSound(d[..|d| - 1], Sequence(d[|d| - 1].id, d[|d| - 1].kids, keep), max);
  }

  lemma {:induction false} TraceSound(lim: Limits, ops: seq<Op>)
    requires TypedOps(ops) && ApplyAll(lim, EMPTY, ops).err.None?
    ensures SoundDraft(Build(ops), lim.maxDepth)
    decreases |ops|
  {
    hide SoundDraft, Grow, Tracks, Refused;
    if ops == [] {
      EmptySound(lim.maxDepth);
    } else {
      var init, op := ops[..|ops| - 1], ops[|ops| - 1];
      TraceSound(lim, init);
      LazyFramingIsPruning(lim, init);
      TracksDepth(ApplyAll(lim, EMPTY, init), Build(init));
      GrowSound(lim, ApplyAll(lim, EMPTY, init), Build(init), op);
    }
  }

  lemma EmptySound(max: nat)
    ensures SoundDraft([Level(0, [])], max)
  {
  }

  lemma TracksDepth(e: Encoding, d: Draft)
    requires Tracks(e, d)
    ensures e.depth == |d| - 1 && e.pending == Held(d) && e.out == Full(Sent(d))
  {
  }

  lemma {:induction false} PruneSound(nodes: seq<Node>)
    requires Sound(nodes)
    ensures Sound(Prune(nodes)) && Height(Prune(nodes)) <= Height(nodes)
    decreases nodes, 1
  {
    if nodes != [] {
      PruneNodeSound(nodes[0]);
      PruneSound(nodes[1..]);
      hide PruneNode, HeightOf, SoundNode;
      var a, b := PruneNode(nodes[0]), Prune(nodes[1..]);
      if a != [] {
        assert a == [a[0]] && (a + b)[1..] == b;
      } else {
        assert a + b == b;
      }
    }
  }

  lemma {:induction false} PruneNodeSound(n: Node)
    requires SoundNode(n)
    ensures var p := PruneNode(n); |p| <= 1 && Sound(p) && (p != [] ==> HeightOf(p[0]) <= HeightOf(n))
    decreases n, 0
  {
    if n.Sequence? { PruneSound(n.kids); }
  }

  /* ----- unfinished messages ----- */

  /** The visitors taken through an unfinished message, its last scopes left open. */
  function WalkDraft(pol: Policy, m: Machine, d: Draft): Machine {
    if d == [] then m
    else if |d| == 1 then Walk(pol, m, Prune(d[0].kids))
    else
      var outer := WalkDraft(pol, m, d[..|d| - 1]);
      if outer.Failed? then outer else Walk(pol, Opened(pol, outer, d[|d| - 1].id), Prune(d[|d| - 1].kids))
  }

  lemma {:induction false} WalkDraftRests(pol: Policy, m: Machine, d: Draft)
    requires AtRest(m)
    ensures AtRest(WalkDraft(pol, m, d))
    decreases |d|
  {
    hide Walk, Opened, AtRest, Prune;
    if |d| == 1 {
      WalkKeeps(pol, m, Prune(d[0].kids));
    } else if d != [] {
      WalkDraftRests(pol, m, d[..|d| - 1]);
      var outer := WalkDraft(pol, m, d[..|d| - 1]);
      if outer.Live? {
        OpenedKeeps(pol, outer, d[|d| - 1].id);
        WalkKeeps(pol, Opened(pol, outer, d[|d| - 1].id), Prune(d[|d| - 1].kids));
      }
    }
  }

  lemma {:induction false} DraftDecodes(pol: Policy, m: Machine, d: Draft, max: nat, rest: Bytes)
    requires m.Live? && AtRest(m) && SoundDraft(d, max)
    ensures Chunk(pol, m, Full(d) + rest) == Chunk(pol, WalkDraft(pol, m, d), rest)
    decreases |d|
  {
    hide Walk, Opened, AtRest, Prune, Chunk, Ser, Head, Height;
    var last := d[|d| - 1];
    PruneSound(last.kids);
    if |d| == 1 {
      TreeDecodes(pol, m, Prune(last.kids), rest);
    } else {
      var init := d[..|d| - 1];
      var more := Ser(Prune(last.kids)) + rest;
      assert Full(d) + rest == Full(init) + (Head(last.id, T_SEQUENCE_START) + more);
      DraftDecodes(pol, m, init, max, Head(last.id, T_SEQUENCE_START) + more);
      WalkDraftRests(pol, m, init);
      var outer := WalkDraft(pol, m, init);
      if outer.Failed? {
        ChunkFailed(pol, outer, Head(last.id, T_SEQUENCE_START) + more);
        ChunkFailed(pol, outer, rest);
      } else {
        BeginDecodes(pol, outer, last.id, more);
        OpenedKeeps(pol, outer, last.id);
        TreeDecodes(pol, Opened(pol, outer, last.id), Prune(last.kids), rest);
      }
    }
  }

  lemma BeginDecodes(pol: Policy, m: Machine, id: nat, rest: Bytes)
    requires m.Live? && AtRest(m) && id <= ID_MAX
    ensures Chunk(pol, m, Head(id, T_SEQUENCE_START) + rest) == Chunk(pol, Opened(pol, m, id), rest)
  {
    hide Opened, Chunk, Head;
    HeadChunk(pol, m, id, T_SEQUENCE_START, rest);
  }

  /** Visitors that never refuse are taken through the whole tree. */
  lemma {:induction false} WalkTolerated(pol: Policy, m: Machine, nodes: seq<Node>)
    requires Tolerant(pol) && m.Live? && AtRest(m) && m.Depth() + Height(nodes) <= MAX_DEPTH
    ensures Walk(pol, m, nodes).Live?
    decreases nodes, 1
  {
    if nodes != [] {
      WalkNodeTolerated(pol, m, nodes[0]);
      WalkNodeKeeps(pol, m, nodes[0]);
      hide WalkNode, AtRest, Tolerant, HeightOf;
      WalkTolerated(pol, WalkNode(pol, m, nodes[0]), nodes[1..]);
    }
  }

  lemma {:induction false} WalkNodeTolerated(pol: Policy, m: Machine, n: Node)
    requires Tolerant(pol) && m.Live? && AtRest(m) && m.Depth() + HeightOf(n) <= MAX_DEPTH
    ensures WalkNode(pol, m, n).Live?
    decreases n, 0
  {
    hide Tolerant, TellAll, TellPolicy, Opened, Closed;
    match n
    case Field(id, value) =>
      PolicyKeeps(pol, m);
      TellAllTolerated(pol, if value.VText? then TellPolicy(pol, m, Str) else m, EventsOf(id, value));
    case Sequence(id, kids, _) =>
      OpenTolerated(pol, m, id);
      OpenedKeeps(pol, m, id);
      var k := Opened(pol, m, id);
      WalkTolerated(pol, k, kids);
      WalkKeeps(pol, k, kids);
      CloseTolerated(pol, Walk(pol, k, kids));
  }

  lemma {:induction false} TellAllTolerated(pol: Policy, m: Machine, evs: seq<Event>)
    requires Tolerant(pol) && m.Live?
    ensures TellAll(pol, m, evs).Live?
    decreases |evs|
  {
    hide Tell, Tolerant;
    if evs != [] {
      TellAccepted(pol, m, evs[0]);
      TellAllTolerated(pol, Tell(pol, m, evs[0]), evs[1..]);
    }
  }

  lemma OpenTolerated(pol: Policy, m: Machine, id: int)
    requires Tolerant(pol) && m.Live? && m.Depth() < MAX_DEPTH
    ensures Opened(pol, m, id).Live?
  {
  }

  lemma CloseTolerated(pol: Policy, m: Machine)
    requires Tolerant(pol) && m.Live? && m.Depth() > 0 && m.told != []
    ensures Closed(pol, m).Live?
  {
  }

  lemma {:induction false} DraftTolerated(pol: Policy, m: Machine, d: Draft, max: nat)
    requires Tolerant(pol) && m.Live? && AtRest(m) && m.Depth() == 0 && SoundDraft(d, max) && max <= MAX_DEPTH
    ensures var n := WalkDraft(pol, m, d); n.Live? && AtRest(n) && n.Depth() == |d| - 1
    decreases |d|
  {
    hide Walk, Opened, Prune, Tolerant, Height;
    var last := d[|d| - 1];
    PruneSound(last.kids);
    if |d| == 1 {
      WalkTolerated(pol, m, Prune(last.kids));
      WalkKeeps(pol, m, Prune(last.kids));
    } else {
      var outer := WalkDraft(pol, m, d[..|d| - 1]);
      DraftTolerated(pol, m, d[..|d| - 1], max);
      OpenTolerated(pol, outer, last.id);
      OpenedKeeps(pol, outer, last.id);
      var k := Opened(pol, outer, last.id);
      WalkTolerated(pol, k, Prune(last.kids));
      WalkKeeps(pol, k, Prune(last.kids));
    }
  }

  lemma SentSound(d: Draft, max: nat)
    requires SoundDraft(d, max)
    ensures SoundDraft(Sent(d), max) && |Sent(d)| == |d| - |Held(d)|
  {
    hide Sound, Height, Held;
    HeldBound(d);
  }

  /** After any error-free calls, balanced or not, visitors that never refuse find the
      bytes emitted so far valid, in any pieces, at the encoder's depth less its held-back
      headers, and Complete exactly when that is zero. */
  lemma EncoderDecoderCoupling(lim: Limits, ops: seq<Op>, pol: Policy, root: Visitor, cs: seq<Bytes>)
    requires TypedOps(ops) && lim.maxDepth <= MAX_DEPTH && ApplyAll(lim, EMPTY, ops).err.None?
    requires Tolerant(pol) && root != Nil && Flatten(cs) == ApplyAll(lim, EMPTY, ops).out
    ensures var e, n := ApplyAll(lim, EMPTY, ops), Feeds(pol, Initial(root), cs);
      && n.Live? && n.Depth() == e.depth - |e.pending|
      && (OutcomeOf(n) == Complete <==> e.depth == |e.pending|)
  {
    hide Tolerant, Chunk, Feeds, WalkDraft, Full, Sent, Held, Build, ApplyAll, SoundDraft, Tracks;
    var m, out := Initial(root), ApplyAll(lim, EMPTY, ops).out;
    FreshFits();
    WholeCoupling(lim, ops, pol, root);
    FeedsMore(pol, m, [], out);
    Frames.ToleranceIgnoresCuts(pol, m, [out], cs);
  }

  lemma WholeCoupling(lim: Limits, ops: seq<Op>, pol: Policy, root: Visitor)
    requires TypedOps(ops) && lim.maxDepth <= MAX_DEPTH && ApplyAll(lim, EMPTY, ops).err.None?
    requires Tolerant(pol) && root != Nil
    ensures var e, n := ApplyAll(lim, EMPTY, ops), Chunk(pol, Initial(root), ApplyAll(lim, EMPTY, ops).out);
      && n.Live? && n.Depth() == e.depth - |e.pending|
      && (OutcomeOf(n) == Complete <==> e.depth == |e.pending|)
  {
    hide Tolerant, Chunk, WalkDraft, Full, Sent, Held, Build, ApplyAll, SoundDraft, Tracks;
    var e, d := ApplyAll(lim, EMPTY, ops), Build(ops);
    LazyFramingIsPruning(lim, ops);
    TracksDepth(e, d);
    TraceSound(lim, ops);
    SentSound(d, lim.maxDepth);
    FreshFits();
    var m := Initial(root);
    DraftDecodes(pol, m, Sent(d), lim.maxDepth, []);
    DraftTolerated(pol, m, Sent(d), lim.maxDepth);
    assert Full(Sent(d)) + [] == e.out;
    ChunkStops(pol, WalkDraft(pol, m, Sent(d)), []);
  }

  /* ----- whole messages ----- */

  /** Any balanced trace, any visitors that cannot see cuts, any cutting of the bytes:
      the decode is the walk of the pruned tree. */
  lemma Delivered(lim: Limits, ops: seq<Op>, pol: Policy, root: Visitor, cs: seq<Bytes>)
    requires TypedOps(ops) && lim.maxDepth <= MAX_DEPTH && ApplyAll(lim, EMPTY, ops).err.None? && ApplyAll(lim, EMPTY, ops).depth == 0
    requires Patient(pol, Initial(root)) && root != Nil && Flatten(cs) == ApplyAll(lim, EMPTY, ops).out
    ensures |Build(ops)| == 1
    ensures var a, w := Feeds(pol, Initial(root), cs), Walk(pol, Initial(root), Prune(Build(ops)[0].kids));
      Normal(a) == Normal(w) && Join(a.All()) == Join(w.All()) && OutcomeOf(a) == OutcomeOf(w)
  {
    hide Patient, Chunk, Walk, Prune, Ser, Build, ApplyAll, SoundDraft, Tracks, Explode, Join, OutcomeOf, Height;
    var out := ApplyAll(lim, EMPTY, ops).out;
    BalancedOutput(lim, ops);
    TraceSound(lim, ops);
    var kids := Build(ops)[0].kids;
    DraftKidsSound(Build(ops), lim.maxDepth);
    PruneSound(kids);
    FreshFits();
    var m := Initial(root);
    TreeDecodes(pol, m, Prune(kids), []);
    assert Ser(Prune(kids)) + [] == out;
    var w := Walk(pol, m, Prune(kids));
    ChunkStops(pol, w, []);
    FeedsMore(pol, m, [], out);
    ChunkInvariance(pol, m, cs, [out]);
  }

  lemma DraftKidsSound(d: Draft, max: nat)
    requires SoundDraft(d, max)
    ensures Sound(d[0].kids) && Height(d[0].kids) <= max
  {
  }

  /* ----- the visitors that take everything ----- */

  /** Accepts every callback and every scope, the nested ones on one handle. */
  function AcceptAll(): Policy { Policy((h: Log) => Option<Error>.None, (h: Log) => V(1), (v: Visitor) => false) }

  function CallsOn(v: Visitor, evs: seq<Event>): Log {
    if evs == [] then [] else [Call(v, evs[0])] + CallsOn(v, evs[1..])
  }

  /** The tree as callbacks. */
  function Report(v: Visitor, nodes: seq<Node>): Log
    decreases nodes
  {
    if nodes == [] then [] else ReportNode(v, nodes[0]) + Report(v, nodes[1..])
  }

  function ReportNode(v: Visitor, n: Node): Log
    decreases n
  {
    match n
    case Field(id, value) => CallsOn(v, EventsOf(id, value))
    case Sequence(id, kids, _) => [Call(v, BeginSequence(id))] + Report(V(1), kids) + [Call(V(1), EndSequence)]
  }

  ghost predicate Open(m: Machine, v: Visitor) {
    m.Live? && AtRest(m) && m.declined == 0 && m.Cur() == v && v != Nil
  }

  lemma TellReports(m: Machine, v: Visitor, ev: Event)
    requires Open(m, v)
    ensures var n := Tell(AcceptAll(), m, ev); n == m.(log := m.log + [Call(v, ev)]) && Open(n, v)
  {
  }

  lemma {:induction false} TellAllReports(m: Machine, v: Visitor, evs: seq<Event>)
    requires Open(m, v)
    ensures TellAll(AcceptAll(), m, evs) == m.(log := m.log + CallsOn(v, evs))
    decreases |evs|
  {
    hide AtRest, Tell;
    if evs == [] {
      assert m.log + [] == m.log;
    } else {
      TellReports(m, v, evs[0]);
      var n := Tell(AcceptAll(), m, evs[0]);
      TellAllReports(n, v, evs[1..]);
      assert n.log + CallsOn(v, evs[1..]) == m.log + CallsOn(v, evs);
    }
  }

  /** `b` is `a` with more calls in its log; the policy flags of open scopes may differ. */
  ghost predicate Extends(a: Machine, b: Machine, calls: Log) {
    a.Live? && b.Live? && b == a.(log := a.log + calls, told := b.told)
  }

  lemma FieldReports(m: Machine, v: Visitor, id: int, value: Value)
    requires Open(m, v)
    ensures Extends(m, WalkField(AcceptAll(), m, id, value), CallsOn(v, EventsOf(id, value)))
  {
    hide TellAll, CallsOn, EventsOf;
    var n := if value.VText? then TellPolicy(AcceptAll(), m, Str) else m;
    PolicyKeeps(AcceptAll(), m);
    TellAllReports(n, v, EventsOf(id, value));
  }

  lemma ExtendsOpen(m: Machine, v: Visitor, n: Machine, calls: Log)
    requires Open(m, v) && Extends(m, n, calls) && AtRest(n)
    ensures Open(n, v) && n.Depth() == m.Depth()
  {
  }

  lemma ExtendsChain(a: Machine, b: Machine, c: Machine, x: Log, y: Log)
    requires Extends(a, b, x) && Extends(b, c, y)
    ensures Extends(a, c, x + y)
  {
    assert a.log + x + y == a.log + (x + y);
  }

  lemma {:induction false} WalkReports(m: Machine, v: Visitor, nodes: seq<Node>)
    requires Open(m, v) && m.Depth() + Height(nodes) <= MAX_DEPTH
    ensures Extends(m, Walk(AcceptAll(), m, nodes), Report(v, nodes))
    decreases nodes, 1
  {
    hide WalkNode, ReportNode, HeightOf, AcceptAll, Machine.Fits, Extends;
    if nodes == [] {
      ExtendsNothing(m);
    } else {
      NodeReports(m, v, nodes[0]);
      var n := WalkNode(AcceptAll(), m, nodes[0]);
      WalkNodeKeeps(AcceptAll(), m, nodes[0]);
      ExtendsOpen(m, v, n, ReportNode(v, nodes[0]));
      WalkReports(n, v, nodes[1..]);
      ExtendsChain(m, n, Walk(AcceptAll(), n, nodes[1..]), ReportNode(v, nodes[0]), Report(v, nodes[1..]));
    }
  }

  lemma ExtendsNothing(m: Machine)
    requires m.Live?
    ensures Extends(m, m, [])
  {
    assert m.log + [] == m.log;
  }

  lemma {:induction false} NodeReports(m: Machine, v: Visitor, n: Node)
    requires Open(m, v) && m.Depth() + HeightOf(n) <= MAX_DEPTH
    ensures Extends(m, WalkNode(AcceptAll(), m, n), ReportNode(v, n))
    decreases n, 0
  {
    hide WalkField, EventsOf, CallsOn;
    match n
    case Field(id, value) => FieldReports(m, v, id, value);
    case Sequence(id, kids, _) =>
      var a := Opened(AcceptAll(), m, id);
      assert a == m.(log := m.log + [Call(v, BeginSequence(id))], open := m.open + [V(1)], told := m.told + [false]);
      OpenedKeeps(AcceptAll(), m, id);
      WalkReports(a, V(1), kids);
      var b := Walk(AcceptAll(), a, kids);
      WalkKeeps(AcceptAll(), a, kids);
      ClosedReports(m, a, b, [Call(v, BeginSequence(id))], Report(V(1), kids));
  }

  lemma ClosedReports(m: Machine, a: Machine, b: Machine, pre: Log, calls: Log)
    requires m.Live? && m.declined == 0 && m.Fits() && Extends(a, b, calls) && b.Fits()
    requires a == m.(log := m.log + pre, open := m.open + [V(1)], told := m.told + [false])
    ensures Extends(m, Closed(AcceptAll(), b), pre + calls + [Call(V(1), EndSequence)])
  {
    assert b.open[..|b.open| - 1] == m.open;
    assert m.log + pre + calls + [Call(V(1), EndSequence)] == m.log + (pre + calls + [Call(V(1), EndSequence)]);
  }

  /** Every payload in one piece. */
  ghost predicate WholePieces(log: Log) {
    forall i :: 0 <= i < |log| && log[i].ev.Piece? ==> log[i].ev.off == 0
  }

  lemma {:induction false} JoinWhole(log: Log)
    requires WholePieces(log)
    ensures Join(log) == log
    decreases |log|
  {
    if log != [] {
      JoinWhole(log[..|log| - 1]);
      assert log == log[..|log| - 1] + [log[|log| - 1]];
    }
  }

  lemma {:induction false} CallsWhole(v: Visitor, evs: seq<Event>)
    requires forall i :: 0 <= i < |evs| && evs[i].Piece? ==> evs[i].off == 0
    ensures WholePieces(CallsOn(v, evs))
    decreases |evs|
  {
    if evs != [] { CallsWhole(v, evs[1..]); }
  }

  lemma {:induction false} UnsignedWhole(id: int, idx: nat, us: seq<U64>)
    ensures forall i :: 0 <= i < |UnsignedEvents(id, idx, us)| ==> !UnsignedEvents(id, idx, us)[i].Piece?
    decreases |us|
  {
    if us != [] { UnsignedWhole(id, idx + 1, us[1..]); }
  }

  lemma {:induction false} SignedWhole(id: int, idx: nat, ss: seq<I64>)
    ensures forall i :: 0 <= i < |SignedEvents(id, idx, ss)| ==> !SignedEvents(id, idx, ss)[i].Piece?
    decreases |ss|
  {
    if ss != [] { SignedWhole(id, idx + 1, ss[1..]); }
  }

  lemma {:induction false} FloatsWhole(id: int, w: int, idx: nat, words: seq<nat>)
    ensures forall i :: 0 <= i < |FloatEvents(id, w, idx, words)| ==> !FloatEvents(id, w, idx, words)[i].Piece?
    decreases |words|
  {
    if words != [] { FloatsWhole(id, w, idx + 1, words[1..]); }
  }

  lemma {:induction false} ReportWhole(v: Visitor, nodes: seq<Node>)
    ensures WholePieces(Report(v, nodes))
    decreases nodes, 1
  {
    if nodes != [] {
      ReportNodeWhole(v, nodes[0]);
      ReportWhole(v, nodes[1..]);
      hide ReportNode;
    }
  }

  lemma {:induction false} ReportNodeWhole(v: Visitor, n: Node)
    ensures WholePieces(ReportNode(v, n))
    decreases n, 0
  {
    match n
    case Field(id, value) =>
      match value {
        case VUnsignedArray(a) => UnsignedWhole(id, 0, a);
        case VSignedArray(a) => SignedWhole(id, 0, a);
        case VFloatArray(w, a) => FloatsWhole(id, w, 0, a);
        case _ =>
      }
      CallsWhole(v, EventsOf(id, value));
    case Sequence(_, kids, _) => ReportWhole(V(1), kids);
  }

  lemma AcceptAllIsBlind()
    ensures CutBlind(AcceptAll()) && Tolerant(AcceptAll())
  {
    forall h: Log ensures CutBlindAt(AcceptAll(), h) {}
  }

  /** The round trip: an accept-all decoder, fed a balanced message in any pieces, ends
      Complete with exactly the pruned tree's callbacks. */
  lemma MessageRoundTrip(lim: Limits, ops: seq<Op>, root: Visitor, cs: seq<Bytes>)
    requires TypedOps(ops) && lim.maxDepth <= MAX_DEPTH && ApplyAll(lim, EMPTY, ops).err.None? && ApplyAll(lim, EMPTY, ops).depth == 0
    requires root != Nil && Flatten(cs) == ApplyAll(lim, EMPTY, ops).out
    ensures |Build(ops)| == 1
    ensures var a := Feeds(AcceptAll(), Initial(root), cs);
      OutcomeOf(a) == Complete && Join(a.All()) == Report(root, Prune(Build(ops)[0].kids))
  {
    hide Feeds, Walk, Prune, Ser, Build, ApplyAll, SoundDraft, Tracks, Explode, Join, Height, Report, AcceptAll, CutBlind, Patient, Tolerant;
    AcceptAllIsBlind();
    BlindIsPatient(AcceptAll(), Initial(root));
    Delivered(lim, ops, AcceptAll(), root, cs);
    TraceSound(lim, ops);
    DraftKidsSound(Build(ops), lim.maxDepth);
    var kids := Build(ops)[0].kids;
    PruneSound(kids);
    FreshFits();
    var m := Initial(root);
    WalkReports(m, root, Prune(kids));
    assert [] + Report(root, Prune(kids)) == Report(root, Prune(kids));
    ReportWhole(root, Prune(kids));
    JoinWhole(Report(root, Prune(kids)));
  }
}
