/** What an encoder's calls mean: a tree of fields, pruned and written out.

    `Apply` is one call on an encoder with an endless buffer. `Ser` and `Prune` are the
    independent reading: the tree a call trace builds, without the sequences that were
    closed empty, as bytes. */
module Serializer {
  import opened Wire

  datatype Value =
    | VUnsigned(v: U64)
    | VSigned(s: I64)
    | VFloat(width: nat, bits: nat)
    | VText(bytes: Bytes)
    | VBlob(bytes: Bytes)
    | VUnsignedArray(us: seq<U64>)
    | VSignedArray(ss: seq<I64>)
    | VFloatArray(width: nat, words: seq<nat>)
  {
    /** The bit patterns fit their width: what the argument types give. */
    ghost predicate Typed() {
      match this
      case VFloat(w, bits) => (w == 4 || w == 8) && bits < Pow256(w)
      case VFloatArray(w, words) => (w == 4 || w == 8) && forall i :: 0 <= i < |words| ==> words[i] < Pow256(w)
      case _ => true
    }

    /** A payload or an array past the format's ceiling. */
    predicate Oversize() {
      match this
      case VText(bs) => |bs| > ARRAY_MAX
      case VBlob(bs) => |bs| > ARRAY_MAX
      case VUnsignedArray(a) => |a| > ARRAY_MAX
      case VSignedArray(a) => |a| > ARRAY_MAX
      case VFloatArray(_, a) => |a| > ARRAY_MAX
      case _ => false
    }
  }

  datatype Node =
    | Field(id: int, value: Value)
    | Sequence(id: int, kids: seq<Node>, keep: bool)

  /* ----- bytes ----- */

  function Head(id: nat, t: nat): Bytes { Leb(8 * id + t) }

  function WireTypeOf(value: Value): nat {
    match value
    case VUnsigned(_) => T_UNSIGNED
    case VSigned(_) => T_SIGNED
    case VFloat(_, _) => T_FIXLEN
    case VText(_) => T_FIXLEN
    case VBlob(_) => T_FIXLEN
    case VUnsignedArray(_) => T_ARRAY_UNSIGNED
    case VSignedArray(_) => T_ARRAY_SIGNED
    case VFloatArray(_, _) => T_ARRAY_FIXLEN
  }

  /** The length-and-subtype word of a float. */
  function FloatWord(width: nat): nat { if width == 4 then 4 * 8 + 0 else 8 * 8 + 1 }

  function LebRun(a: seq<U64>): Bytes {
    if a == [] then [] else Leb(a[0]) + LebRun(a[1..])
  }

  function ZigzagRun(a: seq<I64>): seq<U64> {
    seq(|a|, i requires 0 <= i < |a| => Zigzag(a[i]))
  }

  function LeRun(width: nat, a: seq<nat>): Bytes {
    if a == [] then [] else LeBytes(a[0], width) + LeRun(width, a[1..])
  }

  /** A field's bytes after its header. */
  function Body(value: Value): Bytes {
    match value
    case VUnsigned(v) => Leb(v)
    case VSigned(s) => Leb(Zigzag(s))
    case VFloat(w, bits) => Leb(FloatWord(w)) + LeBytes(bits, w)
    case VText(bs) => Leb(8 * |bs| + 2) + bs
    case VBlob(bs) => Leb(8 * |bs| + 3) + bs
    case VUnsignedArray(a) => Leb(|a|) + LebRun(a)
    case VSignedArray(a) => Leb(|a|) + LebRun(ZigzagRun(a))
    case VFloatArray(w, a) => Leb(|a|) + Leb(FloatWord(w)) + LeRun(w, a)
  }

  function FieldBytes(id: nat, value: Value): Bytes { Head(id, WireTypeOf(value)) + Body(value) }

  const END: Bytes := [7]

  /* ----- short fields, byte by byte ----- */

  lemma LebShort(v: nat)
    requires v < 0x4000
    ensures Leb(v) == if v < 128 then [v] else [128 + v % 128, v / 128]
  {
  }

  /** A single-byte header and a number of one byte or of two. */
  lemma NumbersOnTheWire(id: nat, v: nat, s: I64)
    requires id < 16 && v < 0x4000 && -64 <= s < 64
    ensures FieldBytes(id, VUnsigned(v)) == [8 * id] + if v < 128 then [v] else [128 + v % 128, v / 128]
    ensures FieldBytes(id, VSigned(s)) == [8 * id + 1, if s >= 0 then 2 * s else -2 * s - 1]
  {
    hide Leb;
    LebShort(8 * id);
    LebShort(8 * id + 1);
    LebShort(v);
    LebShort(Zigzag(s));
  }

  /** A float is its word and its bytes, the least significant first. */
  lemma FloatOnTheWire(id: nat, s: Bytes)
    requires id < 16 && (|s| == 4 || |s| == 8)
    ensures var low := s[0] as int + s[1] as int * 0x100 + s[2] as int * 0x1_0000 + s[3] as int * 0x100_0000;
      if |s| == 4 then FieldBytes(id, VFloat(4, low)) == [8 * id + 2, 0x20] + s
      else
        var high := s[4] as int + s[5] as int * 0x100 + s[6] as int * 0x1_0000 + s[7] as int * 0x100_0000;
        FieldBytes(id, VFloat(8, low + 0x1_0000_0000 * high)) == [8 * id + 2, 0x41] + s
  {
    hide Leb, LeBytes, Le;
    LebShort(8 * id + 2);
    LebShort(0x20);
    LebShort(0x41);
    LeBytesOfLe(s);
    if |s| == 4 { LittleEndian4(s); } else { LittleEndian8(s); }
  }

  /** An array of floats is its count, the word once, and each element's bytes. */
  lemma FloatArrayOnTheWire(id: nat, width: nat, words: seq<nat>)
    requires id < 16 && (width == 4 || width == 8) && |words| == 2
    ensures FieldBytes(id, VFloatArray(width, words)) ==
            [8 * id + 5, 2, if width == 4 then 0x20 else 0x41] + LeBytes(words[0], width) + LeBytes(words[1], width)
  {
    hide Leb, LeBytes;
    LebShort(8 * id + 5);
    LebShort(2);
    LebShort(FloatWord(width));
    LeRunPair(width, words);
  }

  lemma LeRunPair(width: nat, words: seq<nat>)
    requires |words| == 2
    ensures LeRun(width, words) == LeBytes(words[0], width) + LeBytes(words[1], width)
  {
    hide LeBytes;
    assert words[1..] == [words[1]] && words[1..][1..] == [];
    assert LeRun(width, []) == [];
    assert LeRun(width, words[1..]) == LeBytes(words[1], width);
  }

  lemma PayloadsOnTheWire(id: nat, bs: Bytes)
    requires id < 16 && |bs| < 16
    ensures FieldBytes(id, VText(bs)) == [8 * id + 2, 8 * |bs| + 2] + bs
    ensures FieldBytes(id, VBlob(bs)) == [8 * id + 2, 8 * |bs| + 3] + bs
  {
  }

  lemma ArraysOnTheWire(id: nat, u: nat, v: nat, s: I64)
    requires id < 16 && u < 128 && v < 128 && -64 <= s < 64
    ensures FieldBytes(id, VUnsignedArray([u, v])) == [8 * id + 3, 2, u, v]
    ensures FieldBytes(id, VSignedArray([s])) == [8 * id + 4, 1, if s >= 0 then 2 * s else -2 * s - 1]
  {
    hide Leb, LebRun;
    var z := Zigzag(s);
    LebShort(8 * id + 3);
    LebShort(8 * id + 4);
    LebShort(1);
    LebShort(2);
    LebShort(u);
    LebShort(v);
    LebShort(z);
    LebRunPair(u, v);
    LebRunPair(z, z);
    assert ZigzagRun([s]) == [z];
  }

  lemma LebRunPair(u: U64, v: U64)
    ensures LebRun([v]) == Leb(v) && LebRun([u, v]) == Leb(u) + Leb(v)
  {
    hide Leb;
    assert [u, v][1..] == [v] && [v][1..] == [];
    assert LebRun([]) == [];
  }

  /** A sequence is its header, its fields and the end marker. */
  lemma SequenceOnTheWire(id: nat, kids: seq<Node>, keep: bool)
    requires id < 16
    ensures SerNode(Sequence(id, kids, keep)) == [8 * id + 6] + Ser(kids) + [7]
  {
  }

  function Ser(nodes: seq<Node>): Bytes {
    if nodes == [] then [] else SerNode(nodes[0]) + Ser(nodes[1..])
  }

  function SerNode(n: Node): Bytes {
    match n
    case Field(id, value) => if id >= 0 then FieldBytes(id, value) else []
    case Sequence(id, kids, _) => if id >= 0 then Head(id, T_SEQUENCE_START) + Ser(kids) + END else []
  }

  /** The tree without its contentless `End`-closed sequences, recursively. */
  function Prune(nodes: seq<Node>): seq<Node> {
    if nodes == [] then [] else PruneNode(nodes[0]) + Prune(nodes[1..])
  }

  function PruneNode(n: Node): seq<Node> {
    match n
    case Field(_, _) => [n]
    case Sequence(id, kids, keep) =>
      var rest := Prune(kids);
      if rest == [] && !keep then [] else [Sequence(id, rest, keep)]
  }

  lemma {:induction false} SerConcat(a: seq<Node>, b: seq<Node>)
    ensures Ser(a + b) == Ser(a) + Ser(b)
    decreases |a|
  {
    hide SerNode;
    if a == [] {
      assert a + b == b;
    } else {
      assert (a + b)[1..] == a[1..] + b;
      SerConcat(a[1..], b);
    }
  }

  lemma {:induction false} PruneConcat(a: seq<Node>, b: seq<Node>)
    ensures Prune(a + b) == Prune(a) + Prune(b)
    decreases |a|
  {
    hide PruneNode;
    if a == [] {
      assert a + b == b;
    } else {
      assert (a + b)[1..] == a[1..] + b;
      PruneConcat(a[1..], b);
    }
  }

  lemma SerOne(n: Node)
    ensures Ser([n]) == SerNode(n) && Prune([n]) == PruneNode(n)
  {
    assert [n][1..] == [];
    assert Ser([]) == [] && Prune([]) == [];
    hide SerNode, PruneNode;
  }

  /* ----- what pruning removes and what it keeps ----- */

  /** No sequence is contentless unless it was asked to be kept. */
  ghost predicate Tight(nodes: seq<Node>) {
    forall i :: 0 <= i < |nodes| ==> TightNode(nodes[i])
  }

  ghost predicate TightNode(n: Node) {
    n.Sequence? ==> (n.kids != [] || n.keep) && forall i :: 0 <= i < |n.kids| ==> TightNode(n.kids[i])
  }

  /** The fields and the kept frames, in order, each with the ids of the frames around it. */
  function Contents(path: seq<int>, nodes: seq<Node>): seq<(seq<int>, Node)>
    decreases nodes
  {
    if nodes == [] then [] else ContentsOf(path, nodes[0]) + Contents(path, nodes[1..])
  }

  function ContentsOf(path: seq<int>, n: Node): seq<(seq<int>, Node)>
    decreases n
  {
    match n
    case Field(_, _) => [(path, n)]
    case Sequence(id, kids, keep) => (if keep then [(path, Sequence(id, [], true))] else []) + Contents(path + [id], kids)
  }

  /** Pruning leaves no contentless frame, and loses no field and no kept frame, nor
      any frame around one. */
  lemma {:induction false} PruneIsExact(path: seq<int>, nodes: seq<Node>)
    ensures Tight(Prune(nodes)) && Contents(path, Prune(nodes)) == Contents(path, nodes)
    decreases nodes, 1
  {
    if nodes != [] {
      PruneNodeIsExact(path, nodes[0]);
      PruneIsExact(path, nodes[1..]);
      hide PruneNode, ContentsOf, TightNode;
      ContentsConcat(path, PruneNode(nodes[0]), Prune(nodes[1..]));
    }
  }

  lemma {:induction false} PruneNodeIsExact(path: seq<int>, n: Node)
    ensures Tight(PruneNode(n)) && Contents(path, PruneNode(n)) == ContentsOf(path, n)
    decreases n, 0
  {
    match n
    case Field(_, _) => ContentsOne(path, n);
    case Sequence(id, kids, keep) =>
      PruneIsExact(path + [id], kids);
      ContentsOne(path, Sequence(id, Prune(kids), keep));
      assert Contents(path, []) == [];
  }

  lemma ContentsOne(path: seq<int>, n: Node)
    ensures Contents(path, [n]) == ContentsOf(path, n)
  {
    assert [n][1..] == [];
    assert Contents(path, []) == [];
    hide ContentsOf;
  }

  lemma {:induction false} ContentsConcat(path: seq<int>, a: seq<Node>, b: seq<Node>)
    ensures Contents(path, a + b) == Contents(path, a) + Contents(path, b)
    decreases |a|
  {
    hide ContentsOf;
    if a == [] {
      assert a + b == b;
    } else {
      assert (a + b)[1..] == a[1..] + b;
      ContentsConcat(path, a[1..], b);
    }
  }

  /* ----- calls ----- */

  datatype Op = Put(id: nat, value: Value) | Begin(id: nat) | End | EndKeep

  /** What an encoder was constructed with: its nesting bound and its string policy. */
  datatype Limits = Limits(maxDepth: nat, admits: Bytes -> bool)

  datatype Encoding = Encoding(out: Bytes, depth: nat, pending: seq<nat>, err: Option<Error>)

  const EMPTY: Encoding := Encoding([], 0, [], None)

  /** The held-back headers, outermost first. */
  function Heads(ids: seq<nat>): Bytes {
    if ids == [] then [] else Head(ids[0], T_SEQUENCE_START) + Heads(ids[1..])
  }

  /** A call no valid field can be built from. */
  predicate Refused(lim: Limits, e: Encoding, op: Op) {
    match op
    case Put(id, value) => id > ID_MAX || value.Oversize() || (value.VText? && !lim.admits(value.bytes))
    case Begin(id) => e.depth >= lim.maxDepth || id > ID_MAX
    case End => e.depth == 0
    case EndKeep => e.depth == 0
  }

  /** One call, with nowhere to run out of room. */
  function Apply(lim: Limits, e: Encoding, op: Op): Encoding {
    if e.err.Some? then e
    else if Refused(lim, e, op) then e.(err := Some(Argument))
    else match op
      case Put(id, value) => e.(out := e.out + Heads(e.pending) + FieldBytes(id, value), pending := [])
      case Begin(id) => e.(pending := e.pending + [id], depth := e.depth + 1)
      case End =>
        if e.pending != [] then e.(pending := e.pending[..|e.pending| - 1], depth := if e.depth > 0 then e.depth - 1 else 0)
        else e.(out := e.out + END, depth := if e.depth > 0 then e.depth - 1 else 0)
      case EndKeep => e.(out := e.out + Heads(e.pending) + END, pending := [], depth := if e.depth > 0 then e.depth - 1 else 0)
  }

  function ApplyAll(lim: Limits, e: Encoding, ops: seq<Op>): Encoding {
    if ops == [] then e else Apply(lim, ApplyAll(lim, e, ops[..|ops| - 1]), ops[|ops| - 1])
  }

  /* ----- which calls are accepted ----- */

  /** How many sequences are open after some calls, ends without a begin counted as well. */
  function Balance(ops: seq<Op>): int {
    if ops == [] then 0
    else Balance(ops[..|ops| - 1]) + match ops[|ops| - 1]
      case Put(_, _) => 0
      case Begin(_) => 1
      case End => -1
      case EndKeep => -1
  }

  /** How many bytes or elements a value's length word counts. */
  function Measure(value: Value): nat {
    match value
    case VUnsigned(_) => 0
    case VSigned(_) => 0
    case VFloat(_, _) => 0
    case VText(bs) => |bs|
    case VBlob(bs) => |bs|
    case VUnsignedArray(a) => |a|
    case VSignedArray(a) => |a|
    case VFloatArray(_, a) => |a|
  }

  /** A call whose arguments the format can carry and the string policy admits. */
  predicate Sayable(lim: Limits, op: Op) {
    match op
    case Put(id, value) =>
      id <= 2147483647 && Measure(value) <= 2147483647 && (value.VText? ==> lim.admits(value.bytes))
    case Begin(id) => id <= 2147483647
    case End => true
    case EndKeep => true
  }

  /** Calls that say only what can be said and nest within the bound, never closing what is
      not open. */
  ghost predicate Acceptable(lim: Limits, ops: seq<Op>) {
    && (forall i :: 0 <= i < |ops| ==> Sayable(lim, ops[i]))
    && (forall i :: 0 <= i <= |ops| ==> 0 <= Balance(ops[..i]) <= lim.maxDepth)
  }

  lemma AcceptableMore(lim: Limits, ops: seq<Op>, op: Op)
    ensures Acceptable(lim, ops + [op]) <==>
              Acceptable(lim, ops) && Sayable(lim, op) && 0 <= Balance(ops + [op]) <= lim.maxDepth
  {
    hide Sayable, Balance;
    var all := ops + [op];
    assert all[..|all|] == all && forall i :: 0 <= i <= |ops| ==> all[..i] == ops[..i];
    if Acceptable(lim, all) {
      forall i | 0 <= i < |ops| ensures Sayable(lim, ops[i]) { assert all[i] == ops[i]; }
      forall i | 0 <= i <= |ops| ensures 0 <= Balance(ops[..i]) <= lim.maxDepth { assert all[..i] == ops[..i]; }
      assert all[|ops|] == op;
    }
  }

  /** An encoder accepts exactly the acceptable calls; every other trace is an argument
      error, and its depth is the balance of its calls. */
  lemma {:induction false} AcceptedExactly(lim: Limits, ops: seq<Op>)
    ensures var e := ApplyAll(lim, EMPTY, ops);
      && (e.err.None? <==> Acceptable(lim, ops))
      && (e.err.None? ==> e.depth == Balance(ops))
      && (e.err.Some? ==> e.err == Some(Argument))
    decreases |ops|
  {
    hide Heads, FieldBytes;
    if ops != [] {
      var init, op := ops[..|ops| - 1], ops[|ops| - 1];
      AcceptedExactly(lim, init);
      assert ops == init + [op];
      AcceptableMore(lim, init, op);
    }
  }

  /** A sequence that is opened and ended leaves no trace at all. */
  lemma EmptyVanishes(lim: Limits, e: Encoding, id: nat)
    requires e.err.None? && Apply(lim, e, Begin(id)).err.None?
    ensures Apply(lim, Apply(lim, e, Begin(id)), End) == e
  {
    assert (e.pending + [id])[..|e.pending|] == e.pending;
  }

  /** Ended to be kept, it is written out with every frame around it. */
  lemma EmptyKept(lim: Limits, e: Encoding, id: nat)
    requires e.err.None? && Apply(lim, e, Begin(id)).err.None?
    ensures var f := Apply(lim, Apply(lim, e, Begin(id)), EndKeep);
      && f.out == e.out + Heads(e.pending) + Leb(8 * id + 6) + [7]
      && f.pending == [] && f.depth == e.depth && f.err.None?
  {
    HeadsAppend(e.pending, id);
    hide Heads, Leb;
    assert e.out + (Heads(e.pending) + Leb(8 * id + 6)) + [7] == e.out + Heads(e.pending) + Leb(8 * id + 6) + [7];
  }

  /* ----- the tree a trace builds ----- */

  /** An open scope with what it holds so far; the root has a dummy id. */
  datatype Level = Level(id: nat, kids: seq<Node>)
  type Draft = seq<Level>

  /** The innermost level with other fields in it. */
  function Refilled(d: Draft, kids: seq<Node>): Draft
    requires |d| >= 1
  {
    d[..|d| - 1] + [Level(d[|d| - 1].id, kids)]
  }

  function AddTo(d: Draft, n: Node): Draft {
    if d == [] then [] else Refilled(d, d[|d| - 1].kids + [n])
  }

  function Grow(d: Draft, op: Op): Draft {
    match op
    case Put(id, value) => AddTo(d, Field(id, value))
    case Begin(id) => d + [Level(id, [])]
    case End => CloseLevel(d, false)
    case EndKeep => CloseLevel(d, true)
  }

  function CloseLevel(d: Draft, keep: bool): Draft {
    if |d| < 2 then d else AddTo(d[..|d| - 1], Sequence(d[|d| - 1].id, d[|d| - 1].kids, keep))
  }

  function Build(ops: seq<Op>): Draft {
    if ops == [] then [Level(0, [])] else Grow(Build(ops[..|ops| - 1]), ops[|ops| - 1])
  }

  /** The innermost open sequences without content so far, outermost first. */
  function Held(d: Draft): seq<nat> {
    if |d| <= 1 || Prune(d[|d| - 1].kids) != [] then [] else Held(d[..|d| - 1]) + [d[|d| - 1].id]
  }

  /** Every level written out, headers and pruned contents. */
  function Full(d: Draft): Bytes {
    if d == [] then []
    else if |d| == 1 then Ser(Prune(d[0].kids))
    else Full(d[..|d| - 1]) + Head(d[|d| - 1].id, T_SEQUENCE_START) + Ser(Prune(d[|d| - 1].kids))
  }

  lemma {:induction false} HeldBound(d: Draft)
    ensures |Held(d)| <= |d| && (|d| >= 1 ==> |Held(d)| < |d|)
    decreases |d|
  {
    if |d| > 1 { HeldBound(d[..|d| - 1]); }
  }

  /** The levels already on the wire. */
  function Sent(d: Draft): (s: Draft)
  {
    HeldBound(d);
    d[..|d| - |Held(d)|]
  }

  lemma {:induction false} HeadsAppend(ids: seq<nat>, id: nat)
    ensures Heads(ids + [id]) == Heads(ids) + Head(id, T_SEQUENCE_START)
    decreases |ids|
  {
    hide Head;
    if ids == [] {
      assert [id][1..] == [] && ids + [id] == [id];
      assert Heads([]) == [];
    } else {
      assert (ids + [id])[1..] == ids[1..] + [id];
      HeadsAppend(ids[1..], id);
    }
  }

  /** Writing the held headers is all that is missing. */
  lemma {:induction false} FullIsSentAndHeads(d: Draft)
    ensures Full(d) == Full(Sent(d)) + Heads(Held(d))
    decreases |d|
  {
    hide Head;
    HeldBound(d);
    if |d| <= 1 || Prune(d[|d| - 1].kids) != [] {
      assert Sent(d) == d;
    } else {
      var init, last := d[..|d| - 1], d[|d| - 1];
      FullIsSentAndHeads(init);
      HeadsAppend(Held(init), last.id);
      HeldBound(init);
      assert Sent(d) == Sent(init);
      assert Ser(Prune(last.kids)) == [];
    }
  }

  lemma SameHeld(d: Draft, kids: seq<Node>)
    requires |d| >= 1 && Prune(kids) == Prune(d[|d| - 1].kids)
    ensures Held(Refilled(d, kids)) == Held(d) && Full(Refilled(d, kids)) == Full(d)
  {
    hide Head, Prune, Ser;
    assert Refilled(d, kids)[..|d| - 1] == d[..|d| - 1];
  }

  /** A level replaced by one with the same pruned contents changes nothing. */
  lemma SamePruned(d: Draft, kids: seq<Node>)
    requires |d| >= 1 && Prune(kids) == Prune(d[|d| - 1].kids)
    ensures var e := Refilled(d, kids);
            Held(e) == Held(d) && Full(e) == Full(d) && Full(Sent(e)) == Full(Sent(d))
  {
    hide Head, Prune, Ser, Held, Full;
    SameHeld(d, kids);
    var e := Refilled(d, kids);
    HeldBound(d);
    if |Held(d)| > 0 { assert Sent(e) == Sent(d); } else { assert Sent(e) == e && Sent(d) == d; }
  }

  /** What an accepted call does to the written and the held part. */
  ghost predicate Tracks(e: Encoding, d: Draft) {
    && |d| >= 1 && e.err == None && e.depth == |d| - 1
    && e.pending == Held(d) && e.out == Full(Sent(d))
  }

  lemma KidsAppend(kids: seq<Node>, n: Node)
    ensures Prune(kids + [n]) == Prune(kids) + PruneNode(n)
    ensures Ser(Prune(kids + [n])) == Ser(Prune(kids)) + Ser(PruneNode(n))
  {
    hide PruneNode, Prune, Ser;
    PruneConcat(kids, [n]);
    SerOne(n);
    SerConcat(Prune(kids), PruneNode(n));
  }

  lemma AddContent(d: Draft, n: Node)
    requires |d| >= 1 && PruneNode(n) != []
    ensures Held(AddTo(d, n)) == [] && Sent(AddTo(d, n)) == AddTo(d, n) && Full(AddTo(d, n)) == Full(d) + Ser(PruneNode(n))
  {
    hide Head, PruneNode, Prune, Ser;
    KidsAppend(d[|d| - 1].kids, n);
    assert AddTo(d, n)[..|d| - 1] == d[..|d| - 1];
  }

  lemma PutTracks(lim: Limits, e: Encoding, d: Draft, id: nat, value: Value)
    requires Tracks(e, d) && !Refused(lim, e, Put(id, value))
    ensures Tracks(Apply(lim, e, Put(id, value)), Grow(d, Put(id, value)))
  {
    hide FieldBytes, Held, Full, Sent, Heads, Refused;
    var n := Field(id, value);
    assert PruneNode(n) == [n];
    SerOne(n);
    AddContent(d, n);
    FullIsSentAndHeads(d);
    assert e.out + Heads(e.pending) + FieldBytes(id, value) == Full(d) + FieldBytes(id, value);
  }

  lemma BeginTracks(lim: Limits, e: Encoding, d: Draft, id: nat)
    requires Tracks(e, d) && !Refused(lim, e, Begin(id))
    ensures Tracks(Apply(lim, e, Begin(id)), Grow(d, Begin(id)))
  {
    hide Full, Refused;
    var g := Grow(d, Begin(id));
    assert g[..|d|] == d && Prune([]) == [];
    HeldBound(d);
    HeldBound(g);
    assert Sent(g) == Sent(d);
  }

  /** Closing an empty level drops it. */
  lemma CloseEmpty(d: Draft)
    requires |d| >= 2 && Prune(d[|d| - 1].kids) == []
    ensures var c := CloseLevel(d, false);
            |c| == |d| - 1 && Held(d) == Held(c) + [d[|d| - 1].id] && Full(Sent(c)) == Full(Sent(d))
  {
    hide Head, Prune, Ser, Full;
    var init, last := d[..|d| - 1], d[|d| - 1];
    var n := Sequence(last.id, last.kids, false);
    var kids := init[|init| - 1].kids;
    assert PruneNode(n) == [];
    KidsAppend(kids, n);
    SamePruned(init, kids + [n]);
    HeldBound(d);
    HeldBound(init);
    assert Sent(d) == Sent(init);
  }

  lemma EndTracks(lim: Limits, e: Encoding, d: Draft)
    requires Tracks(e, d) && !Refused(lim, e, End)
    ensures Tracks(Apply(lim, e, End), Grow(d, End))
  {
    hide Head, Heads, Prune, Full, CloseLevel;
    HeldBound(d);
    if Prune(d[|d| - 1].kids) == [] {
      CloseEmpty(d);
    } else {
      assert Sent(d) == d;
      CloseContent(d, false);
    }
  }

  /** Closing a level whose frame has to be on the wire. */
  lemma CloseContent(d: Draft, keep: bool)
    requires |d| >= 2 && (keep || Prune(d[|d| - 1].kids) != [])
    ensures var c := CloseLevel(d, keep);
            |c| == |d| - 1 && Held(c) == [] && Sent(c) == c && Full(c) == Full(d) + END
  {
    hide Head, Prune, Ser, Held;
    var init, last := d[..|d| - 1], d[|d| - 1];
    var n := Sequence(last.id, last.kids, keep);
    var m := Sequence(last.id, Prune(last.kids), keep);
    assert PruneNode(n) == [m];
    AddContent(init, n);
    SerOne(m);
    assert SerNode(m) == Head(last.id, T_SEQUENCE_START) + Ser(Prune(last.kids)) + END;
  }

  lemma EndKeepTracks(lim: Limits, e: Encoding, d: Draft)
    requires Tracks(e, d) && !Refused(lim, e, EndKeep)
    ensures Tracks(Apply(lim, e, EndKeep), Grow(d, EndKeep))
  {
    hide Held, Full, Sent, Heads;
    CloseContent(d, true);
    FullIsSentAndHeads(d);
    assert e.out + Heads(e.pending) + END == Full(d) + END;
  }

  lemma ApplyTracks(lim: Limits, e: Encoding, d: Draft, op: Op)
    requires Tracks(e, d)
    ensures var f := Apply(lim, e, op); f.err.None? ==> Tracks(f, Grow(d, op))
  {
    hide Tracks, Grow;
    assert e.err.None? by { TracksNoError(e, d); }
    if !Refused(lim, e, op) {
      match op
      case Put(id, value) => PutTracks(lim, e, d, id, value);
      case Begin(id) => BeginTracks(lim, e, d, id);
      case End => EndTracks(lim, e, d);
      case EndKeep => EndKeepTracks(lim, e, d);
    }
  }

  lemma TracksNoError(e: Encoding, d: Draft)
    requires Tracks(e, d)
    ensures e.err.None?
  {
  }

  /** On every call trace without an argument error: the output is the pruned tree
      written out as far as its open scopes have content, and the pending ids are
      exactly the innermost open scopes not yet on the wire. */
  lemma {:induction false} LazyFramingIsPruning(lim: Limits, ops: seq<Op>)
    ensures var e := ApplyAll(lim, EMPTY, ops); e.err.None? ==>
            Tracks(e, Build(ops)) && |e.pending| <= e.depth <= lim.maxDepth
    decreases |ops|
  {
    if ops == [] {
      assert Prune([]) == [] && Ser([]) == [];
    } else {
      hide Tracks, Grow, Held, Full, Sent;
      var init, op := ops[..|ops| - 1], ops[|ops| - 1];
      LazyFramingIsPruning(lim, init);
      var e := ApplyAll(lim, EMPTY, init);
      if e.err.None? {
        ApplyTracks(lim, e, Build(init), op);
        var f := Apply(lim, e, op);
        if f.err.None? { TracksHeld(f, Build(ops)); }
      }
    }
  }

  lemma TracksHeld(e: Encoding, d: Draft)
    requires Tracks(e, d)
    ensures |e.pending| <= e.depth
  {
    HeldBound(d);
  }

  /** A balanced trace emits exactly its pruned tree. */
  lemma BalancedOutput(lim: Limits, ops: seq<Op>)
    requires ApplyAll(lim, EMPTY, ops).err.None? && ApplyAll(lim, EMPTY, ops).depth == 0
    ensures |Build(ops)| == 1 && ApplyAll(lim, EMPTY, ops).pending == []
    ensures ApplyAll(lim, EMPTY, ops).out == Ser(Prune(Build(ops)[0].kids))
  {
    LazyFramingIsPruning(lim, ops);
    hide ApplyAll, Build, Prune, Ser;
  }
}
