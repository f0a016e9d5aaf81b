/** Decoding what was serialized is walking the tree with the visitors. */
module RoundTrip {
  import opened Wire
  import opened Machine
  import opened FastPaths
  import opened Serializer
  import Varint

  /* ----- the walk ----- */

  function UnsignedEvents(id: int, idx: nat, us: seq<U64>): seq<Event>
    decreases |us|
  {
    if us == [] then [] else [ArrayUnsigned(id, idx, us[0])] + UnsignedEvents(id, idx + 1, us[1..])
  }

  function SignedEvents(id: int, idx: nat, ss: seq<I64>): seq<Event>
    decreases |ss|
  {
    if ss == [] then [] else [ArraySigned(id, idx, ss[0])] + SignedEvents(id, idx + 1, ss[1..])
  }

  function FloatEvents(id: int, width: int, idx: nat, words: seq<nat>): seq<Event>
    decreases |words|
  {
    if words == [] then [] else [ArrayFloat(id, idx, width, words[0])] + FloatEvents(id, width, idx + 1, words[1..])
  }

  /** The callbacks of one field, a payload in one piece. */
  function EventsOf(id: int, value: Value): seq<Event> {
    match value
    case VUnsigned(v) => [Unsigned(id, v)]
    case VSigned(s) => [Signed(id, s)]
    case VFloat(w, bits) => [FixlenBegin(id, if w == 4 then Fp32 else Fp64, w), Float(id, w, bits)]
    case VText(bs) => [FixlenBegin(id, Str, |bs|), Piece(id, Str, |bs|, 0, bs)]
    case VBlob(bs) => [FixlenBegin(id, Blob, |bs|), Piece(id, Blob, |bs|, 0, bs)]
    case VUnsignedArray(a) => [ArrayBegin(id, KUnsigned, |a|)] + (UnsignedEvents(id, 0, a) + [ArrayEnd(id)])
    case VSignedArray(a) => [ArrayBegin(id, KSigned, |a|)] + (SignedEvents(id, 0, a) + [ArrayEnd(id)])
    case VFloatArray(w, a) =>
      [ArrayBegin(id, if w == 4 then KFp32 else KFp64, |a|)] + (FloatEvents(id, w, 0, a) + [ArrayEnd(id)])
  }

  /** The `i`-th callback of an array of integers or floats, between its two ends. */
  function ElementEvent(id: int, value: Value, i: nat): Event {
    match value
    case VUnsignedArray(a) => if i < |a| then ArrayUnsigned(id, i, a[i]) else ArrayEnd(id)
    case VSignedArray(a) => if i < |a| then ArraySigned(id, i, a[i]) else ArrayEnd(id)
    case VFloatArray(w, a) => if i < |a| then ArrayFloat(id, i, w, a[i]) else ArrayEnd(id)
    case _ => ArrayEnd(id)
  }

  /** An array is its elements in order, each with its index, between its two ends. */
  lemma EventsInOrder(id: int, value: Value, count: nat)
    requires match value
      case VUnsignedArray(a) => |a| == count
      case VSignedArray(a) => |a| == count
      case VFloatArray(_, a) => |a| == count
      case _ => false
    ensures var evs := EventsOf(id, value);
      && |evs| == count + 2 && evs[0].ArrayBegin? && evs[0].id == id && evs[0].count == count
      && forall i: nat :: i <= count ==> evs[i + 1] == ElementEvent(id, value, i)
  {
    hide UnsignedEvents, SignedEvents, FloatEvents;
    match value
    case VUnsignedArray(a) => UnsignedInOrder(id, 0, a);
    case VSignedArray(a) => SignedInOrder(id, 0, a);
    case VFloatArray(w, a) => FloatsInOrder(id, w, 0, a);
  }

  lemma {:induction false} UnsignedInOrder(id: int, idx: nat, us: seq<U64>)
    ensures var evs := UnsignedEvents(id, idx, us);
      |evs| == |us| && forall i: nat :: i < |us| ==> evs[i] == ArrayUnsigned(id, idx + i, us[i])
    decreases |us|
  {
    if us != [] { UnsignedInOrder(id, idx + 1, us[1..]); }
  }

  lemma {:induction false} SignedInOrder(id: int, idx: nat, ss: seq<I64>)
    ensures var evs := SignedEvents(id, idx, ss);
      |evs| == |ss| && forall i: nat :: i < |ss| ==> evs[i] == ArraySigned(id, idx + i, ss[i])
    decreases |ss|
  {
    if ss != [] { SignedInOrder(id, idx + 1, ss[1..]); }
  }

  lemma {:induction false} FloatsInOrder(id: int, width: int, idx: nat, words: seq<nat>)
    ensures var evs := FloatEvents(id, width, idx, words);
      |evs| == |words| && forall i: nat :: i < |words| ==> evs[i] == ArrayFloat(id, idx + i, width, words[i])
    decreases |words|
  {
    if words != [] { FloatsInOrder(id, width, idx + 1, words[1..]); }
  }

  /** Callbacks in turn, until one is refused. */
  function TellAll(pol: Policy, m: Machine, evs: seq<Event>): Machine
    decreases |evs|
  {
    if evs == [] || m.Failed? then m else TellAll(pol, Tell(pol, m, evs[0]), evs[1..])
  }

  function WalkField(pol: Policy, m: Machine, id: int, value: Value): Machine
    requires m.Live?
  {
    TellAll(pol, if value.VText? then TellPolicy(pol, m, Str) else m, EventsOf(id, value))
  }

  /** The visitors taken through a tree: each scope opened, walked and closed, each
      field reported, until one refuses. */
  function Walk(pol: Policy, m: Machine, nodes: seq<Node>): Machine
    decreases nodes
  {
    if nodes == [] || m.Failed? then m else Walk(pol, WalkNode(pol, m, nodes[0]), nodes[1..])
  }

  function WalkNode(pol: Policy, m: Machine, n: Node): Machine
    decreases n
  {
    if m.Failed? then m
    else match n
      case Field(id, value) => WalkField(pol, m, id, value)
      case Sequence(id, kids, _) =>
        var inner := Walk(pol, Opened(pol, m, id), kids);
        if inner.Failed? then inner else Closed(pol, inner)
  }

  /** What an encoder accepts. */
  ghost predicate Sound(nodes: seq<Node>) {
    forall i :: 0 <= i < |nodes| ==> SoundNode(nodes[i])
  }

  ghost predicate SoundNode(n: Node) {
    0 <= n.id <= ID_MAX &&
    match n
    case Field(_, value) => value.Typed() && !value.Oversize()
    case Sequence(_, kids, _) => forall i :: 0 <= i < |kids| ==> SoundNode(kids[i])
  }

  /** Between two fields. */
  ghost predicate AtRest(m: Machine) {
    m.Live? ==> m.phase.Header? && m.part == FRESH && m.Fits()
  }

  /** The same open scopes. */
  ghost predicate SameScopes(m: Machine, n: Machine) {
    n.Live? ==> m.Live? && n.open == m.open && n.declined == m.declined
  }

  /* ----- one field ----- */

  lemma TellKeeps(pol: Policy, m: Machine, ev: Event)
    requires m.Live?
    ensures var n := Tell(pol, m, ev); n.Live? ==> n == m.(log := n.log)
    ensures var n := Tell(pol, m, ev);
            forall phase :: Tell(pol, m.(phase := phase), ev) == if n.Live? then n.(phase := phase) else n
  {
  }

  lemma PolicyKeeps(pol: Policy, m: Machine)
    requires m.Live? && AtRest(m)
    ensures var n := TellPolicy(pol, m, Str); n.Live? && AtRest(n) && SameScopes(m, n)
    ensures forall phase :: TellPolicy(pol, m.(phase := phase), Str) == TellPolicy(pol, m, Str).(phase := phase)
  {
  }

  lemma {:induction false} TellAllKeeps(pol: Policy, m: Machine, evs: seq<Event>)
    requires AtRest(m)
    ensures AtRest(TellAll(pol, m, evs)) && SameScopes(m, TellAll(pol, m, evs))
    decreases |evs|
  {
    hide Tell;
    if m.Live? && evs != [] {
      TellKeeps(pol, m, evs[0]);
      TellAllKeeps(pol, Tell(pol, m, evs[0]), evs[1..]);
    }
  }

  lemma TellAllCons(pol: Policy, m: Machine, ev: Event, evs: seq<Event>)
    requires m.Live?
    ensures TellAll(pol, m, [ev] + evs) == TellAll(pol, Tell(pol, m, ev), evs)
  {
    hide Tell;
    assert ([ev] + evs)[1..] == evs;
  }

  lemma TellAllNone(pol: Policy, m: Machine, evs: seq<Event>)
    requires m.Failed? || evs == []
    ensures TellAll(pol, m, evs) == m
  {
  }

  /** A minimal varint in the bytes is its value's effect. */
  lemma LebChunk(pol: Policy, m: Machine, v: U64, rest: Bytes)
    requires m.Live? && m.phase.ReadsVarint() && m.part == FRESH
    ensures Chunk(pol, m, Leb(v) + rest) == Chunk(pol, OnVarint(pol, m, v), rest)
  {
    FreshFits();
    hide OnVarint, Chunk, Leb, ReadVarint;
    VarintChunk(pol, m, Leb(v) + rest);
    ReadFreshLeb(v, rest);
    assert (Leb(v) + rest)[|Leb(v)|..] == rest;
    assert m.(part := FRESH) == m;
  }

  lemma HeadChunk(pol: Policy, m: Machine, id: nat, t: nat, rest: Bytes)
    requires m.Live? && m.phase.Header? && m.part == FRESH && id <= ID_MAX && t < 8
    ensures Chunk(pol, m, Head(id, t) + rest) == Chunk(pol, OnHeader(pol, m, 8 * id + t), rest)
    ensures (8 * id + t) / 8 == id && (8 * id + t) % 8 == t
  {
    hide OnHeader, Chunk, Leb;
    LebChunk(pol, m, 8 * id + t, rest);
  }

  /** Events of an integer array from its wire values. */
  function ElementEvents(id: int, signed: bool, idx: nat, us: seq<U64>): seq<Event>
    decreases |us|
  {
    if us == [] then []
    else [if signed then ArraySigned(id, idx, Unzigzag(us[0])) else ArrayUnsigned(id, idx, us[0])]
         + ElementEvents(id, signed, idx + 1, us[1..])
  }

  lemma {:induction false} UnsignedElements(id: int, idx: nat, us: seq<U64>)
    ensures ElementEvents(id, false, idx, us) == UnsignedEvents(id, idx, us)
    decreases |us|
  {
    if us != [] { UnsignedElements(id, idx + 1, us[1..]); }
  }

  lemma {:induction false} SignedElements(id: int, idx: nat, ss: seq<I64>)
    ensures ElementEvents(id, true, idx, ZigzagRun(ss)) == SignedEvents(id, idx, ss)
    decreases |ss|
  {
    if ss != [] {
      var us := ZigzagRun(ss);
      assert us[1..] == ZigzagRun(ss[1..]);
      Varint.ZigzagInverse(ss[0], 0);
      hide Zigzag, Unzigzag;
      SignedElements(id, idx + 1, ss[1..]);
    }
  }

  lemma {:induction false} ElementsDecode(pol: Policy, m: Machine, us: seq<U64>, rest: Bytes)
    requires m.Live? && m.part == FRESH && m.phase.Elems? && m.phase.remain == |us| && m.phase.total >= |us|
    ensures var Elems(id, signed, total, remain) := m.phase;
            Chunk(pol, Settle(pol, m), LebRun(us) + rest)
            == Chunk(pol, TellAll(pol, m.(phase := Header), ElementEvents(id, signed, total - remain, us) + [ArrayEnd(id)]), rest)
    decreases |us|
  {
    hide Tell, Chunk, Leb;
    var Elems(id, signed, total, remain) := m.phase;
    var h := m.(phase := Header);
    if us == [] {
      assert LebRun(us) + rest == rest;
      assert ElementEvents(id, signed, total - remain, us) + [ArrayEnd(id)] == [ArrayEnd(id)] + [];
      TellAllCons(pol, h, ArrayEnd(id), []);
      TellAllNone(pol, Tell(pol, h, ArrayEnd(id)), []);
    } else {
      var u, idx := us[0], total - remain;
      var ev := if signed then ArraySigned(id, idx, Unzigzag(u)) else ArrayUnsigned(id, idx, u);
      var tail := ElementEvents(id, signed, idx + 1, us[1..]) + [ArrayEnd(id)];
      assert LebRun(us) + rest == Leb(u) + (LebRun(us[1..]) + rest);
      assert ElementEvents(id, signed, idx, us) + [ArrayEnd(id)] == [ev] + tail;
      LebChunk(pol, m, u, LebRun(us[1..]) + rest);
      TellAllCons(pol, h, ev, tail);
      var k := m.(phase := Elems(id, signed, total, remain - 1));
      TellKeeps(pol, h, ev);
      TellKeeps(pol, m, ev);
      var n := Tell(pol, k, ev);
      if n.Live? {
        ElementsDecode(pol, n, us[1..], rest);
        assert n.(phase := Header) == Tell(pol, h, ev);
      } else {
        TellAllNone(pol, n, tail);
        ChunkFailed(pol, n, LebRun(us[1..]) + rest);
        ChunkFailed(pol, n, rest);
      }
    }
  }

  lemma {:induction false} FloatsDecode(pol: Policy, m: Machine, words: seq<nat>, rest: Bytes)
    requires m.Live? && m.part == FRESH && m.phase.ArrFp? && m.phase.remain == |words| && m.phase.total >= |words|
    requires m.phase.got == [] && (m.phase.width == 4 || m.phase.width == 8)
    requires forall i :: 0 <= i < |words| ==> words[i] < Pow256(m.phase.width)
    ensures var ArrFp(id, width, total, remain, got) := m.phase;
            Chunk(pol, Settle(pol, m), LeRun(width, words) + rest)
            == Chunk(pol, TellAll(pol, m.(phase := Header), FloatEvents(id, width, total - remain, words) + [ArrayEnd(id)]), rest)
    decreases |words|
  {
    hide Tell, Chunk, Le, LeBytes, Pow256;
    var ArrFp(id, width, total, remain, _) := m.phase;
    var h := m.(phase := Header);
    if words == [] {
      assert LeRun(width, words) + rest == rest;
      assert FloatEvents(id, width, total - remain, words) + [ArrayEnd(id)] == [ArrayEnd(id)] + [];
      TellAllCons(pol, h, ArrayEnd(id), []);
      TellAllNone(pol, Tell(pol, h, ArrayEnd(id)), []);
    } else {
      var u, idx := words[0], total - remain;
      var ev := ArrayFloat(id, idx, width, u);
      var tail := FloatEvents(id, width, idx + 1, words[1..]) + [ArrayEnd(id)];
      var more := LeRun(width, words[1..]) + rest;
      var s := LeRun(width, words) + rest;
      assert s == LeBytes(u, width) + more;
      assert s[..width] == LeBytes(u, width) && s[width..] == more && [] + s[..width] == s[..width];
      assert FloatEvents(id, width, idx, words) + [ArrayEnd(id)] == [ev] + tail;
      LeRoundTrip(u, width);
      ArrFloatChunk(pol, m, s);
      TellAllCons(pol, h, ev, tail);
      var k := m.(phase := ArrFp(id, width, total, remain - 1, []));
      TellKeeps(pol, h, ev);
      TellKeeps(pol, m, ev);
      var n := Tell(pol, k, ev);
      if n.Live? {
        FloatsDecode(pol, n, words[1..], rest);
        assert n.(phase := Header) == Tell(pol, h, ev);
      } else {
        TellAllNone(pol, n, tail);
        ChunkFailed(pol, n, more);
        ChunkFailed(pol, n, rest);
      }
    }
  }

  /** An announced array, its elements and its end. */
  lemma IntegersDecode(pol: Policy, m: Machine, id: int, signed: bool, us: seq<U64>, rest: Bytes)
    requires m.Live? && m.part == FRESH && m.phase.Header?
    ensures var kind := if signed then KSigned else KUnsigned;
            Chunk(pol, Announce(pol, m.(phase := Elems(id, signed, |us|, |us|)), id, kind, |us|), LebRun(us) + rest)
            == Chunk(pol, TellAll(pol, m, [ArrayBegin(id, kind, |us|)] + (ElementEvents(id, signed, 0, us) + [ArrayEnd(id)])), rest)
  {
    hide Tell, Chunk, Settle;
    var kind := if signed then KSigned else KUnsigned;
    var ev, tail := ArrayBegin(id, kind, |us|), ElementEvents(id, signed, 0, us) + [ArrayEnd(id)];
    TellKeeps(pol, m, ev);
    TellAllCons(pol, m, ev, tail);
    var n := Tell(pol, m.(phase := Elems(id, signed, |us|, |us|)), ev);
    if n.Live? {
      ElementsDecode(pol, n, us, rest);
      assert n.(phase := Header) == Tell(pol, m, ev);
    } else {
      SettleFailed(pol, n);
      TellAllNone(pol, n, tail);
      ChunkFailed(pol, n, LebRun(us) + rest);
      ChunkFailed(pol, n, rest);
    }
  }

  lemma SettleFailed(pol: Policy, n: Machine)
    requires n.Failed?
    ensures Settle(pol, n) == n
  {
  }

  lemma WordsDecode(pol: Policy, m: Machine, id: int, width: nat, words: seq<nat>, rest: Bytes)
    requires m.Live? && m.part == FRESH && m.phase.Header? && (width == 4 || width == 8)
    requires forall i :: 0 <= i < |words| ==> words[i] < Pow256(width)
    ensures var kind := if width == 4 then KFp32 else KFp64;
            Chunk(pol, Announce(pol, m.(phase := ArrFp(id, width, |words|, |words|, [])), id, kind, |words|), LeRun(width, words) + rest)
            == Chunk(pol, TellAll(pol, m, [ArrayBegin(id, kind, |words|)] + (FloatEvents(id, width, 0, words) + [ArrayEnd(id)])), rest)
  {
    hide Tell, Chunk, Settle, Pow256;
    var kind := if width == 4 then KFp32 else KFp64;
    var ev, tail := ArrayBegin(id, kind, |words|), FloatEvents(id, width, 0, words) + [ArrayEnd(id)];
    TellKeeps(pol, m, ev);
    TellAllCons(pol, m, ev, tail);
    var n := Tell(pol, m.(phase := ArrFp(id, width, |words|, |words|, [])), ev);
    if n.Live? {
      FloatsDecode(pol, n, words, rest);
      assert n.(phase := Header) == Tell(pol, m, ev);
    } else {
      SettleFailed(pol, n);
      TellAllNone(pol, n, tail);
      ChunkFailed(pol, n, LeRun(width, words) + rest);
      ChunkFailed(pol, n, rest);
    }
  }

  /** A string or blob after its word. */
  lemma PayloadDecode(pol: Policy, m: Machine, id: int, sub: Subtype, bs: Bytes, rest: Bytes)
    requires m.Live? && AtRest(m) && (sub.Str? || sub.Blob?)
    ensures var n := |bs|;
            Chunk(pol, AnnounceFixlen(pol, m.(phase := if n == 0 then Header else Payload(id, sub, n, 0)), id, sub, n), bs + rest)
            == Chunk(pol, TellAll(pol, if sub.Str? then TellPolicy(pol, m, Str) else m,
                               [FixlenBegin(id, sub, n), Piece(id, sub, n, 0, bs)]), rest)
  {
    hide Tell, Chunk;
    var n := |bs|;
    var phase := if n == 0 then Header else Payload(id, sub, n, 0);
    PolicyKeeps(pol, m);
    var p := if sub.Str? then TellPolicy(pol, m, Str) else m;
    assert TellPolicy(pol, m.(phase := phase), sub) == p.(phase := phase);
    hide TellPolicy;
    var a, b := FixlenBegin(id, sub, n), Piece(id, sub, n, 0, bs);
    assert [a, b] == [a] + [b] && [b] == [b] + [];
    TellKeeps(pol, p, a);
    TellAllCons(pol, p, a, [b]);
    var q := Tell(pol, p, a);
    if q.Live? {
      TellKeeps(pol, q, b);
      TellAllCons(pol, q, b, []);
      TellAllNone(pol, Tell(pol, q, b), []);
      if n == 0 {
        assert bs + rest == rest && bs == [];
      } else {
        assert (bs + rest)[..n] == bs && (bs + rest)[n..] == rest;
        ChunkTakes(pol, q.(phase := phase), bs, rest);
      }
    } else {
      TellAllNone(pol, q, [b]);
      ChunkFailed(pol, q, bs + rest);
      ChunkFailed(pol, q, rest);
    }
  }

  lemma ChunkTakes(pol: Policy, m: Machine, bs: Bytes, rest: Bytes)
    requires m.Live? && m.phase.Payload? && bs != [] && m.phase.off + |bs| == m.phase.total
    ensures Chunk(pol, m, bs + rest) == Chunk(pol, TakePiece(pol, m, bs), rest)
  {
    hide Tell, TakePiece, Step;
    assert (bs + rest)[..|bs|] == bs && (bs + rest)[|bs|..] == rest;
  }

  lemma FloatDecode(pol: Policy, m: Machine, id: int, width: nat, bits: nat, rest: Bytes)
    requires m.Live? && AtRest(m) && (width == 4 || width == 8) && bits < Pow256(width)
    ensures var sub := if width == 4 then Fp32 else Fp64;
            Chunk(pol, AnnounceFixlen(pol, m.(phase := Fp(id, width, [])), id, sub, width), LeBytes(bits, width) + rest)
            == Chunk(pol, TellAll(pol, m, [FixlenBegin(id, sub, width), Float(id, width, bits)]), rest)
  {
    hide Tell, Chunk, Le, LeBytes, Pow256;
    var sub := if width == 4 then Fp32 else Fp64;
    var a, b := FixlenBegin(id, sub, width), Float(id, width, bits);
    var s := LeBytes(bits, width) + rest;
    assert [a, b] == [a] + [b] && [b] == [b] + [];
    TellKeeps(pol, m, a);
    TellAllCons(pol, m, a, [b]);
    var q := Tell(pol, m, a);
    if q.Live? {
      TellKeeps(pol, q, b);
      TellAllCons(pol, q, b, []);
      TellAllNone(pol, Tell(pol, q, b), []);
      LeRoundTrip(bits, width);
      assert s[..width] == LeBytes(bits, width) && s[width..] == rest && [] + s[..width] == s[..width];
      FloatChunk(pol, q.(phase := Fp(id, width, [])), s);
      assert q.(phase := Fp(id, width, [])).(phase := Header) == q;
    } else {
      TellAllNone(pol, q, [b]);
      ChunkFailed(pol, q, s);
      ChunkFailed(pol, q, rest);
    }
  }

  /** The word of a string or a blob. */
  lemma TextWord(n: nat, t: nat, id: int)
    requires n <= ARRAY_MAX && (t == 2 || t == 3)
    ensures (8 * n + t) / 8 == n && (8 * n + t) % 8 == t
    ensures WordPhase(id, 8 * n + t) == Some(if n == 0 then Header else Payload(id, SubtypeOf(t), n, 0))
  {
    assert (8 * n + t) / 8 == n && (8 * n + t) % 8 == t;
  }

  lemma FloatWordPhase(width: nat, id: int)
    requires width == 4 || width == 8
    ensures var w := FloatWord(width);
            WordPhase(id, w) == Some(Fp(id, width, [])) && SubtypeOf(w % 8) == (if width == 4 then Fp32 else Fp64) && w / 8 == width
  {
  }

  lemma ScalarDecodes(pol: Policy, m: Machine, id: nat, value: Value, rest: Bytes)
    requires m.Live? && AtRest(m) && id <= ID_MAX && (value.VUnsigned? || value.VSigned?)
    ensures Chunk(pol, OnHeader(pol, m, 8 * id + WireTypeOf(value)), Body(value) + rest) == Chunk(pol, WalkField(pol, m, id, value), rest)
  {
    hide Tell, Chunk, Leb, TellAll, Zigzag, Unzigzag, Opened, Closed, Machine.Fits;
    if value.VUnsigned? {
      LebChunk(pol, m.(phase := ScalarU(id)), value.v, rest);
      TellOne(pol, m, Unsigned(id, value.v));
    } else {
      LebChunk(pol, m.(phase := ScalarS(id)), Zigzag(value.s), rest);
      Varint.ZigzagInverse(value.s, 0);
      TellOne(pol, m, Signed(id, value.s));
    }
  }

  lemma FixlenDecodes(pol: Policy, m: Machine, id: nat, value: Value, rest: Bytes)
    requires m.Live? && AtRest(m) && id <= ID_MAX && value.Typed() && !value.Oversize()
    requires value.VFloat? || value.VText? || value.VBlob?
    ensures Chunk(pol, m.(phase := FixWord(id)), Body(value) + rest) == Chunk(pol, WalkField(pol, m, id, value), rest)
  {
    hide Chunk, Leb, LeBytes, Pow256, TellAll, AnnounceFixlen, Machine.Fits, FloatWord, WordPhase;
    match value
    case VFloat(w, bits) =>
      assert Body(value) + rest == Leb(FloatWord(w)) + (LeBytes(bits, w) + rest);
      FloatWordPhase(w, id);
      LebChunk(pol, m.(phase := FixWord(id)), FloatWord(w), LeBytes(bits, w) + rest);
      FloatDecode(pol, m, id, w, bits, rest);
    case VText(bs) =>
      TextWord(|bs|, 2, id);
      assert Body(value) + rest == Leb(8 * |bs| + 2) + (bs + rest);
      LebChunk(pol, m.(phase := FixWord(id)), 8 * |bs| + 2, bs + rest);
      PayloadDecode(pol, m, id, Str, bs, rest);
    case VBlob(bs) =>
      TextWord(|bs|, 3, id);
      assert Body(value) + rest == Leb(8 * |bs| + 3) + (bs + rest);
      LebChunk(pol, m.(phase := FixWord(id)), 8 * |bs| + 3, bs + rest);
      PayloadDecode(pol, m, id, Blob, bs, rest);
  }

  lemma ArrayDecodes(pol: Policy, m: Machine, id: nat, value: Value, rest: Bytes)
    requires m.Live? && AtRest(m) && id <= ID_MAX && value.Typed() && !value.Oversize()
    requires value.VUnsignedArray? || value.VSignedArray? || value.VFloatArray?
    ensures Chunk(pol, m.(phase := Count(id, WireTypeOf(value))), Body(value) + rest) == Chunk(pol, WalkField(pol, m, id, value), rest)
  {
    hide Chunk, Leb, LebRun, LeRun, Pow256, TellAll, Announce, Machine.Fits;
    var t := WireTypeOf(value);
    match value
    case VUnsignedArray(a) =>
      assert Body(value) + rest == Leb(|a|) + (LebRun(a) + rest);
      LebChunk(pol, m.(phase := Count(id, t)), |a|, LebRun(a) + rest);
      UnsignedElements(id, 0, a);
      IntegersDecode(pol, m, id, false, a, rest);
    case VSignedArray(a) =>
      var us := ZigzagRun(a);
      assert Body(value) + rest == Leb(|a|) + (LebRun(us) + rest);
      LebChunk(pol, m.(phase := Count(id, t)), |a|, LebRun(us) + rest);
      SignedElements(id, 0, a);
      IntegersDecode(pol, m, id, true, us, rest);
    case VFloatArray(w, a) =>
      assert Body(value) + rest == Leb(|a|) + (Leb(FloatWord(w)) + (LeRun(w, a) + rest));
      LebChunk(pol, m.(phase := Count(id, t)), |a|, Leb(FloatWord(w)) + (LeRun(w, a) + rest));
      LebChunk(pol, m.(phase := ArrWord(id, |a|)), FloatWord(w), LeRun(w, a) + rest);
      WordsDecode(pol, m, id, w, a, rest);
  }

  /** Every field, written by the encoder's format, reaches the visitors whole. */
  lemma FieldDecodes(pol: Policy, m: Machine, id: nat, value: Value, rest: Bytes)
    requires m.Live? && AtRest(m) && id <= ID_MAX && value.Typed() && !value.Oversize()
    ensures Chunk(pol, m, FieldBytes(id, value) + rest) == Chunk(pol, WalkField(pol, m, id, value), rest)
  {
    hide Chunk, Body, WalkField, Head, AtRest, Value.Typed, Value.Oversize, Opened, Closed;
    var t := WireTypeOf(value);
    assert FieldBytes(id, value) + rest == Head(id, t) + (Body(value) + rest);
    RestFacts(m);
    HeadChunk(pol, m, id, t, Body(value) + rest);
    if value.VUnsigned? || value.VSigned? {
      ScalarDecodes(pol, m, id, value, rest);
    } else if value.VFloat? || value.VText? || value.VBlob? {
      FixlenDecodes(pol, m, id, value, rest);
    } else {
      ArrayDecodes(pol, m, id, value, rest);
    }
  }

  lemma RestFacts(m: Machine)
    requires m.Live? && AtRest(m)
    ensures m.phase.Header? && m.part == FRESH
  {
  }

  lemma TellOne(pol: Policy, m: Machine, ev: Event)
    requires m.Live? && AtRest(m)
    ensures TellAll(pol, m, [ev]) == Tell(pol, m, ev) && m.(phase := Header) == m
  {
    hide Tell;
    assert [ev] == [ev] + [];
    TellAllCons(pol, m, ev, []);
    TellAllNone(pol, Tell(pol, m, ev), []);
  }

  /* ----- whole trees ----- */

  lemma WalkFieldKeeps(pol: Policy, m: Machine, id: int, value: Value)
    requires m.Live? && AtRest(m)
    ensures AtRest(WalkField(pol, m, id, value)) && SameScopes(m, WalkField(pol, m, id, value))
  {
    hide TellAll, TellPolicy;
    PolicyKeeps(pol, m);
    TellAllKeeps(pol, if value.VText? then TellPolicy(pol, m, Str) else m, EventsOf(id, value));
  }

  lemma OpenedKeeps(pol: Policy, m: Machine, id: int)
    requires m.Live? && AtRest(m)
    ensures var n := Opened(pol, m, id); AtRest(n) && (n.Live? ==> n.Depth() == m.Depth() + 1)
    ensures forall k :: Opened(pol, m, id).Live? && k == Opened(pol, m, id) ==>
      (if k.declined > 0 then k.open == m.open && k.declined == m.declined + 1 else k.open[..|k.open| - 1] == m.open && m.declined == 0)
  {
  }

  lemma ClosedKeeps(pol: Policy, m: Machine, k: Machine, n: Machine)
    requires m.Live? && AtRest(m) && k.Live? && AtRest(k) && n.Live? && AtRest(n) && SameScopes(k, n)
    requires if k.declined > 0 then k.open == m.open && k.declined == m.declined + 1 else k.open[..|k.open| - 1] == m.open && m.declined == 0
    ensures AtRest(Closed(pol, n)) && SameScopes(m, Closed(pol, n))
  {
  }

  lemma {:induction false} WalkKeeps(pol: Policy, m: Machine, nodes: seq<Node>)
    requires AtRest(m)
    ensures AtRest(Walk(pol, m, nodes)) && SameScopes(m, Walk(pol, m, nodes))
    decreases nodes, 1
  {
    if m.Live? && nodes != [] {
      WalkNodeKeeps(pol, m, nodes[0]);
      hide WalkNode, AtRest, SameScopes;
      WalkKeeps(pol, WalkNode(pol, m, nodes[0]), nodes[1..]);
      SameScopesChain(m, WalkNode(pol, m, nodes[0]), Walk(pol, m, nodes));
    } else {
      hide WalkNode, AtRest;
    }
  }

  lemma SameScopesChain(a: Machine, b: Machine, c: Machine)
    requires SameScopes(a, b) && SameScopes(b, c)
    ensures SameScopes(a, c)
  {
  }

  lemma {:induction false} WalkNodeKeeps(pol: Policy, m: Machine, n: Node)
    requires AtRest(m)
    ensures AtRest(WalkNode(pol, m, n)) && SameScopes(m, WalkNode(pol, m, n))
    decreases n, 0
  {
    if m.Live? {
      match n
      case Field(id, value) => WalkFieldKeeps(pol, m, id, value);
      case Sequence(id, kids, _) =>
        OpenedKeeps(pol, m, id);
        var k := Opened(pol, m, id);
        WalkKeeps(pol, k, kids);
        var inner := Walk(pol, k, kids);
        if inner.Live? { ClosedKeeps(pol, m, k, inner); }
    }
  }

  /** For every tree an encoder accepts and every visitor, refusing or not: decoding its
      bytes is walking the tree. */
  lemma {:induction false} TreeDecodes(pol: Policy, m: Machine, nodes: seq<Node>, rest: Bytes)
    requires AtRest(m) && Sound(nodes)
    ensures Chunk(pol, m, Ser(nodes) + rest) == Chunk(pol, Walk(pol, m, nodes), rest)
    decreases nodes, 1
  {
    hide Chunk, WalkNode, SerNode, AtRest, SameScopes, SoundNode;
    if m.Failed? {
      ChunkFailed(pol, m, Ser(nodes) + rest);
      ChunkFailed(pol, m, rest);
    } else if nodes == [] {
      assert Ser(nodes) + rest == rest;
    } else {
      var n, tail := nodes[0], nodes[1..];
      NodeDecodes(pol, m, n, Ser(tail) + rest);
      WalkNodeKeeps(pol, m, n);
      assert Ser(nodes) + rest == SerNode(n) + (Ser(tail) + rest);
      TreeDecodes(pol, WalkNode(pol, m, n), tail, rest);
    }
  }

  lemma {:induction false} NodeDecodes(pol: Policy, m: Machine, n: Node, rest: Bytes)
    requires AtRest(m) && SoundNode(n)
    ensures Chunk(pol, m, SerNode(n) + rest) == Chunk(pol, WalkNode(pol, m, n), rest)
    decreases n, 0
  {
    hide Chunk, WalkField, Opened, Closed, FieldBytes, Head;
    if m.Failed? {
      ChunkFailed(pol, m, SerNode(n) + rest);
      ChunkFailed(pol, m, rest);
    } else {
      match n
      case Field(id, value) => FieldDecodes(pol, m, id, value, rest);
      case Sequence(id, kids, _) => SequenceDecodes(pol, m, id, kids, rest);
    }
  }

  lemma {:induction false} SequenceDecodes(pol: Policy, m: Machine, id: nat, kids: seq<Node>, rest: Bytes)
    requires m.Live? && AtRest(m) && id <= ID_MAX && Sound(kids)
    ensures var inner := Walk(pol, Opened(pol, m, id), kids);
            Chunk(pol, m, Head(id, T_SEQUENCE_START) + Ser(kids) + END + rest)
            == Chunk(pol, if inner.Failed? then inner else Closed(pol, inner), rest)
    decreases kids, 2
  {
    hide Chunk, Opened, Closed, Head, Ser;
    var k := Opened(pol, m, id);
    OpenedKeeps(pol, m, id);
    assert Head(id, T_SEQUENCE_START) + Ser(kids) + END + rest == Head(id, T_SEQUENCE_START) + (Ser(kids) + (END + rest));
    HeadChunk(pol, m, id, T_SEQUENCE_START, Ser(kids) + (END + rest));
    TreeDecodes(pol, k, kids, END + rest);
    WalkKeeps(pol, k, kids);
    var inner := Walk(pol, k, kids);
    hide Walk;
    if inner.Failed? {
      ChunkFailed(pol, inner, END + rest);
      ChunkFailed(pol, inner, rest);
    } else {
      assert END == Leb(7);
      LebChunk(pol, inner, 7, rest);
    }
  }
}
