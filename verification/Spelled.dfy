/** The decoder does with any bytes what they spell. */
module Spelled {
  import opened Wire
  import opened Machine
  import opened FastPaths
  import opened Serializer
  import opened Completion
  import opened RoundTrip
  import opened Chunking
  import opened EndToEnd
  import opened Heard
  import opened Patience
  import Frames
  import S = Spelling
  import Varint

  /* ----- numbers ----- */

  /** A reading and the decoder's own, with `g` the weight of the groups still to come. */
  ghost predicate ReadsAs(r: S.Reading<nat>, p: Partial, s: Bytes) {
    && (r.Read? ==>
          && |r.rest| < |s| && r.rest == s[|s| - |r.rest|..]
          && ReadVarint(p, s) == Got(p.acc + Group(r.x, p.nb), |s| - |r.rest|))
    && (r.Short? ==> ReadVarint(p, s).Suspended? && (s != [] ==> ReadVarint(p, s).p.nb > 0))
    && (r.Wrong? ==> ReadVarint(p, s).Malformed?)
  }

  lemma {:induction false} GroupsAreRead(s: Bytes, p: Partial)
    requires p.nb <= 9
    ensures ReadsAs(S.Groups(s, p.nb), p, s)
    decreases |s|
  {
    hide Group;
    if s != [] && p.nb < 9 && s[0] >= 128 {
      var y := s[0] - 128;
      var q := Partial(p.acc + Group(y, p.nb), p.nb + 1);
      GroupsAreRead(s[1..], q);
      ReadVarintMore(p, s);
      var r := S.Groups(s[1..], p.nb + 1);
      if r.Read? {
        assert s[1..][|s[1..]| - |r.rest|..] == s[|s| - |r.rest|..];
        GroupsAdd(y, r.x, p.nb);
      }
    } else if s != [] && (p.nb < 9 || s[0] <= 1) {
      ReadVarintLast(p, s);
    }
  }

  lemma GroupsAdd(y: nat, x: nat, k: nat)
    ensures Group(y, k) + Group(x, k + 1) == Group(y + 128 * x, k)
  {
    var w := Weight(k);
    assert (y + 128 * x) * w == y * w + x * (128 * w);
  }

  lemma NumberIsRead(s: Bytes)
    ensures var r := S.Number(s);
      && (r.Read? ==> r.rest == s[|s| - |r.rest|..] && ReadVarint(FRESH, s) == Got(r.x, |s| - |r.rest|))
      && (r.Short? ==> ReadVarint(FRESH, s).Suspended? && (s != [] ==> ReadVarint(FRESH, s).p.nb > 0))
      && (r.Wrong? ==> ReadVarint(FRESH, s).Malformed?)
  {
    GroupsAreRead(s, FRESH);
    hide ReadVarint, S.Groups;
    forall x: nat ensures Group(x, 0) == x {}
  }

  /** A spelled number does what its minimal form does. */
  lemma NumberChunk(pol: Policy, m: Machine, s: Bytes)
    requires m.Live? && m.phase.ReadsVarint() && m.part == FRESH
    ensures var r, n := S.Number(s), Chunk(pol, m, s);
      && (r.Read? ==> n == Chunk(pol, OnVarint(pol, m, r.x), r.rest) && n == Chunk(pol, m, Leb(r.x) + r.rest))
      && (r.Short? ==> n.Live? && n == m.(part := n.part) && (s != [] ==> n.part.nb > 0))
      && (r.Wrong? ==> n == Rejected(m, InvalidMsg))
  {
    FreshFits();
    NumberIsRead(s);
    hide OnVarint, Chunk, ReadVarint, S.Number, Leb;
    VarintChunk(pol, m, s);
    assert m.(part := FRESH) == m;
    var r := S.Number(s);
    if r.Read? { LebChunk(pol, m, r.x, r.rest); }
  }

  /** Where a decode is left by bytes that spell nothing: failed, of itself if the visitors
      refuse nothing, or short of a whole message. */
  ghost predicate Broken(pol: Policy, wrong: bool, n: Machine) {
    if wrong then n.Failed? && (Tolerant(pol) ==> n.why == InvalidMsg)
    else OutcomeOf(n) != Complete && (Tolerant(pol) ==> n.Live?)
  }

  lemma BrokenByRefusal(pol: Policy, wrong: bool, m: Machine, s: Bytes)
    requires m.Failed? && !Tolerant(pol)
    ensures Chunk(pol, m, s) == m && Broken(pol, wrong, m)
  {
    hide Tolerant;
  }

  /* ----- array elements ----- */

  ghost predicate Awaits(pol: Policy, m: Machine, n: nat) {
    && (Tolerant(pol) ==> m.Live?)
    && (m.Live? && n > 0 ==> m.phase.Elems? && m.phase.remain == n && m.part == FRESH)
  }

  lemma ElementAwaits(pol: Policy, m: Machine, n: nat, v: U64)
    requires m.Live? && n > 0 && Awaits(pol, m, n)
    ensures OnVarint(pol, m, v) == OnElement(pol, m, v) && Awaits(pol, OnElement(pol, m, v), n - 1)
  {
    if Tolerant(pol) { ElementAccepted(pol, m, v); }
    hide Tolerant;
  }

  lemma {:induction false} NumbersChunk(pol: Policy, m: Machine, n: nat, s: Bytes)
    requires Awaits(pol, m, n)
    ensures var r := S.Numbers(n, s);
      if r.Read? then Chunk(pol, m, s) == Chunk(pol, m, LebRun(r.x) + r.rest) else Broken(pol, r.Wrong?, Chunk(pol, m, s))
    decreases n
  {
    hide Chunk, Leb, OnElement, OnVarint, Tolerant, S.Number;
    var r := S.Numbers(n, s);
    if n == 0 {
      assert LebRun([]) + s == s;
    } else if m.Failed? {
      if r.Read? {
        ChunkFailed(pol, m, s);
        ChunkFailed(pol, m, LebRun(r.x) + r.rest);
      } else {
        BrokenByRefusal(pol, r.Wrong?, m, s);
      }
    } else {
      NumberChunk(pol, m, s);
      var a := S.Number(s);
      if a.Read? {
        ElementAwaits(pol, m, n, a.x);
        NumbersChunk(pol, OnElement(pol, m, a.x), n - 1, a.rest);
        var b := S.Numbers(n - 1, a.rest);
        if b.Read? {
          LebChunk(pol, m, a.x, LebRun(b.x) + b.rest);
          assert r.x[1..] == b.x;
          assert LebRun(r.x) + r.rest == Leb(a.x) + (LebRun(b.x) + b.rest);
        }
      }
    }
  }

  lemma WordIsLe(s: Bytes)
    requires |s| == 4 || |s| == 8
    ensures S.Word(s) == Le(s) && LeBytes(S.Word(s), |s|) == s && S.Word(s) < Pow256(|s|)
  {
    hide Le, LeBytes, Pow256;
    LeBytesOfLe(s);
    if |s| == 4 { LittleEndian4(s); } else { LittleEndian8(s); }
  }

  lemma {:induction false} WordsAreRun(n: nat, width: nat, s: Bytes)
    requires width == 4 || width == 8
    ensures var r := S.Words(n, width, s);
      && !r.Wrong?
      && (r.Read? ==> s == LeRun(width, r.x) + r.rest && forall i :: 0 <= i < n ==> r.x[i] < Pow256(width))
    decreases n
  {
    hide LeBytes, Pow256, S.Word;
    if n > 0 && |s| >= width {
      WordIsLe(s[..width]);
      WordsAreRun(n - 1, width, s[width..]);
      var r, b := S.Words(n, width, s), S.Words(n - 1, width, s[width..]);
      if b.Read? {
        assert r.x[1..] == b.x;
        assert s == s[..width] + s[width..];
        assert LeRun(width, r.x) + r.rest == LeBytes(r.x[0], width) + (LeRun(width, b.x) + b.rest);
      }
    }
  }

  ghost predicate AwaitsWords(pol: Policy, m: Machine, width: nat, n: nat) {
    && (Tolerant(pol) ==> m.Live?)
    && (m.Live? && n > 0 ==> m.phase.ArrFp? && m.phase.width == width && m.phase.got == [] && m.phase.remain == n)
  }

  lemma WordAwaits(pol: Policy, m: Machine, width: nat, n: nat, bits: nat)
    requires m.Live? && n > 0 && AwaitsWords(pol, m, width, n)
    ensures AwaitsWords(pol, OnArrFloat(pol, m, bits), width, n - 1)
  {
    if Tolerant(pol) { ArrFloatAccepted(pol, m, bits); }
    hide Tolerant;
  }

  lemma {:induction false} WordsShort(pol: Policy, m: Machine, n: nat, width: nat, s: Bytes)
    requires (width == 4 || width == 8) && AwaitsWords(pol, m, width, n) && S.Words(n, width, s).Short?
    ensures Broken(pol, false, Chunk(pol, m, s))
    decreases n
  {
    hide Chunk, OnArrFloat, Tolerant, Le, S.Word;
    if m.Failed? {
      BrokenByRefusal(pol, false, m, s);
    } else {
      ArrFloatChunk(pol, m, s);
      if |s| >= width {
        var bits := Le([] + s[..width]);
        WordAwaits(pol, m, width, n, bits);
        WordsShort(pol, OnArrFloat(pol, m, bits), n - 1, width, s[width..]);
      }
    }
  }

  /* ----- values ----- */

  /** The machine behind the header of a value. */
  function Behind(m: Machine, id: nat, t: nat): Machine
    requires m.Live?
  {
    m.(phase := if t == 0 then ScalarU(id) else if t == 1 then ScalarS(id) else if t == 2 then FixWord(id) else Count(id, t))
  }

  lemma BehindHeader(pol: Policy, m: Machine, id: nat, t: nat)
    requires m.Live? && id <= ID_MAX && t <= 5
    ensures OnHeader(pol, m, 8 * id + t) == Behind(m, id, t)
  {
    assert (8 * id + t) / 8 == id && (8 * id + t) % 8 == t;
    hide Opened, Closed;
  }

  lemma SignedIsZigzag(u: U64)
    ensures S.Signed(u) == Unzigzag(u) && Zigzag(S.Signed(u)) == u
  {
    Varint.ZigzagInverse(0, u);
    var h, r := u / 2, u % 2;
    assert u == 2 * h + r && 0 <= r <= 1;
  }

  lemma SignedRun(us: seq<U64>)
    ensures ZigzagRun(S.SignedAll(us)) == us
  {
    hide Zigzag, S.Signed;
    forall i: nat | i < |us| ensures Zigzag(S.SignedAll(us)[i]) == us[i] { SignedIsZigzag(us[i]); }
  }

  /** A value spelled somehow does what its minimal form does. */
  ghost predicate Minimal(pol: Policy, m: Machine, id: nat, t: nat, s: Bytes, r: S.Reading<Value>)
    requires m.Live?
  {
    if r.Read? then
      && WireTypeOf(r.x) == t && r.x.Typed() && !r.x.Oversize()
      && Chunk(pol, Behind(m, id, t), s) == Chunk(pol, Behind(m, id, t), Body(r.x) + r.rest)
    else Broken(pol, r.Wrong?, Chunk(pol, Behind(m, id, t), s))
  }

  lemma ScalarMinimal(pol: Policy, m: Machine, id: nat, t: nat, s: Bytes)
    requires m.Live? && AtRest(m) && t <= 1
    ensures Minimal(pol, m, id, t, s, S.ValueAt(t, s))
  {
    hide Chunk, Leb, Zigzag, S.Signed, S.Number, Tolerant, OnVarint;
    NumberChunk(pol, Behind(m, id, t), s);
    var r := S.Number(s);
    if r.Read? { SignedIsZigzag(r.x); }
  }

  /** The machine behind the word of a fixed-length value, ready for its payload. */
  ghost predicate AwaitsPayload(pol: Policy, m: Machine, n: nat) {
    && (Tolerant(pol) ==> m.Live?)
    && (m.Live? && n > 0 ==>
          || (m.phase.Payload? && m.phase.off == 0 && m.phase.total == n)
          || (m.phase.Fp? && m.phase.got == [] && m.phase.width == n))
  }

  lemma WordReady(pol: Policy, m: Machine, id: int, w: U64)
    requires m.Live? && m.part == FRESH
    ensures var k := OnFixWord(pol, m.(phase := FixWord(id)), id, w);
      if w / 8 > ARRAY_MAX || w % 8 > 3 || (w % 8 == 0 && w / 8 != 4) || (w % 8 == 1 && w / 8 != 8)
      then k == Rejected(m, InvalidMsg)
      else AwaitsPayload(pol, k, w / 8)
  {
    hide Tell, TellPolicy, AnnounceFixlen;
    var phase := WordPhase(id, w);
    if phase.Some? { AnnouncedReady(pol, m.(phase := phase.value), id, SubtypeOf(w % 8), w / 8); }
  }

  lemma AnnouncedReady(pol: Policy, m: Machine, id: int, sub: Subtype, n: int)
    requires m.Live?
    ensures var k := AnnounceFixlen(pol, m, id, sub, n);
      (Tolerant(pol) ==> k.Live?) && (k.Live? ==> k.phase == m.phase)
  {
    if Tolerant(pol) { FixlenAccepted(pol, m, id, sub, n); }
    hide Tolerant, Tell;
    var p := TellPolicy(pol, m, sub);
    TellKeeps(pol, p, FixlenBegin(id, sub, n));
    var q := Tell(pol, p, FixlenBegin(id, sub, n));
    if q.Live? { TellKeeps(pol, q, Piece(id, sub, 0, 0, [])); }
  }

  lemma PayloadShort(pol: Policy, m: Machine, n: nat, s: Bytes)
    requires AwaitsPayload(pol, m, n) && |s| < n
    ensures Broken(pol, false, Chunk(pol, m, s))
  {
    hide Tolerant, Step, OnFloat;
    if m.Failed? {
      BrokenByRefusal(pol, false, m, s);
    } else if m.phase.Fp? {
      FloatChunk(pol, m, s);
    } else if s != [] {
      assert s[..|s|] == s && s[|s|..] == [];
      var Payload(id, sub, total, off) := m.phase;
      var phase := Payload(id, sub, total, |s|);
      TellKeeps(pol, m.(phase := phase), Piece(id, sub, total, off, s));
      if Tolerant(pol) { TellAccepted(pol, m.(phase := phase), Piece(id, sub, total, off, s)); }
    }
  }

  /** The word and the bytes of a fixed-length value are its body. */
  lemma FixlenBody(n: nat, sub: nat, bs: Bytes)
    requires |bs| == n <= ARRAY_MAX && sub <= 3 && (sub == 0 ==> n == 4) && (sub == 1 ==> n == 8)
    ensures var v := if sub <= 1 then VFloat(n, S.Word(bs)) else if sub == 2 then VText(bs) else VBlob(bs);
      v.Typed() && !v.Oversize() && WireTypeOf(v) == 2 && Body(v) == Leb(8 * n + sub) + bs
  {
    hide Leb, LeBytes, Pow256, S.Word, LebRun, LeRun, ZigzagRun;
    if sub <= 1 { WordIsLe(bs); }
  }

  lemma FixlenBytes(w: U64, a: Bytes)
    ensures var r := S.FixlenAt(w / 8, w % 8, a);
      r.Read? ==>
        && r.x.Typed() && !r.x.Oversize() && WireTypeOf(r.x) == 2
        && Leb(w) + a == Body(r.x) + r.rest
  {
    hide Leb, S.Word, Body, Value.Typed, Value.Oversize, WireTypeOf;
    var r, n, sub := S.FixlenAt(w / 8, w % 8, a), w / 8, w % 8;
    assert w == 8 * n + sub;
    if r.Read? {
      FixlenBody(n, sub, a[..n]);
      assert Leb(w) + (a[..n] + r.rest) == Leb(w) + a[..n] + r.rest;
    }
  }

  lemma FixlenMinimal(pol: Policy, m: Machine, id: nat, s: Bytes)
    requires m.Live? && AtRest(m)
    ensures Minimal(pol, m, id, 2, s, S.ValueAt(2, s))
  {
    hide Chunk, Leb, Tolerant, S.Number, OnFixWord, Body, Value.Typed, Value.Oversize;
    var k := Behind(m, id, 2);
    NumberChunk(pol, k, s);
    var a := S.Number(s);
    if a.Read? {
      WordReady(pol, m, id, a.x);
      FixlenBytes(a.x, a.rest);
      var r := S.FixlenAt(a.x / 8, a.x % 8, a.rest);
      if r.Wrong? { ChunkFailed(pol, Rejected(m, InvalidMsg), a.rest); }
      if r.Short? { PayloadShort(pol, OnFixWord(pol, k, id, a.x), a.x / 8, a.rest); }
    }
  }

  lemma CountReady(pol: Policy, m: Machine, id: int, t: nat, n: U64)
    requires m.Live? && m.part == FRESH && (t == 3 || t == 4) && n <= ARRAY_MAX
    ensures Awaits(pol, OnCount(pol, m.(phase := Count(id, t)), id, t, n), n)
  {
    var kind := if t == 4 then KSigned else KUnsigned;
    var k := m.(phase := Elems(id, t == 4, n, n));
    if Tolerant(pol) { AnnounceAccepted(pol, k, id, kind, n); }
    hide Tolerant, Tell;
    TellKeeps(pol, k, ArrayBegin(id, kind, n));
  }

  lemma IntegersMinimal(pol: Policy, m: Machine, id: nat, t: nat, s: Bytes)
    requires m.Live? && AtRest(m) && (t == 3 || t == 4)
    ensures Minimal(pol, m, id, t, s, S.ValueAt(t, s))
  {
    hide Chunk, Leb, LebRun, Tolerant, S.Number, S.Numbers, Announce, S.Signed;
    var k := Behind(m, id, t);
    NumberChunk(pol, k, s);
    var a := S.Number(s);
    if a.Read? {
      if a.x > ARRAY_MAX {
        ChunkFailed(pol, Rejected(m, InvalidMsg), a.rest);
      } else {
        var x := OnCount(pol, k, id, t, a.x);
        CountReady(pol, m, id, t, a.x);
        NumbersChunk(pol, x, a.x, a.rest);
        var r := S.Numbers(a.x, a.rest);
        if r.Read? {
          SignedRun(r.x);
          LebChunk(pol, k, a.x, LebRun(r.x) + r.rest);
          assert Leb(a.x) + (LebRun(r.x) + r.rest) == Leb(a.x) + LebRun(r.x) + r.rest;
        }
      }
    }
  }

  lemma ArrWordReady(pol: Policy, m: Machine, id: int, n: nat, w: U64)
    requires m.Live? && m.part == FRESH
    ensures var k := OnArrWord(pol, m.(phase := ArrWord(id, n)), id, n, w);
      if w != 32 && w != 65 then k == Rejected(m, InvalidMsg) else AwaitsWords(pol, k, if w == 32 then 4 else 8, n)
  {
    var width, kind := if w == 32 then 4 else 8, if w == 32 then KFp32 else KFp64;
    var k := m.(phase := ArrFp(id, width, n, n, []));
    if Tolerant(pol) { AnnounceAccepted(pol, k, id, kind, n); }
    hide Tolerant, Tell;
    TellKeeps(pol, k, ArrayBegin(id, kind, n));
  }

  lemma FloatsMinimal(pol: Policy, m: Machine, id: nat, s: Bytes)
    requires m.Live? && AtRest(m)
    ensures Minimal(pol, m, id, 5, s, S.ValueAt(5, s))
  {
    hide Chunk, Leb, LeRun, Tolerant, S.Number, S.Words, Announce, Pow256;
    var k := Behind(m, id, 5);
    NumberChunk(pol, k, s);
    var a := S.Number(s);
    if a.Read? {
      if a.x > ARRAY_MAX {
        ChunkFailed(pol, Rejected(m, InvalidMsg), a.rest);
      } else {
        var x := m.(phase := ArrWord(id, a.x));
        NumberChunk(pol, x, a.rest);
        var b := S.Number(a.rest);
        if b.Read? {
          ArrWordReady(pol, m, id, a.x, b.x);
          if b.x != 32 && b.x != 65 {
            ChunkFailed(pol, Rejected(m, InvalidMsg), b.rest);
          } else {
            var width := if b.x == 32 then 4 else 8;
            WordsAreRun(a.x, width, b.rest);
            var r := S.Words(a.x, width, b.rest);
            if r.Read? {
              LebChunk(pol, k, a.x, Leb(b.x) + b.rest);
              assert Leb(a.x) + (Leb(b.x) + (LeRun(width, r.x) + r.rest)) == Leb(a.x) + Leb(b.x) + LeRun(width, r.x) + r.rest;
            } else {
              WordsShort(pol, OnArrWord(pol, x, id, a.x, b.x), a.x, width, b.rest);
            }
          }
        }
      }
    }
  }

  lemma ValueWalks(pol: Policy, m: Machine, id: nat, t: nat, s: Bytes)
    requires m.Live? && AtRest(m) && id <= ID_MAX && t <= 5
    ensures var r := S.ValueAt(t, s);
      if r.Read? then
        && Chunk(pol, OnHeader(pol, m, 8 * id + t), s) == Chunk(pol, WalkField(pol, m, id, r.x), r.rest)
        && (Tolerant(pol) ==> WalkField(pol, m, id, r.x).Live?)
      else Broken(pol, r.Wrong?, Chunk(pol, OnHeader(pol, m, 8 * id + t), s))
  {
    hide Chunk, OnHeader, Body, S.ValueAt, Tolerant, TellAll, TellPolicy, Value.Typed, Value.Oversize;
    BehindHeader(pol, m, id, t);
    if t <= 1 { ScalarMinimal(pol, m, id, t, s); }
    else if t == 2 { FixlenMinimal(pol, m, id, s); }
    else if t <= 4 { IntegersMinimal(pol, m, id, t, s); }
    else { FloatsMinimal(pol, m, id, s); }
    var r := S.ValueAt(t, s);
    if r.Read? {
      if t <= 1 { ScalarDecodes(pol, m, id, r.x, r.rest); }
      else if t == 2 { FixlenDecodes(pol, m, id, r.x, r.rest); }
      else { ArrayDecodes(pol, m, id, r.x, r.rest); }
      PolicyKeeps(pol, m);
      if Tolerant(pol) { TellAllTolerated(pol, if r.x.VText? then TellPolicy(pol, m, Str) else m, EventsOf(id, r.x)); }
    }
  }

  /* ----- scopes ----- */

  /** What the fields of a scope do: the walk of what they spell, and the scope's end; or a
      decode broken off. */
  ghost predicate Walks(pol: Policy, m: Machine, s: Bytes, depth: nat, r: S.Reading<seq<Node>>) {
    if r.Read? then
      var w := Walk(pol, m, r.x);
      && (Tolerant(pol) ==> w.Live?)
      && Chunk(pol, m, s) == if depth == 0 || w.Failed? then w else Chunk(pol, Closed(pol, w), r.rest)
    else Broken(pol, r.Wrong?, Chunk(pol, m, s))
  }

  /** Between two fields of a scope `depth` levels down. */
  ghost predicate Inside(pol: Policy, m: Machine, depth: nat) {
    AtRest(m) && (Tolerant(pol) ==> m.Live?) && (m.Live? ==> m.Depth() == depth)
  }

  lemma FailedWalks(pol: Policy, m: Machine, s: Bytes, depth: nat, r: S.Reading<seq<Node>>)
    requires Inside(pol, m, depth) && m.Failed?
    ensures Walks(pol, m, s, depth, r)
  {
    hide Tolerant;
    ChunkFailed(pol, m, s);
  }

  lemma FirstWalks(pol: Policy, m: Machine, s: Bytes, n: Node, more: Bytes, depth: nat)
    requires Inside(pol, m, depth) && m.Live?
    requires Chunk(pol, m, s) == Chunk(pol, WalkNode(pol, m, n), more)
    requires Walks(pol, WalkNode(pol, m, n), more, depth, S.Fields(more, depth))
    ensures Walks(pol, m, s, depth, S.Before(n, S.Fields(more, depth)))
  {
    hide Chunk, WalkNode, Tolerant, S.Fields, Closed;
    var r := S.Fields(more, depth);
    if r.Read? {
      assert ([n] + r.x)[1..] == r.x;
      assert Walk(pol, m, [n] + r.x) == Walk(pol, WalkNode(pol, m, n), r.x);
    }
  }

  lemma StaysInside(pol: Policy, m: Machine, n: Node, depth: nat)
    requires Inside(pol, m, depth) && m.Live? && (Tolerant(pol) ==> WalkNode(pol, m, n).Live?)
    ensures Inside(pol, WalkNode(pol, m, n), depth)
  {
    hide WalkNode, Tolerant;
    WalkNodeKeeps(pol, m, n);
  }

  lemma HeaderParts(h: nat)
    ensures h == 8 * (h / 8) + h % 8 && h % 8 <= 7
  {
  }

  lemma {:induction false} FieldsWalk(pol: Policy, m: Machine, s: Bytes, depth: nat)
    requires Inside(pol, m, depth) && depth <= 255
    ensures Walks(pol, m, s, depth, S.Fields(s, depth))
    decreases |s|, 1
  {
    hide Chunk, OnHeader, WalkField, WalkNode, Opened, Closed, Tolerant, S.Number, S.ValueAt, S.Fields, AtRest, Walk;
    if m.Failed? {
      FailedWalks(pol, m, s, depth, S.Fields(s, depth));
    } else if s == [] {
      NothingWalks(pol, m, depth);
    } else {
      HeadedWalks(pol, m, s, depth);
    }
  }

  lemma NothingWalks(pol: Policy, m: Machine, depth: nat)
    requires Inside(pol, m, depth) && m.Live?
    ensures Walks(pol, m, [], depth, S.Fields([], depth))
  {
    hide Tolerant;
  }

  /** A scope's end, or a header that cannot be. */
  lemma MarkerWalks(pol: Policy, m: Machine, s: Bytes, depth: nat)
    requires Inside(pol, m, depth) && m.Live? && s != [] && depth <= 255
    requires var a := S.Number(s); a.Read? ==> a.x / 8 > ID_MAX || a.x % 8 == 7 || (a.x % 8 == 6 && depth >= 255)
    ensures Walks(pol, m, s, depth, S.Fields(s, depth))
  {
    hide Chunk, Tolerant, S.Number, CallOn;
    NumberChunk(pol, m, s);
    var a := S.Number(s);
    if a.Read? {
      var k := OnHeader(pol, m, a.x);
      if a.x / 8 > ID_MAX || a.x % 8 == 6 || depth == 0 {
        assert k == Rejected(m, InvalidMsg);
        ChunkFailed(pol, k, a.rest);
      } else {
        assert k == Closed(pol, m);
        assert Walk(pol, m, []) == m;
      }
    }
  }

  lemma {:induction false} HeadedWalks(pol: Policy, m: Machine, s: Bytes, depth: nat)
    requires Inside(pol, m, depth) && m.Live? && s != [] && depth <= 255
    ensures Walks(pol, m, s, depth, S.Fields(s, depth))
    decreases |s|, 0
  {
    hide Chunk, OnHeader, WalkField, Opened, Closed, Tolerant, S.Number, S.ValueAt, Walk, Walks, Broken, Machine.Fits;
    var a := S.Number(s);
    if !a.Read? || a.x / 8 > ID_MAX || a.x % 8 == 7 || (a.x % 8 == 6 && depth >= 255) {
      MarkerWalks(pol, m, s, depth);
    } else {
      NumberChunk(pol, m, s);
      HeaderParts(a.x);
      var id, t := a.x / 8, a.x % 8;
      if t == 6 {
        SequenceWalks(pol, m, s, depth, id, a.rest);
      } else {
        ValueWalks(pol, m, id, t, a.rest);
        var r := S.ValueAt(t, a.rest);
        if r.Read? {
          var n := Field(id, r.x);
          StaysInside(pol, m, n, depth);
          FieldsWalk(pol, WalkNode(pol, m, n), r.rest, depth);
          FirstWalks(pol, m, s, n, r.rest, depth);
        } else {
          BrokenWalks(pol, m, s, depth, S.Fields(s, depth));
        }
      }
    }
  }

  lemma BrokenWalks(pol: Policy, m: Machine, s: Bytes, depth: nat, r: S.Reading<seq<Node>>)
    requires !r.Read? && Broken(pol, r.Wrong?, Chunk(pol, m, s))
    ensures Walks(pol, m, s, depth, r)
  {
    hide Broken, Chunk;
  }

  lemma {:induction false} SequenceWalks(pol: Policy, m: Machine, s: Bytes, depth: nat, id: nat, inner: Bytes)
    requires Inside(pol, m, depth) && m.Live? && depth < 255 && id <= ID_MAX && |inner| < |s|
    requires Chunk(pol, m, s) == Chunk(pol, OnHeader(pol, m, 8 * id + 6), inner)
    ensures var kids := S.Fields(inner, depth + 1);
      Walks(pol, m, s, depth, if kids.Read? then S.Before(Sequence(id, kids.x, false), S.Fields(kids.rest, depth)) else kids)
    decreases |inner|, 2
  {
    hide Chunk, WalkField, Closed, Tolerant, S.Fields, Walk;
    var k, kids := Opened(pol, m, id), S.Fields(inner, depth + 1);
    assert OnHeader(pol, m, 8 * id + 6) == k;
    OpenedKeeps(pol, m, id);
    if Tolerant(pol) { OpenTolerated(pol, m, id); }
    hide Opened, OnHeader;
    FieldsWalk(pol, k, inner, depth + 1);
    if kids.Read? {
      var w, n := Walk(pol, k, kids.x), Sequence(id, kids.x, false);
      ClosingTolerated(pol, m, k, kids.x, depth);
      if w.Failed? { ChunkFailed(pol, w, kids.rest); }
      StaysInside(pol, m, n, depth);
      FieldsWalk(pol, WalkNode(pol, m, n), kids.rest, depth);
      FirstWalks(pol, m, s, n, kids.rest, depth);
    }
  }

  lemma ClosingTolerated(pol: Policy, m: Machine, k: Machine, kids: seq<Node>, depth: nat)
    requires Inside(pol, k, depth + 1) && (Tolerant(pol) ==> Walk(pol, k, kids).Live?)
    ensures Tolerant(pol) ==> Closed(pol, Walk(pol, k, kids)).Live?
  {
    hide Walk, Tolerant;
    WalkKeeps(pol, k, kids);
    if Tolerant(pol) { CloseTolerated(pol, Walk(pol, k, kids)); }
  }

  /* ----- whole messages ----- */

  /** Whatever the visitors: bytes that spell a message take them through its tree, and
      others end no decode Complete. */
  lemma MessageWalks(pol: Policy, root: Visitor, s: Bytes)
    requires root != Nil
    ensures var r, n := S.Message(s), Chunk(pol, Initial(root), s);
      if r.Read? then n == Walk(pol, Initial(root), r.x) else Broken(pol, r.Wrong?, n)
  {
    FreshFits();
    hide Chunk, Walk, S.Fields, Tolerant;
    FieldsWalk(pol, Initial(root), s, 0);
  }

  /** With visitors that refuse nothing, however the bytes are cut: Complete if and only if
      they spell a message, Incomplete if and only if they end too soon, Invalid if and only
      if they spell nothing, and then as malformed bytes. */
  lemma VerdictIsSpelled(pol: Policy, root: Visitor, cs: seq<Bytes>)
    requires Tolerant(pol) && root != Nil
    ensures var r, n := S.Message(Flatten(cs)), Feeds(pol, Initial(root), cs);
      && OutcomeOf(n) == (if r.Read? then Complete else if r.Short? then Incomplete else Invalid)
      && (n.Failed? ==> n.why == InvalidMsg)
  {
    FreshFits();
    hide Chunk, Feeds, Walk, S.Fields, Tolerant;
    var m, s := Initial(root), Flatten(cs);
    FieldsWalk(pol, m, s, 0);
    var r := S.Message(s);
    if r.Read? { WalkKeeps(pol, m, r.x); }
    FeedsMore(pol, m, [], s);
    Frames.ToleranceIgnoresCuts(pol, m, [s], cs);
  }

  /** The same visitors, refusing nothing. */
  function Tamed(pol: Policy): Policy { Policy((h: Log) => Option<Error>.None, pol.child, pol.takesCheck) }

  lemma TamedAgrees(pol: Policy, root: Visitor, cs: seq<Bytes>)
    requires Refusal(pol, Feeds(pol, Initial(root), cs).All()).None?
    ensures Feeds(Tamed(pol), Initial(root), cs) == Feeds(pol, Initial(root), cs)
  {
    hide Feeds;
    var m, n := Initial(root), Feeds(pol, Initial(root), cs);
    FeedsAsk(pol, Tamed(pol), m, cs);
    forall k: nat | 0 < k <= |n.All()| ensures AgreeAt(pol, Tamed(pol), n.All()[..k]) {
      if k < |n.All()| || n.Live? {
        assert Answered(pol, n, k);
      } else {
        assert n.All()[..k] == n.All();
      }
    }
  }

  /** Any visitors, any cutting: unless the last callback was refused, and then the decode ends
      with that very error, it is the bytes alone that decide the outcome. */
  lemma OutcomeIsSpelled(pol: Policy, root: Visitor, cs: seq<Bytes>)
    requires root != Nil
    ensures var r, n := S.Message(Flatten(cs)), Feeds(pol, Initial(root), cs);
      match Refusal(pol, n.All())
      case Some(e) => n.Failed? && n.why == e
      case None =>
        && OutcomeOf(n) == (if r.Read? then Complete else if r.Short? then Incomplete else Invalid)
        && (n.Failed? ==> n.why == InvalidMsg)
  {
    hide Feeds, S.Message, OutcomeOf;
    ErrorIsTheRefusal(pol, root, cs);
    if Refusal(pol, Feeds(pol, Initial(root), cs).All()).None? {
      TamedAgrees(pol, root, cs);
      VerdictIsSpelled(Tamed(pol), root, cs);
    }
  }

  lemma {:induction false} SpelledHeight(s: Bytes, depth: nat)
    requires depth <= 255
    ensures S.Fields(s, depth).Read? ==> Height(S.Fields(s, depth).x) <= 255 - depth
    decreases |s|
  {
    hide S.Number, S.ValueAt;
    var a := S.Number(s);
    if s != [] && a.Read? && a.x / 8 <= 2147483647 && a.x % 8 != 7 {
      if a.x % 8 == 6 {
        if depth < 255 {
          SpelledHeight(a.rest, depth + 1);
          var kids := S.Fields(a.rest, depth + 1);
          if kids.Read? { SpelledHeight(kids.rest, depth); }
        }
      } else {
        var r := S.ValueAt(a.x % 8, a.rest);
        if r.Read? { SpelledHeight(r.rest, depth); }
      }
    }
  }

  /** The callbacks of a whole message, in any pieces, are its tree's. */
  lemma CallbacksAreSpelled(root: Visitor, cs: seq<Bytes>)
    requires root != Nil && S.Message(Flatten(cs)).Read?
    ensures Join(Feeds(AcceptAll(), Initial(root), cs).All()) == Report(root, S.Message(Flatten(cs)).x)
  {
    FreshFits();
    AcceptAllIsBlind();
    hide Chunk, Feeds, Walk, S.Fields, Tolerant, CutBlind, Patient, Report, Join, AcceptAll;
    var m, s := Initial(root), Flatten(cs);
    var nodes := S.Message(s).x;
    BlindIsPatient(AcceptAll(), m);
    MessageWalks(AcceptAll(), root, s);
    SpelledHeight(s, 0);
    WalkReports(m, root, nodes);
    assert [] + Report(root, nodes) == Report(root, nodes);
    FeedsMore(AcceptAll(), m, [], s);
    ChunkInvariance(AcceptAll(), m, [s], cs);
    ReportWhole(root, nodes);
    JoinWhole(Report(root, nodes));
  }

  /* ----- and an encoder spells its tree ----- */

  lemma NumberOfLeb(v: U64, rest: Bytes)
    ensures S.Number(Leb(v) + rest) == S.Read(v, rest)
  {
    hide Leb, ReadVarint, S.Number;
    NumberIsRead(Leb(v) + rest);
    ReadFreshLeb(v, rest);
    assert (Leb(v) + rest)[|Leb(v)|..] == rest;
  }

  lemma {:induction false} NumbersOfRun(us: seq<U64>, rest: Bytes)
    ensures S.Numbers(|us|, LebRun(us) + rest) == S.Read(us, rest)
    decreases |us|
  {
    hide Leb, S.Number;
    if us == [] {
      assert LebRun(us) + rest == rest;
    } else {
      assert LebRun(us) + rest == Leb(us[0]) + (LebRun(us[1..]) + rest);
      NumberOfLeb(us[0], LebRun(us[1..]) + rest);
      NumbersOfRun(us[1..], rest);
      assert us == [us[0]] + us[1..];
    }
  }

  lemma {:induction false} WordsOfRun(width: nat, ws: seq<nat>, rest: Bytes)
    requires (width == 4 || width == 8) && forall i :: 0 <= i < |ws| ==> ws[i] < Pow256(width)
    ensures S.Words(|ws|, width, LeRun(width, ws) + rest) == S.Read(ws, rest)
    decreases |ws|
  {
    hide LeBytes, Le, Pow256, S.Word;
    if ws == [] {
      assert LeRun(width, ws) + rest == rest;
    } else {
      var s, b := LeRun(width, ws) + rest, LeBytes(ws[0], width);
      assert s == b + (LeRun(width, ws[1..]) + rest);
      assert s[..width] == b && s[width..] == LeRun(width, ws[1..]) + rest;
      WordIsLe(b);
      LeRoundTrip(ws[0], width);
      WordsOfRun(width, ws[1..], rest);
      assert ws == [ws[0]] + ws[1..];
    }
  }

  lemma FixlenOfBody(value: Value, rest: Bytes)
    requires value.Typed() && !value.Oversize() && WireTypeOf(value) == 2
    ensures S.ValueAt(2, Body(value) + rest) == S.Read(value, rest)
  {
    hide Leb, LeBytes, Le, Pow256, S.Word, S.Number;
    match value
    case VFloat(w, bits) =>
      var b := LeBytes(bits, w);
      assert Body(value) + rest == Leb(FloatWord(w)) + (b + rest);
      NumberOfLeb(FloatWord(w), b + rest);
      assert (b + rest)[..w] == b && (b + rest)[w..] == rest;
      WordIsLe(b);
      LeRoundTrip(bits, w);
    case VText(bs) => PayloadOfBody(2, bs, rest);
    case VBlob(bs) => PayloadOfBody(3, bs, rest);
  }

  lemma PayloadOfBody(sub: nat, bs: Bytes, rest: Bytes)
    requires |bs| <= ARRAY_MAX && (sub == 2 || sub == 3)
    ensures S.ValueAt(2, Leb(8 * |bs| + sub) + bs + rest) == S.Read(if sub == 2 then VText(bs) else VBlob(bs), rest)
  {
    hide Leb, S.Number;
    var w := 8 * |bs| + sub;
    assert w / 8 == |bs| && w % 8 == sub;
    assert Leb(w) + bs + rest == Leb(w) + (bs + rest);
    NumberOfLeb(w, bs + rest);
    assert (bs + rest)[..|bs|] == bs && (bs + rest)[|bs|..] == rest;
  }

  lemma SignedOfRun(ss: seq<I64>)
    ensures S.SignedAll(ZigzagRun(ss)) == ss
  {
    hide Zigzag, Unzigzag, S.Signed;
    forall i: nat | i < |ss| ensures S.SignedAll(ZigzagRun(ss))[i] == ss[i] {
      SignedIsZigzag(Zigzag(ss[i]));
      Varint.ZigzagInverse(ss[i], 0);
    }
  }

  lemma ValueOfBody(value: Value, rest: Bytes)
    requires value.Typed() && !value.Oversize()
    ensures S.ValueAt(WireTypeOf(value), Body(value) + rest) == S.Read(value, rest)
  {
    hide Leb, LebRun, LeRun, Pow256, S.Number, S.Numbers, S.Words, S.FixlenAt, Zigzag, S.Signed, Unzigzag;
    match value
    case VUnsigned(v) => NumberOfLeb(v, rest);
    case VSigned(x) =>
      NumberOfLeb(Zigzag(x), rest);
      SignedIsZigzag(Zigzag(x));
      Varint.ZigzagInverse(x, 0);
    case VFloat(_, _) => FixlenOfBody(value, rest);
    case VText(_) => FixlenOfBody(value, rest);
    case VBlob(_) => FixlenOfBody(value, rest);
    case VUnsignedArray(a) =>
      assert Body(value) + rest == Leb(|a|) + (LebRun(a) + rest);
      NumberOfLeb(|a|, LebRun(a) + rest);
      NumbersOfRun(a, rest);
    case VSignedArray(a) =>
      var us := ZigzagRun(a);
      assert Body(value) + rest == Leb(|a|) + (LebRun(us) + rest);
      NumberOfLeb(|a|, LebRun(us) + rest);
      NumbersOfRun(us, rest);
      SignedOfRun(a);
    case VFloatArray(w, a) =>
      var tail := LeRun(w, a) + rest;
      assert Body(value) + rest == Leb(|a|) + (Leb(FloatWord(w)) + tail);
      NumberOfLeb(|a|, Leb(FloatWord(w)) + tail);
      NumberOfLeb(FloatWord(w), tail);
      WordsOfRun(w, a, rest);
  }

  /** A tree without the note on how its frames were closed, which no byte carries. */
  function Plain(nodes: seq<Node>): seq<Node>
    decreases nodes
  {
    if nodes == [] then [] else [PlainNode(nodes[0])] + Plain(nodes[1..])
  }

  function PlainNode(n: Node): Node
    decreases n
  {
    match n
    case Field(_, _) => n
    case Sequence(id, kids, _) => Sequence(id, Plain(kids), false)
  }

  /** What stands behind the fields of a scope. */
  function EndOf(depth: nat, tail: Bytes): Bytes { if depth == 0 then [] else [7] + tail }

  /** The bytes of every tree an encoder may write spell that tree. */
  lemma {:induction false} TreeIsSpelled(nodes: seq<Node>, depth: nat, tail: Bytes)
    requires Sound(nodes) && depth + Height(nodes) <= 255
    ensures S.Fields(Ser(nodes) + EndOf(depth, tail), depth) == S.Read(Plain(nodes), if depth == 0 then [] else tail)
    decreases nodes, 1
  {
    hide SerNode, SoundNode, HeightOf, S.Fields, PlainNode, EndOf;
    if nodes == [] {
      assert Ser(nodes) + EndOf(depth, tail) == EndOf(depth, tail);
      EndIsSpelled(depth, tail);
    } else {
      var more := Ser(nodes[1..]) + EndOf(depth, tail);
      assert Ser(nodes) + EndOf(depth, tail) == SerNode(nodes[0]) + more;
      TreeIsSpelled(nodes[1..], depth, tail);
      NodeIsSpelled(nodes[0], depth, more);
    }
  }

  lemma EndIsSpelled(depth: nat, tail: Bytes)
    ensures S.Fields(EndOf(depth, tail), depth) == S.Read([], if depth == 0 then [] else tail)
  {
    if depth > 0 {
      assert Leb(7) == [7];
      NumberOfLeb(7, tail);
    }
  }

  lemma HeadSpelled(id: nat, t: nat, rest: Bytes)
    requires id <= ID_MAX && t < 8
    ensures S.Number(Head(id, t) + rest) == S.Read(8 * id + t, rest) && Head(id, t) + rest != []
    ensures (8 * id + t) / 8 == id && (8 * id + t) % 8 == t
  {
    hide Leb, S.Number;
    NumberOfLeb(8 * id + t, rest);
  }

  lemma {:induction false} NodeIsSpelled(n: Node, depth: nat, more: Bytes)
    requires SoundNode(n) && depth + HeightOf(n) <= 255
    ensures S.Fields(SerNode(n) + more, depth) == S.Before(PlainNode(n), S.Fields(more, depth))
    decreases n, 0
  {
    hide Head, Body, S.Number, S.ValueAt, Ser, Height, Plain, Value.Typed, Value.Oversize;
    match n
    case Field(id, value) =>
      var t, rest := WireTypeOf(value), Body(value) + more;
      assert SerNode(n) + more == Head(id, t) + rest;
      HeadSpelled(id, t, rest);
      ValueOfBody(value, more);
    case Sequence(id, kids, _) =>
      var rest := Ser(kids) + EndOf(depth + 1, more);
      assert END == [7];
      assert SerNode(n) + more == Head(id, 6) + rest;
      HeadSpelled(id, 6, rest);
      TreeIsSpelled(kids, depth + 1, more);
  }

  /** Balanced calls without an argument error emit bytes that spell their pruned tree. */
  lemma MessageIsSpelled(lim: Limits, ops: seq<Op>)
    requires TypedOps(ops) && lim.maxDepth <= MAX_DEPTH && ApplyAll(lim, EMPTY, ops).err.None? && ApplyAll(lim, EMPTY, ops).depth == 0
    ensures |Build(ops)| == 1 && S.Message(ApplyAll(lim, EMPTY, ops).out) == S.Read(Plain(Prune(Build(ops)[0].kids)), [])
  {
    hide Prune, Ser, Build, ApplyAll, SoundDraft, Tracks, Height, S.Fields;
    BalancedOutput(lim, ops);
    TraceSound(lim, ops);
    DraftKidsSound(Build(ops), lim.maxDepth);
    var kids := Build(ops)[0].kids;
    PruneSound(kids);
    TreeIsSpelled(Prune(kids), 0, []);
    assert Ser(Prune(kids)) + EndOf(0, []) == Ser(Prune(kids));
  }
}
