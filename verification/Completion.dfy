/** Incomplete means what it says: exactly which interrupted decodes can still end
    Complete, with bytes that get there. */
module Completion {
  import opened Wire
  import opened Machine
  import opened FastPaths

  /** A visitor that never refuses. */
  ghost predicate Tolerant(pol: Policy) {
    forall h: Log :: pol.refuse(h) == None
  }

  /** A half-read header, word or count that no further byte can make acceptable.
      The decoder calls it Incomplete all the same, until the varint ends. */
  predicate Doomed(m: Machine)
    requires m.Live?
  {
    var acc := m.part.acc;
    m.part.nb > 0 &&
    match m.phase
    case Header =>
      || acc / 8 > ID_MAX
      || (acc % 8 == T_SEQUENCE_START && m.Depth() >= MAX_DEPTH)
      || (acc % 8 == T_SEQUENCE_END && m.Depth() <= 0)
    case FixWord(_) => acc / 8 > ARRAY_MAX || acc % 8 > 3 || (acc % 8 == 0 && acc != 32) || (acc % 8 == 1 && acc != 65)
    case Count(_, _) => acc > ARRAY_MAX
    case ArrWord(_, _) => acc != 32 && acc != 65
    case _ => false
  }

  /* ----- doomed decodes stay doomed ----- */

  lemma HigherGroup(y: int, nb: nat)
    requires 0 <= y && nb >= 1
    ensures Group(y, nb) >= 0 && Group(y, nb) % 128 == 0
  {
    var w := Weight(nb - 1);
    assert Group(y, nb) == 128 * (y * w);
  }

  lemma GrowsBy(a: nat, g: int, v: int)
    requires v == a + g && g >= 0 && g % 128 == 0
    ensures v >= a && v % 128 == a % 128
  {
    var q, k := g / 128, a / 128;
    assert g == 128 * q && a == 128 * k + a % 128;
    assert v == 128 * (q + k) + a % 128;
  }

  lemma StepVarintGrows(p: Partial, b: Byte)
    requires p.Fits() && p.nb >= 1
    ensures match StepVarint(p, b)
            case More(q) => q.acc >= p.acc && q.acc % 128 == p.acc % 128 && q.nb >= 1
            case Done(v) => v >= p.acc && v % 128 == p.acc % 128
            case Overflow => true
  {
    var y, k := if p.nb >= 9 then b else Low7(b), if p.nb >= 9 then 9 else p.nb;
    HigherGroup(y, k);
    GrowsBy(p.acc, Group(y, k), p.acc + Group(y, k));
    hide Group, Weight, Low7;
  }

  lemma DoomedStep(pol: Policy, m: Machine, b: Byte)
    requires m.Live? && m.Fits() && Doomed(m)
    ensures var n := Step(pol, m, b); n.Failed? || (Doomed(n) && n.Fits())
  {
    hide Tell, AnnounceFixlen, Announce, OnElement, StepVarint, Weight, Group;
    StepFits(pol, m, b);
    StepVarintGrows(m.part, b);
    StepVarintBounds(m.part, b);
    match StepVarint(m.part, b)
    case Overflow =>
    case More(q) => SameTag(m.part.acc, q.acc);
    case Done(v) => SameTag(m.part.acc, v);
  }

  lemma Eighths(n: nat, k: nat, y: nat)
    requires n == 8 * k + y && y < 8
    ensures n / 8 == k && n % 8 == y
  {
  }

  lemma Octal(q: nat, r: nat)
    ensures (128 * q + r) % 8 == r % 8 && (128 * q + r) / 8 == 16 * q + r / 8
  {
    var x, y := r / 8, r % 8;
    Eighths(128 * q + r, 16 * q + x, y);
  }

  lemma SameTag(a: nat, v: nat)
    requires v >= a && v % 128 == a % 128
    ensures v % 8 == a % 8 && v / 8 >= a / 8
    ensures (v == 32 || v == 65) ==> v == a
  {
    var qa, qv, r := a / 128, v / 128, a % 128;
    assert a == 128 * qa + r && v == 128 * qv + r;
    Octal(qa, r);
    Octal(qv, r);
  }

  lemma {:induction false} DoomedChunk(pol: Policy, m: Machine, c: Bytes)
    requires m.Live? && m.Fits() && Doomed(m)
    ensures var n := Chunk(pol, m, c); n.Failed? || (n.Fits() && Doomed(n))
    decreases |c|
  {
    hide Step;
    if c != [] {
      DoomedStep(pol, m, c[0]);
      var n := Step(pol, m, c[0]);
      if n.Live? { DoomedChunk(pol, n, c[1..]); } else { ChunkFailed(pol, n, c[1..]); }
    }
  }

  /* ----- the others can be completed ----- */

  function Zeros(n: nat): (s: Bytes)
    ensures |s| == n
  {
    if n == 0 then [] else [0] + Zeros(n - 1)
  }

  function FloatZeros(width: nat, n: nat): Bytes {
    if n == 0 then [] else Zeros(width) + FloatZeros(width, n - 1)
  }

  function Closers(n: nat): Bytes {
    if n == 0 then [] else [7] + Closers(n - 1)
  }

  /** Bytes that end the field a machine is in, no varint being half read. */
  function FieldEnd(phase: Phase): Bytes
    requires phase.Fits()
  {
    match phase
    case Header => []
    case ScalarU(_) => [0]
    case ScalarS(_) => [0]
    case FixWord(_) => [2]
    case Fp(_, width, got) => Zeros(width - |got|)
    case Payload(_, _, total, off) => Zeros(total - off)
    case Count(_, wire) => if wire == T_ARRAY_FIXLEN then [0, 32] else [0]
    case Elems(_, _, _, remain) => Zeros(remain)
    case ArrWord(_, total) => [32] + FloatZeros(4, total)
    case ArrFp(_, width, _, remain, got) => Zeros(width - |got|) + FloatZeros(width, remain - 1)
  }

  /** Between two fields, at a given depth. */
  ghost predicate Rests(m: Machine, depth: int) {
    m.Live? && m.phase.Header? && m.part == FRESH && m.Depth() == depth && m.Fits()
  }

  /** What `Tell` does when nobody refuses. */
  lemma TellAccepted(pol: Policy, m: Machine, ev: Event)
    requires Tolerant(pol) && m.Live?
    ensures var n := Tell(pol, m, ev); n.Live? && n == m.(log := n.log)
  {
  }

  lemma SettleAccepted(pol: Policy, m: Machine)
    requires Tolerant(pol) && m.Live? && (m.phase.Elems? || m.phase.ArrFp?)
    ensures var n := Settle(pol, m);
            n.Live? && n == m.(log := n.log, phase := if m.phase.remain == 0 then Header else m.phase)
  {
    hide Tell, Tolerant;
    TellAccepted(pol, m.(phase := Header), ArrayEnd(m.phase.id));
  }

  lemma ElementAccepted(pol: Policy, m: Machine, v: U64)
    requires Tolerant(pol) && m.Live? && m.phase.Elems? && m.phase.remain > 0
    ensures var n, r := OnElement(pol, m, v), m.phase.remain - 1;
            n.Live? && n == m.(log := n.log, phase := if r == 0 then Header else Elems(m.phase.id, m.phase.signed, m.phase.total, r))
  {
    hide Tell, Settle, Tolerant;
    var Elems(id, signed, total, remain) := m.phase;
    var k := m.(phase := Elems(id, signed, total, remain - 1));
    var ev := if signed then ArraySigned(id, total - remain, Unzigzag(v)) else ArrayUnsigned(id, total - remain, v);
    TellAccepted(pol, k, ev);
    SettleAccepted(pol, Tell(pol, k, ev));
  }

  lemma ArrFloatAccepted(pol: Policy, m: Machine, bits: int)
    requires Tolerant(pol) && m.Live? && m.phase.ArrFp? && m.phase.remain > 0
    ensures var n, r := OnArrFloat(pol, m, bits), m.phase.remain - 1;
            n.Live? && n == m.(log := n.log, phase := if r == 0 then Header else ArrFp(m.phase.id, m.phase.width, m.phase.total, r, []))
  {
    hide Tell, Settle, Tolerant;
    var ArrFp(id, width, total, remain, _) := m.phase;
    var k := m.(phase := ArrFp(id, width, total, remain - 1, []));
    var ev := ArrayFloat(id, total - remain, width, bits);
    TellAccepted(pol, k, ev);
    SettleAccepted(pol, Tell(pol, k, ev));
  }

  lemma AnnounceAccepted(pol: Policy, m: Machine, id: int, kind: Kind, count: int)
    requires Tolerant(pol) && m.Live? && (m.phase.Elems? || m.phase.ArrFp?)
    ensures var n := Announce(pol, m, id, kind, count);
            n.Live? && n == m.(log := n.log, phase := if m.phase.remain == 0 then Header else m.phase)
  {
    hide Tell, Settle, Tolerant;
    TellAccepted(pol, m, ArrayBegin(id, kind, count));
    SettleAccepted(pol, Tell(pol, m, ArrayBegin(id, kind, count)));
  }

  lemma FixlenAccepted(pol: Policy, m: Machine, id: int, sub: Subtype, n: int)
    requires Tolerant(pol) && m.Live?
    ensures var k := AnnounceFixlen(pol, m, id, sub, n); k.Live? && k == m.(log := k.log, told := k.told) && |k.told| == |m.told|
  {
    hide Tell, Tolerant;
    var p := TellPolicy(pol, m, sub);
    TellAccepted(pol, p, FixlenBegin(id, sub, n));
    TellAccepted(pol, Tell(pol, p, FixlenBegin(id, sub, n)), Piece(id, sub, 0, 0, []));
  }

  /** A zero byte ends any varint, with the value read so far. */
  lemma ZeroEnds(p: Partial)
    requires p.Fits()
    ensures StepVarint(p, 0) == Done(p.acc)
  {
    assert Group(0, p.nb) == 0 && Group(0, 9) == 0;
    hide Group, Weight;
  }

  lemma SmallEnds(b: Byte)
    requires b < 128
    ensures StepVarint(FRESH, b) == Done(b)
  {
    assert Group(b, 0) == b;
    hide Group;
  }

  lemma ChunkByte(pol: Policy, m: Machine, b: Byte, rest: Bytes)
    requires m.Live? && !m.phase.Payload?
    ensures Chunk(pol, m, [b] + rest) == Chunk(pol, Step(pol, m, b), rest)
  {
    hide Step;
    assert ([b] + rest)[1..] == rest;
  }

  lemma ChunkVarint(pol: Policy, m: Machine, b: Byte, v: U64, rest: Bytes)
    requires m.Live? && m.phase.ReadsVarint() && StepVarint(m.part, b) == Done(v)
    ensures Chunk(pol, m, [b] + rest) == Chunk(pol, OnVarint(pol, m.(part := FRESH), v), rest)
  {
    hide Step, OnVarint, StepVarint;
    ChunkByte(pol, m, b, rest);
    StepOnVarint(pol, m, b);
  }

  lemma {:induction false} ElementsEnd(pol: Policy, m: Machine, rest: Bytes) returns (n: Machine)
    requires Tolerant(pol) && m.Live? && m.Fits() && m.part == FRESH && m.phase.Elems?
    ensures Rests(n, m.Depth()) && Chunk(pol, m, Zeros(m.phase.remain) + rest) == Chunk(pol, n, rest)
    decreases m.phase.remain
  {
    hide Tolerant, Chunk, OnElement, Settle;
    var r := m.phase.remain;
    assert Zeros(r) + rest == [0] + (Zeros(r - 1) + rest);
    SmallEnds(0);
    ChunkVarint(pol, m, 0, 0, Zeros(r - 1) + rest);
    ElementAccepted(pol, m, 0);
    n := OnElement(pol, m, 0);
    if r > 1 {
      n := ElementsEnd(pol, n, rest);
    } else {
      assert Zeros(0) + rest == rest;
    }
  }

  lemma {:induction false} FloatsEnd(pol: Policy, m: Machine, rest: Bytes) returns (n: Machine)
    requires Tolerant(pol) && m.Live? && m.Fits() && m.part == FRESH && m.phase.ArrFp?
    ensures Rests(n, m.Depth())
    ensures Chunk(pol, m, Zeros(m.phase.width - |m.phase.got|) + FloatZeros(m.phase.width, m.phase.remain - 1) + rest) == Chunk(pol, n, rest)
    decreases m.phase.remain
  {
    hide Tolerant, Chunk, OnArrFloat, Settle, Le;
    var ArrFp(_, w, _, r, got) := m.phase;
    var k, tail := w - |got|, FloatZeros(w, r - 1) + rest;
    var s := Zeros(k) + FloatZeros(w, r - 1) + rest;
    assert s[..k] == Zeros(k) && s[k..] == tail;
    ArrFloatChunk(pol, m, s);
    var bits := Le(got + s[..k]);
    ArrFloatAccepted(pol, m, bits);
    n := OnArrFloat(pol, m, bits);
    if r > 1 {
      assert Zeros(w) + FloatZeros(w, r - 2) == FloatZeros(w, r - 1);
      n := FloatsEnd(pol, n, rest);
    } else {
      assert tail == rest;
    }
  }

  /** A field whose array has just been announced, or is already over. */
  lemma AnnouncedEnds(pol: Policy, m: Machine, rest: Bytes, s: Bytes) returns (n: Machine)
    requires Tolerant(pol) && m.Live? && m.Fits() && m.part == FRESH
    requires m.phase.Header? ==> s == []
    requires m.phase.Elems? ==> s == Zeros(m.phase.remain)
    requires m.phase.ArrFp? ==> m.phase.got == [] && s == FloatZeros(m.phase.width, m.phase.remain)
    requires m.phase.Header? || m.phase.Elems? || m.phase.ArrFp?
    ensures Rests(n, m.Depth()) && Chunk(pol, m, s + rest) == Chunk(pol, n, rest)
  {
    hide Tolerant, Chunk;
    if m.phase.Elems? {
      n := ElementsEnd(pol, m, rest);
    } else if m.phase.ArrFp? {
      n := FloatsEnd(pol, m, rest);
    } else {
      assert [] + rest == rest;
      n := m;
    }
  }

  lemma PayloadEnds(pol: Policy, m: Machine, rest: Bytes) returns (n: Machine)
    requires Tolerant(pol) && m.Live? && m.Fits() && m.phase.Payload?
    ensures Rests(n, m.Depth()) && Chunk(pol, m, Zeros(m.phase.total - m.phase.off) + rest) == Chunk(pol, n, rest)
  {
    hide Tolerant;
    var Payload(id, sub, total, off) := m.phase;
    var s := Zeros(total - off) + rest;
    assert s[..total - off] == Zeros(total - off) && s[total - off..] == rest;
    TellAccepted(pol, m.(phase := Header), Piece(id, sub, total, off, Zeros(total - off)));
    n := TakePiece(pol, m, Zeros(total - off));
    hide TakePiece, Tell;
  }

  lemma FloatEnds(pol: Policy, m: Machine, rest: Bytes) returns (n: Machine)
    requires Tolerant(pol) && m.Live? && m.Fits() && m.phase.Fp?
    ensures Rests(n, m.Depth()) && Chunk(pol, m, Zeros(m.phase.width - |m.phase.got|) + rest) == Chunk(pol, n, rest)
  {
    hide Tolerant, Chunk, Tell, Le;
    var Fp(id, width, got) := m.phase;
    var k := width - |got|;
    var s := Zeros(k) + rest;
    assert s[..k] == Zeros(k) && s[k..] == rest;
    FloatChunk(pol, m, s);
    var bits := Le(got + s[..k]);
    TellAccepted(pol, m.(phase := Header), Float(id, width, bits));
    n := OnFloat(pol, m, bits);
  }

  /** Every field can be ended, when no varint of it is half read. */
  lemma FieldEnds(pol: Policy, m: Machine, rest: Bytes) returns (n: Machine)
    requires Tolerant(pol) && m.Live? && m.Fits() && m.part == FRESH
    ensures Rests(n, m.Depth()) && Chunk(pol, m, FieldEnd(m.phase) + rest) == Chunk(pol, n, rest)
  {
    hide Tolerant, Chunk, Tell, Announce, AnnounceFixlen, TakePiece, StepVarint;
    SmallEnds(0); SmallEnds(2); SmallEnds(32);
    match m.phase {
      case Header =>
        assert [] + rest == rest;
        n := m;
      case ScalarU(id) =>
        ChunkVarint(pol, m, 0, 0, rest);
        TellAccepted(pol, m.(phase := Header), Unsigned(id, 0));
        n := OnVarint(pol, m, 0);
      case ScalarS(id) =>
        ChunkVarint(pol, m, 0, 0, rest);
        TellAccepted(pol, m.(phase := Header), Signed(id, Unzigzag(0)));
        n := OnVarint(pol, m, 0);
      case FixWord(id) =>
        ChunkVarint(pol, m, 2, 2, rest);
        FixlenAccepted(pol, m.(phase := Header), id, Str, 0);
        n := OnVarint(pol, m, 2);
      case Fp(_, _, _) => n := FloatEnds(pol, m, rest);
      case Payload(_, _, _, _) => n := PayloadEnds(pol, m, rest);
      case Count(id, wire) => n := CountEnds(pol, m, rest);
      case Elems(_, _, _, _) => n := ElementsEnd(pol, m, rest);
      case ArrWord(_, total) =>
        assert [32] + FloatZeros(4, total) + rest == [32] + (FloatZeros(4, total) + rest);
        n := WordEnds(pol, m, rest);
      case ArrFp(_, _, _, _, _) => n := FloatsEnd(pol, m, rest);
    }
  }

  lemma WordEnds(pol: Policy, m: Machine, rest: Bytes) returns (n: Machine)
    requires Tolerant(pol) && m.Live? && m.Fits() && m.part == FRESH && m.phase.ArrWord?
    ensures Rests(n, m.Depth()) && Chunk(pol, m, [32] + (FloatZeros(4, m.phase.total) + rest)) == Chunk(pol, n, rest)
  {
    hide Tolerant, Chunk, Announce, StepVarint;
    var ArrWord(id, total) := m.phase;
    SmallEnds(32);
    ChunkVarint(pol, m, 32, 32, FloatZeros(4, total) + rest);
    var k := m.(phase := ArrFp(id, 4, total, total, []));
    AnnounceAccepted(pol, k, id, KFp32, total);
    n := AnnouncedEnds(pol, OnVarint(pol, m, 32), rest, FloatZeros(4, total));
  }

  lemma CountEnds(pol: Policy, m: Machine, rest: Bytes) returns (n: Machine)
    requires Tolerant(pol) && m.Live? && m.Fits() && m.part == FRESH && m.phase.Count?
    ensures Rests(n, m.Depth()) && Chunk(pol, m, FieldEnd(m.phase) + rest) == Chunk(pol, n, rest)
  {
    hide Tolerant, Chunk, Announce, StepVarint;
    var Count(id, wire) := m.phase;
    SmallEnds(0);
    if wire == T_ARRAY_FIXLEN {
      assert [0, 32] + rest == [0] + ([32] + (FloatZeros(4, 0) + rest));
      ChunkVarint(pol, m, 0, 0, [32] + (FloatZeros(4, 0) + rest));
      n := WordEnds(pol, OnVarint(pol, m, 0), rest);
    } else {
      ChunkVarint(pol, m, 0, 0, rest);
      var signed := wire != T_ARRAY_UNSIGNED;
      AnnounceAccepted(pol, m.(phase := Elems(id, signed, 0, 0)), id, if signed then KSigned else KUnsigned, 0);
      n := OnVarint(pol, m, 0);
    }
  }

  /** Closing the open scopes ends the message. */
  lemma {:induction false} ScopesEnd(pol: Policy, m: Machine, depth: nat)
    requires Tolerant(pol) && Rests(m, depth)
    ensures OutcomeOf(Chunk(pol, m, Closers(depth))) == Complete
    decreases depth
  {
    if depth > 0 {
      SmallEnds(7);
      var n := OnVarint(pol, m, 7);
      assert Rests(n, depth - 1) by { hide Tell; StepFits(pol, m, 7); StepOnVarint(pol, m, 7); }
      hide Tolerant, Chunk, OnVarint, StepVarint, Rests;
      ChunkVarint(pol, m, 7, 7, Closers(depth - 1)) by { assert m.Live? && m.phase.Header? && m.part == FRESH; }
      ScopesEnd(pol, n, depth - 1);
    }
  }

  /** A half-read varint that is not doomed can be ended by a zero byte. */
  lemma HalfVarintEnds(pol: Policy, m: Machine)
    requires Tolerant(pol) && m.Live? && m.Fits() && m.part.nb > 0 && !Doomed(m)
    ensures var n := Step(pol, m, 0); n.Live? && n.Fits() && n.part == FRESH
    ensures m.part.acc < TWO_64 && StepVarint(m.part, 0) == Done(m.part.acc)
  {
    hide Tolerant, Tell, Announce, AnnounceFixlen, OnElement, StepVarint, Weight;
    StepFits(pol, m, 0);
    ZeroEnds(m.part);
    StepVarintBounds(m.part, 0);
    StepOnVarint(pol, m, 0);
    var v, k := m.part.acc, m.(part := FRESH);
    match m.phase
    case Header => HeaderAccepted(pol, k, v);
    case ScalarU(id) => TellAccepted(pol, k.(phase := Header), Unsigned(id, v));
    case ScalarS(id) => TellAccepted(pol, k.(phase := Header), Signed(id, Unzigzag(v)));
    case FixWord(id) => FixlenAccepted(pol, k.(phase := WordPhase(id, v).value), id, SubtypeOf(v % 8), v / 8);
    case Count(id, wire) =>
      var signed := wire != T_ARRAY_UNSIGNED;
      AnnounceAccepted(pol, k.(phase := Elems(id, signed, v, v)), id, if signed then KSigned else KUnsigned, v);
    case Elems(_, _, _, _) => ElementAccepted(pol, k, v);
    case ArrWord(id, total) =>
      AnnounceAccepted(pol, k.(phase := ArrFp(id, 4, total, total, [])), id, KFp32, total);
      AnnounceAccepted(pol, k.(phase := ArrFp(id, 8, total, total, [])), id, KFp64, total);
  }

  lemma HeaderAccepted(pol: Policy, m: Machine, h: int)
    requires Tolerant(pol) && m.Live? && m.Fits() && m.part == FRESH && m.phase.Header? && h >= 0 && h / 8 <= ID_MAX
    requires (h % 8 == T_SEQUENCE_START ==> m.Depth() < MAX_DEPTH) && (h % 8 == T_SEQUENCE_END ==> m.Depth() > 0)
    ensures var n := OnHeader(pol, m, h); n.Live? && n.part == FRESH
  {
  }

  /** From any state a decode can be in, with visitors that never refuse: some bytes
      lead to Complete exactly when no half-read varint has already doomed it. */
  lemma HonestVerdict(pol: Policy, m: Machine)
    requires Tolerant(pol) && m.Live? && m.Fits()
    ensures (exists s: Bytes :: OutcomeOf(Chunk(pol, m, s)) == Complete) <==> !Doomed(m)
  {
    hide Tolerant, Chunk, Step, Doomed, OutcomeOf;
    if Doomed(m) {
      forall s: Bytes ensures OutcomeOf(Chunk(pol, m, s)) != Complete {
        DoomedChunk(pol, m, s);
        DoomedIncomplete(Chunk(pol, m, s));
      }
    } else if m.part.nb == 0 {
      OnlyZero(m.part);
      var s := FieldEnd(m.phase) + Closers(m.Depth());
      var n := FieldEnds(pol, m, Closers(m.Depth()));
      ScopesEnd(pol, n, m.Depth());
      assert OutcomeOf(Chunk(pol, m, s)) == Complete;
    } else {
      var k := Step(pol, m, 0);
      HalfVarintEnds(pol, m);
      var s := FieldEnd(k.phase) + Closers(k.Depth());
      ChunkByte(pol, m, 0, s);
      var n := FieldEnds(pol, k, Closers(k.Depth()));
      ScopesEnd(pol, n, k.Depth());
      assert OutcomeOf(Chunk(pol, m, [0] + s)) == Complete;
    }
  }

  lemma DoomedIncomplete(n: Machine)
    requires n.Failed? || Doomed(n)
    ensures OutcomeOf(n) != Complete
  {
  }

  /** Invalid is terminal: no later byte changes the verdict, the error or the calls. */
  lemma {:induction false} InvalidIsTerminal(pol: Policy, m: Machine, cs: seq<Bytes>)
    requires OutcomeOf(m) == Invalid
    ensures Feeds(pol, m, cs) == m
    decreases |cs|
  {
    if cs != [] { InvalidIsTerminal(pol, m, cs[1..]); }
  }
}
