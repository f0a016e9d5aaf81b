/** A decode does not depend on how its bytes are cut into chunks. */
module Chunking {
  import opened Wire
  import opened Machine

  /* ----- two readings of a log that forget the cuts ----- */

  /** The one-byte pieces of a payload piece. */
  function Singles(on: Visitor, id: int, sub: Subtype, total: int, off: nat, chunk: Bytes): Log
    decreases |chunk|
  {
    if chunk == [] then []
    else [Call(on, Piece(id, sub, total, off, [chunk[0]]))] + Singles(on, id, sub, total, off + 1, chunk[1..])
  }

  function ExplodeCall(c: Call): Log {
    if c.ev.Piece? && |c.ev.chunk| > 1 then Singles(c.on, c.ev.id, c.ev.sub, c.ev.total, c.ev.off, c.ev.chunk) else [c]
  }

  /** A log with every payload piece cut into single bytes. */
  function Explode(log: Log): Log {
    if log == [] then [] else Explode(log[..|log| - 1]) + ExplodeCall(log[|log| - 1])
  }

  /** A piece that continues the last call of a joined log. */
  predicate Continues(j: Log, c: Call) {
    && j != [] && c.ev.Piece? && c.ev.chunk != []
    && var last := j[|j| - 1];
    && last.ev.Piece? && last.ev.chunk != [] && last.on == c.on && last.ev.id == c.ev.id && last.ev.sub == c.ev.sub
    && last.ev.total == c.ev.total && c.ev.off > 0 && last.ev.off + |last.ev.chunk| == c.ev.off
  }

  function JoinCall(j: Log, c: Call): Log {
    if Continues(j, c) then
      j[..|j| - 1] + [Call(c.on, j[|j| - 1].ev.(chunk := j[|j| - 1].ev.chunk + c.ev.chunk))]
    else j + [c]
  }

  /** A log with adjacent pieces of one payload joined. */
  function Join(log: Log): Log {
    if log == [] then [] else JoinCall(Join(log[..|log| - 1]), log[|log| - 1])
  }

  function JoinFrom(j: Log, log: Log): Log
    decreases |log|
  {
    if log == [] then j else JoinFrom(JoinCall(j, log[0]), log[1..])
  }

  function Normal(m: Machine): Machine {
    if m.Failed? then Failed(Explode(m.heard), m.why) else m.(log := Explode(m.log))
  }

  /** An answer that does not tell how the payloads before it were cut, and does not
      refuse a payload that is not complete. */
  ghost predicate CutBlindAt(pol: Policy, h: Log) {
    h != [] ==>
      var ev := h[|h| - 1].ev;
      && (!ev.SetStringCheck? ==> pol.refuse(h) == pol.refuse(Explode(h)))
      && (ev.BeginSequence? && pol.refuse(h).None? ==> pol.child(h) == pol.child(Explode(h)))
      && (Unfinished(ev) ==> pol.refuse(h) == None)
  }

  /** All of a visitor's answers, whether a decode asks for them or not. */
  ghost predicate CutBlind(pol: Policy) {
    forall h: Log :: CutBlindAt(pol, h)
  }

  predicate Unfinished(ev: Event) {
    ev.Piece? && ev.off + |ev.chunk| < ev.total
  }

  lemma ExplodeAppend(log: Log, c: Call)
    ensures Explode(log + [c]) == Explode(log) + ExplodeCall(c)
  {
    assert (log + [c])[..|log|] == log;
  }

  lemma ExplodePiece(on: Visitor, id: int, sub: Subtype, total: int, off: nat, chunk: Bytes)
    requires chunk != []
    ensures ExplodeCall(Call(on, Piece(id, sub, total, off, chunk))) == Singles(on, id, sub, total, off, chunk)
  {
    if |chunk| == 1 { assert chunk == [chunk[0]]; assert chunk[1..] == []; }
  }

  /* ----- the joined log is a function of the exploded one ----- */

  lemma JoinPieces(j: Log, on: Visitor, id: int, sub: Subtype, total: int, off: nat, a: Bytes, b: Bytes)
    requires a != [] && b != [] 
    ensures JoinCall(JoinCall(j, Call(on, Piece(id, sub, total, off, a))), Call(on, Piece(id, sub, total, off + |a|, b)))
         == JoinCall(j, Call(on, Piece(id, sub, total, off, a + b)))
  {
    var c := Call(on, Piece(id, sub, total, off, a));
    var k := JoinCall(j, c);
    assert Continues(k, Call(on, Piece(id, sub, total, off + |a|, b)));
    if Continues(j, c) {
      var l := j[|j| - 1].ev.chunk;
      assert k[..|k| - 1] == j[..|j| - 1];
      assert (l + a) + b == l + (a + b);
    } else {
      assert k[..|k| - 1] == j;
    }
  }

  lemma JoinFromOne(j: Log, c: Call, log: Log)
    ensures JoinFrom(j, [c] + log) == JoinFrom(JoinCall(j, c), log)
    ensures JoinFrom(j, []) == j
  {
    hide JoinCall;
    assert ([c] + log)[1..] == log;
  }

  lemma SinglesHead(on: Visitor, id: int, sub: Subtype, total: int, off: nat, chunk: Bytes)
    requires chunk != []
    ensures Singles(on, id, sub, total, off, chunk)
         == [Call(on, Piece(id, sub, total, off, [chunk[0]]))] + Singles(on, id, sub, total, off + 1, chunk[1..])
    ensures Singles(on, id, sub, total, off, []) == []
  {
  }

  lemma {:induction false} JoinSingles(j: Log, on: Visitor, id: int, sub: Subtype, total: int, off: nat, chunk: Bytes)
    requires chunk != []
    ensures JoinFrom(j, Singles(on, id, sub, total, off, chunk)) == JoinCall(j, Call(on, Piece(id, sub, total, off, chunk)))
    decreases |chunk|
  {
    hide JoinFrom, JoinCall, Singles;
    var first := Call(on, Piece(id, sub, total, off, [chunk[0]]));
    SinglesHead(on, id, sub, total, off, chunk);
    JoinFromOne(j, first, Singles(on, id, sub, total, off + 1, chunk[1..]));
    if |chunk| == 1 {
      assert chunk == [chunk[0]] && chunk[1..] == [];
      SinglesHead(on, id, sub, total, off + 1, chunk);
      JoinFromOne(JoinCall(j, first), first, []);
    } else {
      JoinSingles(JoinCall(j, first), on, id, sub, total, off + 1, chunk[1..]);
      JoinPieces(j, on, id, sub, total, off, [chunk[0]], chunk[1..]);
      assert [chunk[0]] + chunk[1..] == chunk;
    }
  }

  lemma {:induction false} JoinAppend(a: Log, b: Log)
    ensures Join(a + b) == JoinFrom(Join(a), b)
    decreases |b|
  {
    if b == [] {
      assert a + b == a;
    } else {
      var c := a + [b[0]];
      assert c[..|a|] == a;
      assert a + b == c + b[1..];
      JoinAppend(c, b[1..]);
    }
  }

  lemma {:induction false} JoinExplode(log: Log)
    ensures Join(Explode(log)) == Join(log)
    decreases |log|
  {
    if log != [] {
      var init, c := log[..|log| - 1], log[|log| - 1];
      JoinExplode(init);
      JoinAppend(Explode(init), ExplodeCall(c));
      if c.ev.Piece? && |c.ev.chunk| > 1 {
        JoinSingles(Join(init), c.on, c.ev.id, c.ev.sub, c.ev.total, c.ev.off, c.ev.chunk);
      } else {
        assert [c][1..] == [];
      }
    }
  }

  /* ----- one byte does the same to a machine and to its exploded form ----- */

  lemma NormalCallOn(pol: Policy, m: Machine, v: Visitor, ev: Event)
    requires CutBlind(pol) && m.Live? && !ev.SetStringCheck? && (ev.Piece? ==> |ev.chunk| <= 1)
    ensures Normal(CallOn(pol, m, v, ev)) == CallOn(pol, Normal(m), v, ev)
  {
    ExplodeAppend(m.log, Call(v, ev));
    assert CutBlindAt(pol, m.log + [Call(v, ev)]);
  }

  lemma NormalTell(pol: Policy, m: Machine, ev: Event)
    requires CutBlind(pol) && m.Live? && !ev.SetStringCheck? && (ev.Piece? ==> |ev.chunk| <= 1)
    ensures Normal(Tell(pol, m, ev)) == Tell(pol, Normal(m), ev)
  {
    if m.Cur() != Nil { NormalCallOn(pol, m, m.Cur(), ev); }
  }

  lemma NormalSettle(pol: Policy, m: Machine)
    requires CutBlind(pol)
    ensures Normal(Settle(pol, m)) == Settle(pol, Normal(m))
  {
    if m.Live? && (m.phase.Elems? || m.phase.ArrFp?) {
      NormalTell(pol, m.(phase := Header), ArrayEnd(m.phase.id));
    }
  }

  lemma NormalTellPolicy(pol: Policy, m: Machine, sub: Subtype)
    requires m.Live?
    ensures Normal(TellPolicy(pol, m, sub)) == TellPolicy(pol, Normal(m), sub)
  {
    hide Explode;
    ExplodeAppend(m.log, Call(m.Cur(), SetStringCheck));
  }

  lemma NormalFixlen(pol: Policy, m: Machine, id: int, sub: Subtype, n: int)
    requires CutBlind(pol) && m.Live?
    ensures Normal(AnnounceFixlen(pol, m, id, sub, n)) == AnnounceFixlen(pol, Normal(m), id, sub, n)
  {
    hide Tell, TellPolicy, Explode, CutBlind;
    NormalTellPolicy(pol, m, sub);
    var b := TellPolicy(pol, m, sub);
    NormalTell(pol, b, FixlenBegin(id, sub, n));
    var c := Tell(pol, b, FixlenBegin(id, sub, n));
    if c.Live? { NormalTell(pol, c, Piece(id, sub, 0, 0, [])); }
  }

  lemma NormalFixWord(pol: Policy, m: Machine, id: int, w: int)
    requires CutBlind(pol) && m.Live? && w >= 0
    ensures Normal(OnFixWord(pol, m, id, w)) == OnFixWord(pol, Normal(m), id, w)
  {
    hide AnnounceFixlen, Explode, CutBlind;
    var phase := WordPhase(id, w);
    if phase.Some? { NormalFixlen(pol, m.(phase := phase.value), id, SubtypeOf(w % 8), w / 8); }
  }

  lemma NormalOpen(pol: Policy, m: Machine, id: int)
    requires CutBlind(pol) && m.Live?
    ensures Normal(Opened(pol, m, id)) == Opened(pol, Normal(m), id)
  {
    hide Explode, ExplodeCall;
    if m.Depth() < MAX_DEPTH && m.Cur() != Nil {
      NormalCallOn(pol, m, m.Cur(), BeginSequence(id));
      assert CutBlindAt(pol, m.log + [Call(m.Cur(), BeginSequence(id))]);
    }
  }

  lemma NormalClose(pol: Policy, m: Machine)
    requires CutBlind(pol) && m.Live?
    ensures Normal(Closed(pol, m)) == Closed(pol, Normal(m))
  {
    if !(m.Depth() <= 0 || m.told == []) && m.declined == 0 {
      NormalCallOn(pol, m.(open := m.open[..|m.open| - 1], told := m.told[..|m.told| - 1]), m.open[|m.open| - 1], EndSequence);
    }
  }

  lemma NormalAnnounce(pol: Policy, m: Machine, id: int, kind: Kind, count: int)
    requires CutBlind(pol) && m.Live?
    ensures Normal(Announce(pol, m, id, kind, count)) == Announce(pol, Normal(m), id, kind, count)
  {
    NormalTell(pol, m, ArrayBegin(id, kind, count));
    NormalSettle(pol, Tell(pol, m, ArrayBegin(id, kind, count)));
  }

  lemma NormalElement(pol: Policy, m: Machine, v: U64)
    requires CutBlind(pol) && m.Live? && m.phase.Elems?
    ensures Normal(OnElement(pol, m, v)) == OnElement(pol, Normal(m), v)
  {
    hide Tell, Settle, Explode, CutBlind;
    var Elems(id, signed, total, remain) := m.phase;
    var ev := if signed then ArraySigned(id, total - remain, Unzigzag(v)) else ArrayUnsigned(id, total - remain, v);
    var n := m.(phase := Elems(id, signed, total, remain - 1));
    NormalTell(pol, n, ev);
    NormalSettle(pol, Tell(pol, n, ev));
  }

  lemma NormalArrFloat(pol: Policy, m: Machine, bits: int)
    requires CutBlind(pol) && m.Live? && m.phase.ArrFp?
    ensures Normal(OnArrFloat(pol, m, bits)) == OnArrFloat(pol, Normal(m), bits)
  {
    hide Tell, Settle, Explode, CutBlind;
    var ArrFp(id, width, total, remain, _) := m.phase;
    var n := m.(phase := ArrFp(id, width, total, remain - 1, []));
    var ev := ArrayFloat(id, total - remain, width, bits);
    NormalTell(pol, n, ev);
    NormalSettle(pol, Tell(pol, n, ev));
  }

  lemma NormalVarint(pol: Policy, m: Machine, v: U64)
    requires CutBlind(pol) && m.Live? && m.phase.ReadsVarint()
    ensures Normal(OnVarint(pol, m, v)) == OnVarint(pol, Normal(m), v)
  {
    hide Tell, Explode, CutBlind, Opened, Closed, OnFixWord, Announce, OnElement;
    match m.phase
    case Header =>
      NormalOpen(pol, m, v / 8);
      NormalClose(pol, m);
    case ScalarU(id) => NormalTell(pol, m.(phase := Header), Unsigned(id, v));
    case ScalarS(id) => NormalTell(pol, m.(phase := Header), Signed(id, Unzigzag(v)));
    case FixWord(id) => NormalFixWord(pol, m, id, v);
    case Count(id, wire) =>
      var signed := wire != T_ARRAY_UNSIGNED;
      NormalAnnounce(pol, m.(phase := Elems(id, signed, v, v)), id, if signed then KSigned else KUnsigned, v);
    case Elems(_, _, _, _) => NormalElement(pol, m, v);
    case ArrWord(id, total) =>
      NormalAnnounce(pol, m.(phase := ArrFp(id, 4, total, total, [])), id, KFp32, total);
      NormalAnnounce(pol, m.(phase := ArrFp(id, 8, total, total, [])), id, KFp64, total);
  }

  lemma NormalStep(pol: Policy, m: Machine, b: Byte)
    requires CutBlind(pol)
    ensures Normal(Step(pol, m, b)) == Step(pol, Normal(m), b)
  {
    hide Tell, Explode, CutBlind, OnVarint, OnArrFloat, StepVarint, Le;
    if m.Live? {
      if m.phase.Fp? {
        NormalTell(pol, m.(phase := Header), Float(m.phase.id, m.phase.width, Le(m.phase.got + [b])));
      } else if m.phase.ArrFp? {
        NormalArrFloat(pol, m, Le(m.phase.got + [b]));
      } else if m.phase.Payload? {
        var Payload(id, sub, total, off) := m.phase;
        NormalTell(pol, m.(phase := if off + 1 == total then Header else Payload(id, sub, total, off + 1)), Piece(id, sub, total, off, [b]));
      } else {
        match StepVarint(m.part, b)
        case Done(v) => if 0 <= v < TWO_64 { NormalVarint(pol, m.(part := FRESH), v); }
        case _ =>
      }
    }
  }

  /* ----- a piece of a payload is its bytes ----- */

  lemma PieceSplit(pol: Policy, m: Machine, a: Bytes, b: Bytes)
    requires CutBlind(pol) && m.Live? && m.phase.Payload? && a != [] && b != []
    requires m.phase.off + |a| + |b| <= m.phase.total
    ensures TakePiece(pol, m, a).Live? && TakePiece(pol, m, a).phase.Payload?
    ensures Normal(TakePiece(pol, m, a + b)) == Normal(TakePiece(pol, TakePiece(pol, m, a), b))
  {
    hide Explode, ExplodeCall, Singles;
    var Payload(id, sub, total, off) := m.phase;
    if m.Cur() != Nil {
      var ca := Call(m.Cur(), Piece(id, sub, total, off, a));
      var cb := Call(m.Cur(), Piece(id, sub, total, off + |a|, b));
      var cab := Call(m.Cur(), Piece(id, sub, total, off, a + b));
      assert Unfinished(ca.ev);
      assert (m.log + [ca])[|m.log|] == ca;
      ExplodeAppend(m.log, ca);
      ExplodeAppend(m.log + [ca], cb);
      ExplodeAppend(m.log, cab);
      ExplodePiece(m.Cur(), id, sub, total, off, a);
      ExplodePiece(m.Cur(), id, sub, total, off + |a|, b);
      ExplodePiece(m.Cur(), id, sub, total, off, a + b);
      SinglesConcat(m.Cur(), id, sub, total, off, a, b);
      assert Explode(m.log + [ca] + [cb]) == Explode(m.log + [cab]);
      assert CutBlindAt(pol, m.log + [ca]);
      assert CutBlindAt(pol, m.log + [ca] + [cb]);
      assert CutBlindAt(pol, m.log + [cab]);
    }
  }

  lemma {:induction false} SinglesConcat(on: Visitor, id: int, sub: Subtype, total: int, off: nat, a: Bytes, b: Bytes)
    ensures Singles(on, id, sub, total, off, a + b)
         == Singles(on, id, sub, total, off, a) + Singles(on, id, sub, total, off + |a|, b)
    decreases |a|
  {
    if a == [] {
      assert a + b == b;
    } else {
      assert (a + b)[1..] == a[1..] + b;
      SinglesConcat(on, id, sub, total, off + 1, a[1..], b);
    }
  }

  lemma {:induction false} PieceIsBytes(pol: Policy, m: Machine, piece: Bytes)
    requires CutBlind(pol) && m.Live? && m.phase.Payload? && piece != []
    requires m.phase.off + |piece| <= m.phase.total
    ensures Normal(TakePiece(pol, m, piece)) == Run(pol, Normal(m), piece)
    decreases |piece|
  {
    NormalStep(pol, m, piece[0]);
    var n := TakePiece(pol, m, [piece[0]]);
    assert n == Step(pol, m, piece[0]) by { hide Tell; }
    hide Step, TakePiece, Explode, CutBlind;
    if |piece| == 1 {
      assert piece == [piece[0]];
      assert Run(pol, Normal(n), piece[1..]) == Normal(n);
    } else {
      PieceSplit(pol, m, [piece[0]], piece[1..]);
      assert [piece[0]] + piece[1..] == piece;
      PieceIsBytes(pol, n, piece[1..]);
    }
  }

  /* ----- chunks ----- */

  lemma {:induction false} RunConcat(pol: Policy, m: Machine, a: Bytes, b: Bytes)
    ensures Run(pol, m, a + b) == Run(pol, Run(pol, m, a), b)
    decreases |a|
  {
    if a == [] {
      assert a + b == b;
    } else {
      assert (a + b)[1..] == a[1..] + b;
      RunConcat(pol, Step(pol, m, a[0]), a[1..], b);
    }
  }

  lemma {:induction false} RunFailed(pol: Policy, m: Machine, s: Bytes)
    requires m.Failed?
    ensures Run(pol, m, s) == m
    decreases |s|
  {
    if s != [] { RunFailed(pol, m, s[1..]); }
  }

  /** A fed chunk does what its bytes do one by one. */
  lemma {:induction false} ChunkIsRun(pol: Policy, m: Machine, c: Bytes)
    requires CutBlind(pol)
    ensures Normal(Chunk(pol, m, c)) == Run(pol, Normal(m), c)
    decreases |c|
  {
    hide Step, TakePiece, Explode, CutBlind;
    if m.Failed? {
      RunFailed(pol, Normal(m), c);
    } else if c != [] {
      if m.phase.Payload? && m.phase.off < m.phase.total {
        var n := if m.phase.total - m.phase.off < |c| then m.phase.total - m.phase.off else |c|;
        PieceIsBytes(pol, m, c[..n]);
        ChunkIsRun(pol, TakePiece(pol, m, c[..n]), c[n..]);
        RunConcat(pol, Normal(m), c[..n], c[n..]);
        assert c[..n] + c[n..] == c;
      } else {
        NormalStep(pol, m, c[0]);
        ChunkIsRun(pol, Step(pol, m, c[0]), c[1..]);
      }
    }
  }

  function Flatten(cs: seq<Bytes>): Bytes {
    if cs == [] then [] else cs[0] + Flatten(cs[1..])
  }

  lemma {:induction false} FeedsIsRun(pol: Policy, m: Machine, cs: seq<Bytes>)
    requires CutBlind(pol)
    ensures Normal(Feeds(pol, m, cs)) == Run(pol, Normal(m), Flatten(cs))
    decreases |cs|
  {
    if cs != [] {
      ChunkIsRun(pol, m, cs[0]);
      FeedsIsRun(pol, Chunk(pol, m, cs[0]), cs[1..]);
      RunConcat(pol, Normal(m), cs[0], Flatten(cs[1..]));
    }
  }

  /** Two cuttings of the same bytes, from any state, for visitors blind on all histories. */
  lemma BlindInvariance(pol: Policy, m: Machine, cs: seq<Bytes>, ds: seq<Bytes>)
    requires CutBlind(pol) && Flatten(cs) == Flatten(ds)
    ensures Normal(Feeds(pol, m, cs)) == Normal(Feeds(pol, m, ds))
  {
    hide CutBlind, Explode;
    FeedsIsRun(pol, m, cs);
    FeedsIsRun(pol, m, ds);
  }

  lemma {:induction false} FeedsThen(pol: Policy, m: Machine, cs: seq<Bytes>, ds: seq<Bytes>)
    ensures Feeds(pol, m, cs + ds) == Feeds(pol, Feeds(pol, m, cs), ds) && Flatten(cs + ds) == Flatten(cs) + Flatten(ds)
    decreases |cs|
  {
    hide Chunk;
    if cs == [] {
      assert cs + ds == ds;
    } else {
      assert (cs + ds)[1..] == cs[1..] + ds;
      FeedsThen(pol, Chunk(pol, m, cs[0]), cs[1..], ds);
    }
  }

  lemma FeedsMore(pol: Policy, m: Machine, cs: seq<Bytes>, c: Bytes)
    ensures Feeds(pol, m, cs + [c]) == Chunk(pol, Feeds(pol, m, cs), c) && Flatten(cs + [c]) == Flatten(cs) + c
    ensures Feeds(pol, m, [c]) == Chunk(pol, m, c) && Flatten([c]) == c
  {
    hide Chunk;
    assert [c][1..] == [];
    FeedsThen(pol, m, cs, [c]);
  }

  /* ----- why the visitor has to be patient ----- */

  /** Refuses any one-byte piece. */
  function Touchy(): Policy {
    Policy((h: Log) => if h != [] && h[|h| - 1].ev.Piece? && |h[|h| - 1].ev.chunk| == 1 then Some(InvalidMsg) else None,
           (h: Log) => Nil, (v: Visitor) => false)
  }

  lemma ChunkCons(pol: Policy, m: Machine, x: Byte, t: Bytes)
    requires m.Live? && !m.phase.Payload?
    ensures Chunk(pol, m, [x] + t) == Chunk(pol, Step(pol, m, x), t)
  {
    hide Step;
    assert ([x] + t)[1..] == t;
  }

  lemma ChunkPiece(pol: Policy, m: Machine, s: Bytes)
    requires m.Live? && m.phase.Payload? && s != [] && m.phase.off + |s| <= m.phase.total
    ensures Chunk(pol, m, s) == TakePiece(pol, m, s)
  {
    hide Step, TakePiece;
    assert s[..|s|] == s && s[|s|..] == [];
  }

  /** The header and the word of a two-byte blob with id 0. */
  lemma BlobOpened(t: Bytes)
    ensures Chunk(Touchy(), Initial(V(0)), [2, 19] + t)
         == Chunk(Touchy(), Live(Payload(0, Blob, 2, 0), FRESH, [V(0)], [false], 0, [Call(V(0), FixlenBegin(0, Blob, 2))]), t)
  {
    var m := Initial(V(0));
    var m1 := m.(phase := FixWord(0));
    assert Step(Touchy(), m, 2) == m1;
    assert Step(Touchy(), m1, 19) == Live(Payload(0, Blob, 2, 0), FRESH, [V(0)], [false], 0, [Call(V(0), FixlenBegin(0, Blob, 2))]);
    hide Step;
    assert [2, 19] + t == [2] + ([19] + t);
    ChunkCons(Touchy(), m, 2, [19] + t);
    ChunkCons(Touchy(), m1, 19, t);
  }

  /** A two-byte blob with id 0: refused when it arrives byte by byte, accepted whole. */
  lemma ImpatienceSeesTheCut(a: Byte, b: Byte)
    ensures var m := Initial(V(0));
            && OutcomeOf(Feeds(Touchy(), m, [[2, 19] + [a, b]])) == Complete
            && OutcomeOf(Feeds(Touchy(), m, [[2, 19] + [a], [b]])) == Invalid
  {
    hide Step;
    var m := Initial(V(0));
    var n := Live(Payload(0, Blob, 2, 0), FRESH, [V(0)], [false], 0, [Call(V(0), FixlenBegin(0, Blob, 2))]);
    BlobOpened([a, b]);
    BlobOpened([a]);
    ChunkPiece(Touchy(), n, [a, b]);
    ChunkPiece(Touchy(), n, [a]);
    var whole, half := TakePiece(Touchy(), n, [a, b]), TakePiece(Touchy(), n, [a]);
    assert whole.Live? && half.Failed?;
    hide TakePiece;
    assert Feeds(Touchy(), m, [[2, 19] + [a, b]]) == Feeds(Touchy(), whole, []);
    assert [[2, 19] + [a], [b]][1..] == [[b]];
    assert Feeds(Touchy(), m, [[2, 19] + [a], [b]]) == Feeds(Touchy(), half, [[b]]);
    assert Feeds(Touchy(), half, [[b]]) == Feeds(Touchy(), Chunk(Touchy(), half, [b]), []);
  }
}
