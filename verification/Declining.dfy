/** Declining a subtree is accepting it with a visitor that does nothing. */
module Declining {
  import opened Wire
  import opened Machine

  /** Which visitors do nothing. */
  type Mute = Visitor -> bool

  /** A log without the calls on visitors that do nothing. */
  function Hush(mute: Mute, log: Log): Log {
    if log == [] then []
    else Hush(mute, log[..|log| - 1]) + (if mute(log[|log| - 1].on) then [] else [log[|log| - 1]])
  }

  lemma HushAppend(mute: Mute, log: Log, c: Call)
    ensures Hush(mute, log + [c]) == Hush(mute, log) + (if mute(c.on) then [] else [c])
  {
    assert (log + [c])[..|log|] == log;
  }

  /** The mute visitors refuse nothing and open only mute scopes. */
  ghost predicate Ignores(pol: Policy, mute: Mute) {
    !mute(Nil) && forall h: Log :: IgnoresAt(pol, mute, h)
  }

  ghost predicate IgnoresAt(pol: Policy, mute: Mute, h: Log) {
    h != [] && mute(h[|h| - 1].on) ==> pol.refuse(h) == None && (pol.child(h) == Nil || mute(pol.child(h)))
  }

  /** `dec` answers as `pol` does, but declines the scopes `pol` gives a mute visitor. */
  ghost predicate Declines(dec: Policy, pol: Policy, mute: Mute) {
    && (forall h: Log :: DeclinesAt(dec, pol, mute, h))
    && (forall v: Visitor :: !mute(v) ==> dec.takesCheck(v) == pol.takesCheck(v))
  }

  ghost predicate DeclinesAt(dec: Policy, pol: Policy, mute: Mute, h: Log) {
    h != [] && !mute(h[|h| - 1].on) ==>
      && dec.refuse(Hush(mute, h)) == pol.refuse(h)
      && dec.child(Hush(mute, h)) == (if mute(pol.child(h)) then Nil else pol.child(h))
  }

  ghost predicate Setting(dec: Policy, pol: Policy, mute: Mute) {
    Ignores(pol, mute) && Declines(dec, pol, mute)
  }

  /** `d`, which declines, shadows `m`, which accepts and ignores: the scopes `m` has
      open on mute visitors are declined levels of `d`. */
  ghost predicate Shadows(mute: Mute, m: Machine, d: Machine) {
    if m.Failed? then d == Failed(Hush(mute, m.heard), m.why)
    else
      && d.Live? && d.phase == m.phase && d.part == m.part && d.log == Hush(mute, m.log)
      && |m.told| == |m.open| && |d.told| == |d.open| && 1 <= |d.open| <= |m.open|
      && m.open[..|d.open|] == d.open && m.told[..|d.open|] == d.told && Nil !in m.open
      && d.declined == m.declined + |m.open| - |d.open|
      && (forall i :: 0 <= i < |m.open| ==> (mute(m.open[i]) <==> i >= |d.open|))
  }

  /** The three situations of a shadowed callback. */
  lemma ShadowCur(mute: Mute, m: Machine, d: Machine)
    requires m.Live? && Shadows(mute, m, d) && !mute(Nil)
    ensures m.Depth() == d.Depth()
    ensures m.Cur() == Nil ==> d.Cur() == Nil
    ensures mute(m.Cur()) ==> d.Cur() == Nil && |m.open| > |d.open| && m.declined == 0
    ensures m.Cur() != Nil && !mute(m.Cur()) ==> d.Cur() == m.Cur() && m.open == d.open && m.told == d.told && m.declined == 0 == d.declined
  {
    if m.declined == 0 {
      var top := |m.open| - 1;
      assert m.Cur() == m.open[top] && m.open[top] in m.open;
      if |m.open| == |d.open| { assert m.open[..|d.open|] == m.open && m.told[..|d.open|] == m.told; }
    }
  }

  lemma ShadowTell(dec: Policy, pol: Policy, mute: Mute, m: Machine, d: Machine, ev: Event)
    requires Setting(dec, pol, mute) && m.Live? && Shadows(mute, m, d)
    ensures Shadows(mute, Tell(pol, m, ev), Tell(dec, d, ev))
    ensures Tell(pol, m, ev).Live? ==> Tell(pol, m, ev).phase == m.phase
  {
    hide Hush;
    ShadowCur(mute, m, d);
    var c := Call(m.Cur(), ev);
    HushAppend(mute, m.log, c);
    assert IgnoresAt(pol, mute, m.log + [c]) && DeclinesAt(dec, pol, mute, m.log + [c]);
    assert Hush(mute, m.log) + [] == Hush(mute, m.log);
  }

  lemma ShadowSettle(dec: Policy, pol: Policy, mute: Mute, m: Machine, d: Machine)
    requires Setting(dec, pol, mute) && Shadows(mute, m, d)
    ensures Shadows(mute, Settle(pol, m), Settle(dec, d))
  {
    hide Hush, Tell, Setting;
    if m.Live? && (m.phase.Elems? || m.phase.ArrFp?) && m.phase.remain == 0 {
      ShadowTell(dec, pol, mute, m.(phase := Header), d.(phase := Header), ArrayEnd(m.phase.id));
    }
  }

  lemma ShadowAnnounce(dec: Policy, pol: Policy, mute: Mute, m: Machine, d: Machine, id: int, kind: Kind, count: int)
    requires Setting(dec, pol, mute) && m.Live? && Shadows(mute, m, d)
    ensures Shadows(mute, Announce(pol, m, id, kind, count), Announce(dec, d, id, kind, count))
  {
    hide Shadows, Tell, Settle, Setting;
    ShadowLive(mute, m, d);
    ShadowTell(dec, pol, mute, m, d, ArrayBegin(id, kind, count));
    ShadowSettle(dec, pol, mute, Tell(pol, m, ArrayBegin(id, kind, count)), Tell(dec, d, ArrayBegin(id, kind, count)));
  }

  lemma ShadowLive(mute: Mute, m: Machine, d: Machine)
    requires Shadows(mute, m, d)
    ensures d.Live? <==> m.Live?
    ensures m.Live? ==> d.phase == m.phase && d.part == m.part
    ensures m.Failed? ==> d == Failed(Hush(mute, m.heard), m.why)
    ensures forall phase, part :: m.Live? ==> Shadows(mute, m.(phase := phase, part := part), d.(phase := phase, part := part))
    ensures d.All() == Hush(mute, m.All())
  {
    hide Hush;
  }

  lemma ShadowPhase(mute: Mute, m: Machine, d: Machine, phase: Phase)
    requires Shadows(mute, m, d) && m.Live?
    ensures d.Live? && Shadows(mute, m.(phase := phase), d.(phase := phase))
  {
    hide Hush;
  }

  lemma ShadowPart(mute: Mute, m: Machine, d: Machine, part: Partial)
    requires Shadows(mute, m, d) && m.Live?
    ensures d.Live? && Shadows(mute, m.(part := part), d.(part := part))
  {
    hide Hush;
  }

  lemma ShadowPolicy(dec: Policy, pol: Policy, mute: Mute, m: Machine, d: Machine, sub: Subtype)
    requires Setting(dec, pol, mute) && m.Live? && Shadows(mute, m, d)
    ensures Shadows(mute, TellPolicy(pol, m, sub), TellPolicy(dec, d, sub))
  {
    hide Hush;
    ShadowCur(mute, m, d);
    HushAppend(mute, m.log, Call(m.Cur(), SetStringCheck));
    assert Hush(mute, m.log) + [] == Hush(mute, m.log);
  }

  lemma ShadowFixlen(dec: Policy, pol: Policy, mute: Mute, m: Machine, d: Machine, id: int, sub: Subtype, n: int)
    requires Setting(dec, pol, mute) && m.Live? && Shadows(mute, m, d)
    ensures Shadows(mute, AnnounceFixlen(pol, m, id, sub, n), AnnounceFixlen(dec, d, id, sub, n))
  {
    hide Shadows, Tell, TellPolicy, Setting;
    ShadowLive(mute, m, d);
    ShadowPolicy(dec, pol, mute, m, d, sub);
    var m1, d1 := TellPolicy(pol, m, sub), TellPolicy(dec, d, sub);
    ShadowTell(dec, pol, mute, m1, d1, FixlenBegin(id, sub, n));
    var m2, d2 := Tell(pol, m1, FixlenBegin(id, sub, n)), Tell(dec, d1, FixlenBegin(id, sub, n));
    ShadowLive(mute, m2, d2);
    if m2.Live? { ShadowTell(dec, pol, mute, m2, d2, Piece(id, sub, 0, 0, [])); }
  }

  lemma ShadowOpen(dec: Policy, pol: Policy, mute: Mute, m: Machine, d: Machine, id: int)
    requires Setting(dec, pol, mute) && m.Live? && Shadows(mute, m, d)
    ensures Shadows(mute, Opened(pol, m, id), Opened(dec, d, id))
  {
    hide Hush;
    ShadowCur(mute, m, d);
    var c := Call(m.Cur(), BeginSequence(id));
    HushAppend(mute, m.log, c);
    assert IgnoresAt(pol, mute, m.log + [c]) && DeclinesAt(dec, pol, mute, m.log + [c]);
    assert Hush(mute, m.log) + [] == Hush(mute, m.log);
  }

  lemma ShadowClose(dec: Policy, pol: Policy, mute: Mute, m: Machine, d: Machine)
    requires Setting(dec, pol, mute) && m.Live? && Shadows(mute, m, d)
    ensures Shadows(mute, Closed(pol, m), Closed(dec, d))
  {
    hide Hush;
    ShadowCur(mute, m, d);
    if m.Depth() > 0 && m.declined == 0 {
      var top := |m.open| - 1;
      var c := Call(m.open[top], EndSequence);
      HushAppend(mute, m.log, c);
      assert IgnoresAt(pol, mute, m.log + [c]) && DeclinesAt(dec, pol, mute, m.log + [c]);
      assert Hush(mute, m.log) + [] == Hush(mute, m.log);
      assert m.open[top] in m.open;
    }
  }

  lemma ShadowElement(dec: Policy, pol: Policy, mute: Mute, m: Machine, d: Machine, v: U64)
    requires Setting(dec, pol, mute) && m.Live? && m.phase.Elems? && Shadows(mute, m, d) && d.Live? && d.phase == m.phase
    ensures Shadows(mute, OnElement(pol, m, v), OnElement(dec, d, v))
  {
    hide Shadows, Tell, Settle, Setting;
    var Elems(id, signed, total, remain) := m.phase;
    var ev := if signed then ArraySigned(id, total - remain, Unzigzag(v)) else ArrayUnsigned(id, total - remain, v);
    ShadowPhase(mute, m, d, Elems(id, signed, total, remain - 1));
    var m1, d1 := m.(phase := Elems(id, signed, total, remain - 1)), d.(phase := Elems(id, signed, total, remain - 1));
    ShadowTell(dec, pol, mute, m1, d1, ev);
    ShadowSettle(dec, pol, mute, Tell(pol, m1, ev), Tell(dec, d1, ev));
  }

  lemma ShadowArrFloat(dec: Policy, pol: Policy, mute: Mute, m: Machine, d: Machine, bits: int)
    requires Setting(dec, pol, mute) && m.Live? && m.phase.ArrFp? && Shadows(mute, m, d) && d.Live? && d.phase == m.phase
    ensures Shadows(mute, OnArrFloat(pol, m, bits), OnArrFloat(dec, d, bits))
  {
    hide Shadows, Tell, Settle, Setting;
    var ArrFp(id, width, total, remain, _) := m.phase;
    var ev := ArrayFloat(id, total - remain, width, bits);
    ShadowPhase(mute, m, d, ArrFp(id, width, total, remain - 1, []));
    var m1, d1 := m.(phase := ArrFp(id, width, total, remain - 1, [])), d.(phase := ArrFp(id, width, total, remain - 1, []));
    ShadowTell(dec, pol, mute, m1, d1, ev);
    ShadowSettle(dec, pol, mute, Tell(pol, m1, ev), Tell(dec, d1, ev));
  }

  /** A new phase and then one callback. */
  lemma ShadowMove(dec: Policy, pol: Policy, mute: Mute, m: Machine, d: Machine, phase: Phase, ev: Event)
    requires Setting(dec, pol, mute) && m.Live? && Shadows(mute, m, d) && d.Live?
    ensures Shadows(mute, Tell(pol, m.(phase := phase), ev), Tell(dec, d.(phase := phase), ev))
  {
    hide Shadows, Tell, Setting;
    ShadowPhase(mute, m, d, phase);
    ShadowTell(dec, pol, mute, m.(phase := phase), d.(phase := phase), ev);
  }

  lemma ShadowHeader(dec: Policy, pol: Policy, mute: Mute, m: Machine, d: Machine, h: int)
    requires Setting(dec, pol, mute) && m.Live? && Shadows(mute, m, d) && h >= 0 && d.Live?
    ensures Shadows(mute, OnHeader(pol, m, h), OnHeader(dec, d, h))
  {
    hide Shadows, Opened, Closed, Setting, Hush;
    ShadowLive(mute, m, d);
    ShadowReject(mute, m, d);
    ShadowOpen(dec, pol, mute, m, d, h / 8);
    ShadowClose(dec, pol, mute, m, d);
    ShadowPhase(mute, m, d, ScalarU(h / 8));
    ShadowPhase(mute, m, d, ScalarS(h / 8));
    ShadowPhase(mute, m, d, FixWord(h / 8));
    ShadowPhase(mute, m, d, Count(h / 8, h % 8));
  }

  lemma ShadowReject(mute: Mute, m: Machine, d: Machine)
    requires m.Live? && Shadows(mute, m, d)
    ensures Shadows(mute, Rejected(m, InvalidMsg), Rejected(d, InvalidMsg))
  {
    hide Hush;
  }

  lemma ShadowVarint(dec: Policy, pol: Policy, mute: Mute, m: Machine, d: Machine, v: U64)
    requires Setting(dec, pol, mute) && m.Live? && m.phase.ReadsVarint() && Shadows(mute, m, d) && d.Live? && d.phase == m.phase
    ensures Shadows(mute, OnVarint(pol, m, v), OnVarint(dec, d, v))
  {
    hide Shadows, Tell, AnnounceFixlen, Announce, OnHeader, OnElement, Setting, Hush;
    ShadowReject(mute, m, d);
    match m.phase
    case Header => ShadowHeader(dec, pol, mute, m, d, v);
    case ScalarU(id) => ShadowMove(dec, pol, mute, m, d, Header, Unsigned(id, v));
    case ScalarS(id) => ShadowMove(dec, pol, mute, m, d, Header, Signed(id, Unzigzag(v)));
    case FixWord(id) =>
      var phase := WordPhase(id, v);
      if phase.Some? {
        ShadowPhase(mute, m, d, phase.value);
        ShadowFixlen(dec, pol, mute, m.(phase := phase.value), d.(phase := phase.value), id, SubtypeOf(v % 8), v / 8);
      }
    case Count(id, wire) =>
      var signed := wire != T_ARRAY_UNSIGNED;
      ShadowPhase(mute, m, d, ArrWord(id, v));
      ShadowList(dec, pol, mute, m, d, Elems(id, signed, v, v), id, if signed then KSigned else KUnsigned, v);
    case Elems(_, _, _, _) => ShadowElement(dec, pol, mute, m, d, v);
    case ArrWord(id, total) =>
      ShadowList(dec, pol, mute, m, d, ArrFp(id, 4, total, total, []), id, KFp32, total);
      ShadowList(dec, pol, mute, m, d, ArrFp(id, 8, total, total, []), id, KFp64, total);
  }

  lemma ShadowList(dec: Policy, pol: Policy, mute: Mute, m: Machine, d: Machine, phase: Phase, id: int, kind: Kind, count: int)
    requires Setting(dec, pol, mute) && m.Live? && Shadows(mute, m, d) && d.Live?
    ensures Shadows(mute, Announce(pol, m.(phase := phase), id, kind, count), Announce(dec, d.(phase := phase), id, kind, count))
  {
    hide Shadows, Announce, Setting;
    ShadowPhase(mute, m, d, phase);
    ShadowAnnounce(dec, pol, mute, m.(phase := phase), d.(phase := phase), id, kind, count);
  }

  lemma ShadowPiece(dec: Policy, pol: Policy, mute: Mute, m: Machine, d: Machine, piece: Bytes)
    requires Setting(dec, pol, mute) && m.Live? && m.phase.Payload? && Shadows(mute, m, d) && d.Live? && d.phase == m.phase
    ensures Shadows(mute, TakePiece(pol, m, piece), TakePiece(dec, d, piece))
  {
    hide Shadows, Tell, Setting;
    var Payload(id, sub, total, off) := m.phase;
    ShadowMove(dec, pol, mute, m, d, if off + |piece| == total then Header else Payload(id, sub, total, off + |piece|),
               Piece(id, sub, total, off, piece));
  }

  lemma ShadowStep(dec: Policy, pol: Policy, mute: Mute, m: Machine, d: Machine, b: Byte)
    requires Setting(dec, pol, mute) && Shadows(mute, m, d)
    ensures Shadows(mute, Step(pol, m, b), Step(dec, d, b))
  {
    hide Shadows, Tell, OnVarint, OnArrFloat, TakePiece, StepVarint, Setting, Hush, Le;
    ShadowLive(mute, m, d);
    if m.Live? {
      match m.phase {
        case Fp(id, width, got) =>
          ShadowPhase(mute, m, d, Fp(id, width, got + [b]));
          ShadowMove(dec, pol, mute, m, d, Header, Float(id, width, Le(got + [b])));
        case ArrFp(id, width, total, remain, got) =>
          ShadowPhase(mute, m, d, ArrFp(id, width, total, remain, got + [b]));
          ShadowArrFloat(dec, pol, mute, m, d, Le(got + [b]));
        case Payload(_, _, _, _) => ShadowPiece(dec, pol, mute, m, d, [b]);
        case _ => ShadowVarintByte(dec, pol, mute, m, d, b);
      }
    }
  }

  lemma ShadowVarintByte(dec: Policy, pol: Policy, mute: Mute, m: Machine, d: Machine, b: Byte)
    requires Setting(dec, pol, mute) && Shadows(mute, m, d) && m.Live? && m.phase.ReadsVarint()
    ensures Shadows(mute, Step(pol, m, b), Step(dec, d, b))
  {
    hide Shadows, OnVarint, StepVarint, Setting, Hush;
    ShadowLive(mute, m, d);
    ShadowReject(mute, m, d);
    match StepVarint(m.part, b)
    case More(q) => ShadowPart(mute, m, d, q);
    case Overflow =>
    case Done(v) =>
      ShadowPart(mute, m, d, FRESH);
      if 0 <= v < TWO_64 { ShadowVarint(dec, pol, mute, m.(part := FRESH), d.(part := FRESH), v); }
  }

  lemma {:induction false} ShadowChunk(dec: Policy, pol: Policy, mute: Mute, m: Machine, d: Machine, c: Bytes)
    requires Setting(dec, pol, mute) && Shadows(mute, m, d)
    ensures Shadows(mute, Chunk(pol, m, c), Chunk(dec, d, c))
    decreases |c|
  {
    hide Shadows, Step, TakePiece, Setting, Hush;
    ShadowLive(mute, m, d);
    if m.Live? && c != [] {
      if m.phase.Payload? && m.phase.off < m.phase.total {
        var n := if m.phase.total - m.phase.off < |c| then m.phase.total - m.phase.off else |c|;
        ShadowPiece(dec, pol, mute, m, d, c[..n]);
        ShadowChunk(dec, pol, mute, TakePiece(pol, m, c[..n]), TakePiece(dec, d, c[..n]), c[n..]);
      } else {
        ShadowStep(dec, pol, mute, m, d, c[0]);
        ShadowChunk(dec, pol, mute, Step(pol, m, c[0]), Step(dec, d, c[0]), c[1..]);
      }
    }
  }

  lemma {:induction false} ShadowFeeds(dec: Policy, pol: Policy, mute: Mute, m: Machine, d: Machine, cs: seq<Bytes>)
    requires Setting(dec, pol, mute) && Shadows(mute, m, d)
    ensures Shadows(mute, Feeds(pol, m, cs), Feeds(dec, d, cs))
    decreases |cs|
  {
    hide Shadows, Chunk, Setting;
    if cs != [] {
      ShadowChunk(dec, pol, mute, m, d, cs[0]);
      ShadowFeeds(dec, pol, mute, Chunk(pol, m, cs[0]), Chunk(dec, d, cs[0]), cs[1..]);
    }
  }

  lemma {:induction false} HushSilent(mute: Mute, log: Log, c: Call)
    requires c in Hush(mute, log)
    ensures !mute(c.on)
    decreases |log|
  {
    if c in Hush(mute, log[..|log| - 1]) { HushSilent(mute, log[..|log| - 1], c); }
  }

  /** The other visitors do not answer to calls they never see. */
  ghost predicate Deaf(pol: Policy, mute: Mute) {
    forall h: Log :: DeafAt(pol, mute, h)
  }

  ghost predicate DeafAt(pol: Policy, mute: Mute, h: Log) {
    h != [] && !mute(h[|h| - 1].on) ==> pol.refuse(h) == pol.refuse(Hush(mute, h)) && pol.child(h) == pol.child(Hush(mute, h))
  }

  /** The same visitors, returning nil where they returned a mute one. */
  function Declined(pol: Policy, mute: Mute): Policy {
    Policy(pol.refuse, (h: Log) => if mute(pol.child(h)) then Nil else pol.child(h), pol.takesCheck)
  }

  lemma DeclinedDeclines(pol: Policy, mute: Mute)
    requires Ignores(pol, mute) && Deaf(pol, mute)
    ensures Setting(Declined(pol, mute), pol, mute)
  {
    hide Hush;
    forall h: Log ensures DeclinesAt(Declined(pol, mute), pol, mute, h) {
      assert DeafAt(pol, mute, h);
    }
  }

  /** For every input and chunking: the decode that declines has the outcome and the
      error of the one that accepts and ignores, and exactly its other callbacks. */
  lemma DecliningIsIgnoring(pol: Policy, mute: Mute, root: Visitor, cs: seq<Bytes>)
    requires Ignores(pol, mute) && Deaf(pol, mute) && root != Nil && !mute(root)
    ensures var m, d := Feeds(pol, Initial(root), cs), Feeds(Declined(pol, mute), Initial(root), cs);
      && OutcomeOf(d) == OutcomeOf(m) && (m.Failed? ==> d.why == m.why)
      && d.All() == Hush(mute, m.All())
      && (forall c :: c in d.All() ==> !mute(c.on))
  {
    var dec := Declined(pol, mute);
    var m, d := Feeds(pol, Initial(root), cs), Feeds(dec, Initial(root), cs);
    assert Shadows(mute, Initial(root), Initial(root));
    DeclinedDeclines(pol, mute);
    hide Hush, Feeds, Ignores, Deaf, Setting, Declined;
    ShadowFeeds(dec, pol, mute, Initial(root), Initial(root), cs);
    ShadowLive(mute, m, d);
    if m.Live? { ShadowCur(mute, m, d) by { SettingNil(dec, pol, mute); } }
    forall c | c in d.All() ensures !mute(c.on) { HushSilent(mute, m.All(), c); }
  }

  lemma SettingNil(dec: Policy, pol: Policy, mute: Mute)
    requires Setting(dec, pol, mute)
    ensures !mute(Nil)
  {
  }
}
