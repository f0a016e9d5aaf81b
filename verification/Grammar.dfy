/** The language of callbacks: what any visitor may rely on, whatever the bytes.

    The recognizer below sees callbacks only. A log it accepts is a prefix of a
    well-formed word: every field announced before its parts, payload pieces
    contiguous and adding up, exactly `count` elements of the announced kind in index
    order, scopes closed on the visitor that was opened, the string policy offered at
    most once per scope and before the scope's first string. */
module Grammar {
  import opened Wire
  import opened Machine

  datatype Place =
    | Between
    | Floating(id: int, width: int)
    | Paying(id: int, sub: Subtype, total: int, off: nat)
    | Listing(id: int, kind: Kind, count: int, next: int)

  datatype Grammar = Bad | Good(place: Place, open: seq<Visitor>, told: seq<bool>)

  /** The innermost open visitor. */
  predicate OnTop(g: Grammar, v: Visitor)
  {
    g.Good? && g.open != [] && |g.told| == |g.open| && v == g.open[|g.open| - 1] && v != Nil
  }

  function SetTold(g: Grammar): Grammar
    requires g.Good?
  {
    if g.told == [] then Bad else g.(told := g.told[|g.told| - 1 := true])
  }

  predicate IsId(id: int) { 0 <= id <= ID_MAX }

  /** What announces a field carries an id in range, counts and lengths stay below the
      ceiling, and values are 64-bit values. */
  predicate InRange(ev: Event) {
    match ev
    case Unsigned(id, v) => IsId(id) && 0 <= v < TWO_64
    case Signed(id, s) => IsId(id) && -TWO_63 <= s < TWO_63
    case FixlenBegin(id, _, total) => IsId(id) && 0 <= total <= ARRAY_MAX
    case ArrayBegin(id, _, count) => IsId(id) && 0 <= count <= ARRAY_MAX
    case ArrayUnsigned(_, _, v) => 0 <= v < TWO_64
    case ArraySigned(_, _, s) => -TWO_63 <= s < TWO_63
    case BeginSequence(id) => IsId(id)
    case _ => true
  }

  /** The recognizer after the last call of `h`, from `g` before it. */
  function Next(pol: Policy, g: Grammar, h: Log): Grammar
    requires h != []
  {
    var Call(v, ev) := h[|h| - 1];
    if !OnTop(g, v) || !InRange(ev) then Bad else
    match ev
    case Unsigned(_, _) => if g.place.Between? then g else Bad
    case Signed(_, _) => if g.place.Between? then g else Bad
    case Float(id, width, _) => if g.place == Floating(id, width) then g.(place := Between) else Bad
    case FixlenBegin(id, sub, total) =>
      if !g.place.Between? then Bad
      else if sub.Fp32? then (if total == 4 then g.(place := Floating(id, 4)) else Bad)
      else if sub.Fp64? then (if total == 8 then g.(place := Floating(id, 8)) else Bad)
      else if sub.Blob? then g.(place := Paying(id, Blob, total, 0))
      else if pol.takesCheck(v) && !g.told[|g.told| - 1] then Bad
      else SetTold(g.(place := Paying(id, Str, total, 0)))
    case Piece(id, sub, total, off, chunk) =>
      if g.place != Paying(id, sub, total, off) || (chunk == [] && total != 0) || off + |chunk| > total then Bad
      else g.(place := if off + |chunk| == total then Between else Paying(id, sub, total, off + |chunk|))
    case ArrayBegin(id, kind, count) => if g.place.Between? then g.(place := Listing(id, kind, count, 0)) else Bad
    case ArrayUnsigned(id, idx, _) => NextElement(g, id, idx, KUnsigned)
    case ArraySigned(id, idx, _) => NextElement(g, id, idx, KSigned)
    case ArrayFloat(id, idx, width, _) => NextElement(g, id, idx, if width == 4 then KFp32 else KFp64)
    case ArrayEnd(id) =>
      if g.place.Listing? && g.place.id == id && g.place.next == g.place.count then g.(place := Between) else Bad
    case BeginSequence(_) =>
      if !g.place.Between? || |g.open| > 255 then Bad
      else if pol.child(h) == Nil then g
      else g.(open := g.open + [pol.child(h)], told := g.told + [false])
    case EndSequence =>
      if !g.place.Between? || |g.open| < 2 then Bad
      else g.(open := g.open[..|g.open| - 1], told := g.told[..|g.told| - 1])
    case SetStringCheck =>
      if !g.place.Between? || g.told[|g.told| - 1] then Bad else SetTold(g)
  }

  function NextElement(g: Grammar, id: int, idx: int, kind: Kind): Grammar
    requires g.Good?
  {
    if g.place.Listing? && g.place.id == id && g.place.kind == kind && g.place.next == idx < g.place.count then
      g.(place := Listing(id, kind, g.place.count, idx + 1))
    else Bad
  }

  /** The recognizer over a whole log, rooted at `root`. */
  function Recognize(pol: Policy, root: Visitor, log: Log): Grammar {
    if log == [] then Good(Between, [root], [false])
    else Next(pol, Recognize(pol, root, log[..|log| - 1]), log)
  }

  lemma RecognizeAppend(pol: Policy, root: Visitor, log: Log, c: Call)
    ensures Recognize(pol, root, log + [c]) == Next(pol, Recognize(pol, root, log), log + [c])
  {
    hide Next;
    assert (log + [c])[..|log|] == log;
  }

  /* ----- the machine never leaves the language ----- */

  /** Where a machine in a given phase stands, as its callbacks show it. */
  function PlaceOf(phase: Phase, declined: nat): Place {
    if declined > 0 then Between
    else match phase
      case Fp(id, width, _) => Floating(id, width)
      case Payload(id, sub, total, off) => Paying(id, sub, total, off)
      case Elems(id, signed, total, remain) => Listing(id, if signed then KSigned else KUnsigned, total, total - remain)
      case ArrFp(id, width, total, remain, _) => Listing(id, if width == 4 then KFp32 else KFp64, total, total - remain)
      case _ => Between
  }

  /** The log of `m` is in the language and shows `place`, or is a prefix of a word. */
  ghost predicate Shows(pol: Policy, root: Visitor, m: Machine, place: Place) {
    if m.Failed? then Recognize(pol, root, m.heard) != Bad
    else Recognize(pol, root, m.log) == Good(place, m.open, m.told)
  }

  ghost predicate Agrees(pol: Policy, root: Visitor, m: Machine) {
    if m.Failed? then Recognize(pol, root, m.heard) != Bad
    else Shows(pol, root, m, PlaceOf(m.phase, m.declined))
  }

  /** The scope part of `Fits`. */
  ghost predicate Scoped(m: Machine) {
    m.Live? ==> |m.open| >= 1 && |m.told| == |m.open| && Nil !in m.open
  }

  /** The move one callback on the innermost visitor makes. */
  function Move(pol: Policy, g: Grammar, h: Log, c: Call): Grammar { Next(pol, g, h + [c]) }

  lemma CallShows(pol: Policy, root: Visitor, m: Machine, v: Visitor, ev: Event, place: Place, next: Grammar)
    requires m.Live? && Shows(pol, root, m, place)
    requires next.Good? && Move(pol, Good(place, m.open, m.told), m.log, Call(v, ev)) == next
    ensures var n := CallOn(pol, m, v, ev);
            && (n.Failed? ==> Shows(pol, root, n, place))
            && (n.Live? ==> Recognize(pol, root, n.log) == next)
  {
    hide Next;
    RecognizeAppend(pol, root, m.log, Call(v, ev));
  }

  /** A callback that leaves the scopes alone. */
  lemma TellShows(pol: Policy, root: Visitor, m: Machine, ev: Event, place: Place, next: Place)
    requires m.Live? && Scoped(m) && Shows(pol, root, m, place)
    requires m.declined == 0 ==>
               Move(pol, Good(place, m.open, m.told), m.log, Call(m.Cur(), ev)) == Good(next, m.open, m.told)
    requires m.declined > 0 ==> place == next
    ensures Shows(pol, root, Tell(pol, m, ev), next)
    ensures var n := Tell(pol, m, ev); n.Live? ==> n == m.(log := n.log)
  {
    hide Next, Move, Recognize;
    if m.declined == 0 { CallShows(pol, root, m, m.Cur(), ev, place, Good(next, m.open, m.told)); }
  }

  lemma SettleShows(pol: Policy, root: Visitor, m: Machine)
    requires Scoped(m) && Agrees(pol, root, m)
    ensures Agrees(pol, root, Settle(pol, m))
  {
    hide Recognize;
    if m.Live? && (m.phase.Elems? || m.phase.ArrFp?) && m.phase.remain == 0 {
      TellShows(pol, root, m.(phase := Header), ArrayEnd(m.phase.id), PlaceOf(m.phase, m.declined), Between);
    }
  }

  lemma ScalarShows(pol: Policy, root: Visitor, m: Machine, ev: Event)
    requires m.Live? && Scoped(m) && Agrees(pol, root, m) && (m.phase.ScalarU? || m.phase.ScalarS?)
    requires (ev.Unsigned? || ev.Signed?) && InRange(ev)
    ensures Agrees(pol, root, Tell(pol, m.(phase := Header), ev))
  {
    hide Recognize, Tell;
    TellShows(pol, root, m.(phase := Header), ev, Between, Between);
  }

  lemma FloatShows(pol: Policy, root: Visitor, m: Machine, bits: int)
    requires m.Live? && Scoped(m) && Agrees(pol, root, m) && m.phase.Fp?
    ensures Agrees(pol, root, OnFloat(pol, m, bits))
  {
    hide Recognize, Tell;
    TellShows(pol, root, m.(phase := Header), Float(m.phase.id, m.phase.width, bits), PlaceOf(m.phase, m.declined), Between);
  }

  lemma PieceShows(pol: Policy, root: Visitor, m: Machine, piece: Bytes)
    requires m.Live? && Scoped(m) && Agrees(pol, root, m) && m.phase.Payload?
    requires piece != [] && m.phase.off + |piece| <= m.phase.total
    ensures Agrees(pol, root, TakePiece(pol, m, piece))
  {
    hide Recognize, Tell;
    var Payload(id, sub, total, off) := m.phase;
    var phase := if off + |piece| == total then Header else Payload(id, sub, total, off + |piece|);
    TellShows(pol, root, m.(phase := phase), Piece(id, sub, total, off, piece), PlaceOf(m.phase, m.declined), PlaceOf(phase, m.declined));
  }

  lemma AnnounceShows(pol: Policy, root: Visitor, m: Machine, id: int, kind: Kind, count: int)
    requires m.Live? && Scoped(m) && Shows(pol, root, m, Between)
    requires PlaceOf(m.phase, 0) == Listing(id, kind, count, 0) && InRange(ArrayBegin(id, kind, count))
    ensures Agrees(pol, root, Announce(pol, m, id, kind, count))
  {
    hide Recognize, Tell, Settle;
    TellShows(pol, root, m, ArrayBegin(id, kind, count), Between, PlaceOf(m.phase, m.declined));
    SettleShows(pol, root, Tell(pol, m, ArrayBegin(id, kind, count)));
  }

  lemma ElementShows(pol: Policy, root: Visitor, m: Machine, v: U64)
    requires m.Live? && Scoped(m) && Agrees(pol, root, m) && m.phase.Elems? && m.phase.remain > 0
    ensures Agrees(pol, root, OnElement(pol, m, v))
  {
    hide Recognize, Tell, Settle;
    var Elems(id, signed, total, remain) := m.phase;
    var ev := if signed then ArraySigned(id, total - remain, Unzigzag(v)) else ArrayUnsigned(id, total - remain, v);
    var n := m.(phase := Elems(id, signed, total, remain - 1));
    TellShows(pol, root, n, ev, PlaceOf(m.phase, m.declined), PlaceOf(n.phase, m.declined));
    SettleShows(pol, root, Tell(pol, n, ev));
  }

  lemma ArrFloatShows(pol: Policy, root: Visitor, m: Machine, bits: int)
    requires m.Live? && Scoped(m) && Agrees(pol, root, m) && m.phase.ArrFp? && m.phase.remain > 0
    ensures Agrees(pol, root, OnArrFloat(pol, m, bits))
  {
    hide Recognize, Tell, Settle;
    var ArrFp(id, width, total, remain, _) := m.phase;
    var ev := ArrayFloat(id, total - remain, width, bits);
    var n := m.(phase := ArrFp(id, width, total, remain - 1, []));
    TellShows(pol, root, n, ev, PlaceOf(m.phase, m.declined), PlaceOf(n.phase, m.declined));
    SettleShows(pol, root, Tell(pol, n, ev));
  }

  /** Offering the string policy: at most once per scope. */
  lemma PolicyShows(pol: Policy, root: Visitor, m: Machine, sub: Subtype)
    requires m.Live? && Scoped(m) && Shows(pol, root, m, Between)
    ensures var n := TellPolicy(pol, m, sub);
      && n.Live? && Scoped(n) && n == m.(log := n.log, told := n.told)
      && (m.declined > 0 || sub != Str ==> Shows(pol, root, n, Between))
      && (m.declined == 0 && sub == Str ==>
            && n.told == m.told[|m.told| - 1 := true]
            && (Recognize(pol, root, n.log) == Good(Between, m.open, n.told)
                || (Recognize(pol, root, n.log) == Good(Between, m.open, m.told) && !pol.takesCheck(m.Cur()))))
  {
    hide Recognize;
    RecognizeAppend(pol, root, m.log, Call(m.Cur(), SetStringCheck));
  }

  /** Announcing a fixlen field, in a scope whose policy has been offered. */
  lemma FixlenShows(pol: Policy, root: Visitor, m: Machine, id: int, sub: Subtype, n: nat)
    requires m.Live? && Scoped(m) && Shows(pol, root, m, Between)
    requires (sub.Fp32? ==> n == 4) && (sub.Fp64? ==> n == 8) && InRange(FixlenBegin(id, sub, n))
    requires m.phase == if sub.Fp32? || sub.Fp64? then Fp(id, n, []) else if n == 0 then Header else Payload(id, sub, n, 0)
    ensures Agrees(pol, root, AnnounceFixlen(pol, m, id, sub, n))
  {
    hide Recognize, Tell, TellPolicy;
    PolicyShows(pol, root, m, sub);
    var p := TellPolicy(pol, m, sub);
    if m.declined > 0 {
      TellShows(pol, root, p, FixlenBegin(id, sub, n), Between, Between);
      var q := Tell(pol, p, FixlenBegin(id, sub, n));
      if q.Live? && n == 0 { TellShows(pol, root, q, Piece(id, sub, 0, 0, []), Between, Between); }
    } else {
      BeginShows(pol, root, p, if sub == Str then m.told else p.told, id, sub, n);
    }
  }

  /** The announcement itself; `told` is what the recognizer knows of the scopes. */
  lemma BeginShows(pol: Policy, root: Visitor, p: Machine, told: seq<bool>, id: int, sub: Subtype, n: nat)
    requires p.Live? && Scoped(p) && p.declined == 0 && |told| == |p.told|
    requires (sub.Fp32? ==> n == 4) && (sub.Fp64? ==> n == 8) && InRange(FixlenBegin(id, sub, n))
    requires p.phase == if sub.Fp32? || sub.Fp64? then Fp(id, n, []) else if n == 0 then Header else Payload(id, sub, n, 0)
    requires sub != Str ==> Recognize(pol, root, p.log) == Good(Between, p.open, p.told)
    requires sub == Str ==>
      && p.told == told[|told| - 1 := true]
      && (Recognize(pol, root, p.log) == Good(Between, p.open, p.told)
          || (Recognize(pol, root, p.log) == Good(Between, p.open, told) && !pol.takesCheck(p.Cur())))
    ensures var q := Tell(pol, p, FixlenBegin(id, sub, n));
            Agrees(pol, root, if q.Live? && n == 0 then Tell(pol, q, Piece(id, sub, 0, 0, [])) else q)
  {
    hide Recognize;
    RecognizeAppend(pol, root, p.log, Call(p.Cur(), FixlenBegin(id, sub, n)));
    var q := CallOn(pol, p, p.Cur(), FixlenBegin(id, sub, n));
    if q.Live? && n == 0 {
      TellShows(pol, root, q, Piece(id, sub, 0, 0, []), Paying(id, sub, 0, 0), Between);
    }
  }

  lemma OpenShows(pol: Policy, root: Visitor, m: Machine, id: int)
    requires m.Live? && m.Fits() && Agrees(pol, root, m) && m.phase.Header? && IsId(id)
    ensures Agrees(pol, root, Opened(pol, m, id))
  {
    hide Recognize;
    if m.Depth() < MAX_DEPTH && m.Cur() != Nil {
      RecognizeAppend(pol, root, m.log, Call(m.Cur(), BeginSequence(id)));
    }
  }

  lemma CloseShows(pol: Policy, root: Visitor, m: Machine)
    requires m.Live? && m.Fits() && Agrees(pol, root, m) && m.phase.Header?
    ensures Agrees(pol, root, Closed(pol, m))
  {
    hide Recognize;
    if m.Depth() > 0 && m.declined == 0 {
      RecognizeAppend(pol, root, m.log, Call(m.open[|m.open| - 1], EndSequence));
    }
  }

  lemma VarintShows(pol: Policy, root: Visitor, m: Machine, v: U64)
    requires m.Live? && m.Fits() && Agrees(pol, root, m) && m.phase.ReadsVarint()
    ensures Agrees(pol, root, OnVarint(pol, m, v))
  {
    hide Recognize, Tell, AnnounceFixlen, Announce, Opened, Closed, OnElement;
    match m.phase
    case Header =>
      if IsId(v / 8) { OpenShows(pol, root, m, v / 8); }
      CloseShows(pol, root, m);
    case ScalarU(id) => ScalarShows(pol, root, m, Unsigned(id, v));
    case ScalarS(id) => ScalarShows(pol, root, m, Signed(id, Unzigzag(v)));
    case FixWord(id) =>
      var phase := WordPhase(id, v);
      if phase.Some? { FixlenShows(pol, root, m.(phase := phase.value), id, SubtypeOf(v % 8), v / 8); }
    case Count(id, wire) =>
      var signed := wire != T_ARRAY_UNSIGNED;
      if v <= ARRAY_MAX {
        AnnounceShows(pol, root, m.(phase := Elems(id, signed, v, v)), id, if signed then KSigned else KUnsigned, v);
      }
    case Elems(_, _, _, _) => ElementShows(pol, root, m, v);
    case ArrWord(id, total) =>
      AnnounceShows(pol, root, m.(phase := ArrFp(id, 4, total, total, [])), id, KFp32, total);
      AnnounceShows(pol, root, m.(phase := ArrFp(id, 8, total, total, [])), id, KFp64, total);
  }

  lemma StepShows(pol: Policy, root: Visitor, m: Machine, b: Byte)
    requires m.Fits() && Agrees(pol, root, m)
    ensures Agrees(pol, root, Step(pol, m, b))
  {
    hide Recognize, OnVarint, OnFloat, OnArrFloat, TakePiece, StepVarint, Le;
    if m.Live? {
      if m.phase.Fp? {
        FloatShows(pol, root, m, Le(m.phase.got + [b]));
      } else if m.phase.ArrFp? {
        ArrFloatShows(pol, root, m, Le(m.phase.got + [b]));
      } else if m.phase.Payload? {
        PieceShows(pol, root, m, [b]);
      } else {
        StepVarintBounds(m.part, b);
        FreshFits();
        match StepVarint(m.part, b)
        case Done(v) => VarintShows(pol, root, m.(part := FRESH), v);
        case More(_) =>
        case Overflow =>
      }
    }
  }

  lemma PieceFits(pol: Policy, m: Machine, piece: Bytes)
    requires m.Live? && m.Fits() && m.phase.Payload? && m.phase.off + |piece| <= m.phase.total
    ensures TakePiece(pol, m, piece).Fits()
  {
  }

  lemma {:induction false} ChunkShows(pol: Policy, root: Visitor, m: Machine, c: Bytes)
    requires m.Fits() && Agrees(pol, root, m)
    ensures Chunk(pol, m, c).Fits() && Agrees(pol, root, Chunk(pol, m, c))
    decreases |c|
  {
    hide Agrees, Step, TakePiece;
    if m.Live? && c != [] {
      if m.phase.Payload? {
        var n := if m.phase.total - m.phase.off < |c| then m.phase.total - m.phase.off else |c|;
        PieceFits(pol, m, c[..n]);
        PieceShows(pol, root, m, c[..n]) by { assert Scoped(m); }
        ChunkShows(pol, root, TakePiece(pol, m, c[..n]), c[n..]);
      } else {
        StepFits(pol, m, c[0]);
        StepShows(pol, root, m, c[0]);
        ChunkShows(pol, root, Step(pol, m, c[0]), c[1..]);
      }
    }
  }

  lemma {:induction false} FeedsShow(pol: Policy, root: Visitor, m: Machine, cs: seq<Bytes>)
    requires m.Fits() && Agrees(pol, root, m)
    ensures Feeds(pol, m, cs).Fits() && Agrees(pol, root, Feeds(pol, m, cs))
    decreases |cs|
  {
    hide Agrees, Chunk;
    if cs != [] {
      ChunkShows(pol, root, m, cs[0]);
      FeedsShow(pol, root, Chunk(pol, m, cs[0]), cs[1..]);
    }
  }

  lemma NextRooted(pol: Policy, root: Visitor, g: Grammar, h: Log)
    requires h != [] && (g.Good? ==> g.open != [] && g.open[0] == root)
    ensures var n := Next(pol, g, h); n.Good? ==> n.open != [] && n.open[0] == root
  {
    hide InRange;
  }

  /** The root visitor stays at the bottom of the scopes. */
  lemma {:induction false} RecognizeRooted(pol: Policy, root: Visitor, log: Log)
    ensures var g := Recognize(pol, root, log); g.Good? ==> g.open != [] && g.open[0] == root
    decreases |log|
  {
    hide Next;
    if log != [] {
      RecognizeRooted(pol, root, log[..|log| - 1]);
      NextRooted(pol, root, Recognize(pol, root, log[..|log| - 1]), log);
    }
  }

  /** The callbacks of any bytes, in any chunks, to any visitor, stay in the language;
      a decode that ends Complete ends between fields with only the root open. */
  lemma EventGrammar(pol: Policy, root: Visitor, cs: seq<Bytes>)
    requires root != Nil
    ensures var m := Feeds(pol, Initial(root), cs);
      && m.Fits() && Recognize(pol, root, m.All()).Good?
      && (OutcomeOf(m) == Complete ==> Recognize(pol, root, m.log) == Good(Between, [root], m.told))
  {
    hide Recognize;
    FreshFits();
    assert Agrees(pol, root, Initial(root)) by { RecognizeNothing(pol, root); }
    FeedsShow(pol, root, Initial(root), cs);
    RecognizeRooted(pol, root, Feeds(pol, Initial(root), cs).All());
  }

  lemma RecognizeNothing(pol: Policy, root: Visitor)
    ensures Recognize(pol, root, []) == Good(Between, [root], [false])
  {
  }
}
