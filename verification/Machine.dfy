/** The decoder as a mathematical machine over the bytes of a stream.

    `Step` consumes one byte, `Chunk` one fed chunk. A machine holds only what the
    rest of a decode depends on; the mutable fields of the source's decoder that
    are stale or dead in a state have no counterpart here. */
module Machine {
  import opened Wire

  /** A visitor handle; `Nil` declines a scope. */
  datatype Visitor = Nil | V(handle: nat)

  datatype Subtype = Fp32 | Fp64 | Str | Blob
  datatype Kind = KUnsigned | KSigned | KFp32 | KFp64

  /** One callback and its arguments. Floats are bit patterns. */
  datatype Event =
    | Unsigned(id: int, v: int)
    | Signed(id: int, s: int)
    | Float(id: int, width: int, bits: int)
    | FixlenBegin(id: int, sub: Subtype, total: int)
    | Piece(id: int, sub: Subtype, total: int, off: nat, chunk: Bytes)
    | ArrayBegin(id: int, kind: Kind, count: int)
    | ArrayUnsigned(id: int, idx: int, v: int)
    | ArraySigned(id: int, idx: int, s: int)
    | ArrayFloat(id: int, idx: int, width: int, bits: int)
    | ArrayEnd(id: int)
    | BeginSequence(id: int)
    | EndSequence
    | SetStringCheck

  /** A callback and the visitor it is made on. */
  datatype Call = Call(on: Visitor, ev: Event)
  type Log = seq<Call>

  /** The deterministic behaviour of all visitors of a decode: what the last call of
      a history answers. `refuse` is its error, `child` the visitor a BeginSequence
      returns, `takesCheck` the optional string-policy extension. */
  datatype Policy = Policy(refuse: Log -> Option<Error>, child: Log -> Visitor, takesCheck: Visitor -> bool)

  /** Where a decode is between two bytes, with the fields alive there. */
  datatype Phase =
    | Header
    | ScalarU(id: int)
    | ScalarS(id: int)
    | FixWord(id: int)
    | Fp(id: int, width: int, got: Bytes)
    | Payload(id: int, sub: Subtype, total: int, off: nat)
    | Count(id: int, wire: int)
    | Elems(id: int, signed: bool, total: int, remain: int)
    | ArrWord(id: int, total: int)
    | ArrFp(id: int, width: int, total: int, remain: int, got: Bytes)
  {
    /** The phases that read a varint. */
    predicate ReadsVarint() {
      Header? || ScalarU? || ScalarS? || FixWord? || Count? || Elems? || ArrWord?
    }

    predicate Fits() {
      match this
      case Header => true
      case ScalarU(id) => 0 <= id <= ID_MAX
      case ScalarS(id) => 0 <= id <= ID_MAX
      case FixWord(id) => 0 <= id <= ID_MAX
      case Fp(id, width, got) => 0 <= id <= ID_MAX && (width == 4 || width == 8) && |got| < width
      case Payload(id, sub, total, off) => 0 <= id <= ID_MAX && (sub.Str? || sub.Blob?) && 0 <= off < total <= ARRAY_MAX
      case Count(id, wire) => 0 <= id <= ID_MAX && (wire == T_ARRAY_UNSIGNED || wire == T_ARRAY_SIGNED || wire == T_ARRAY_FIXLEN)
      case Elems(id, _, total, remain) => 0 <= id <= ID_MAX && 0 < remain <= total <= ARRAY_MAX
      case ArrWord(id, total) => 0 <= id <= ID_MAX && 0 <= total <= ARRAY_MAX
      case ArrFp(id, width, total, remain, got) =>
        0 <= id <= ID_MAX && (width == 4 || width == 8) && 0 < remain <= total <= ARRAY_MAX && |got| < width
    }
  }

  /** `open` lists the visitors of the scopes being delivered, root first; `told`
      says which of them had their string policy delivered; `declined` counts the
      scopes open inside a declined subtree. */
  datatype Machine =
    | Failed(heard: Log, why: Error)
    | Live(phase: Phase, part: Partial, open: seq<Visitor>, told: seq<bool>, declined: nat, log: Log)
  {
    /** Every call made so far. */
    function All(): Log { if Failed? then heard else log }

    function Depth(): int requires Live? { |open| - 1 + declined }

    /** The visitor of the innermost scope, Nil inside a declined subtree. */
    function Cur(): Visitor requires Live? {
      if declined > 0 || open == [] then Nil else open[|open| - 1]
    }

    ghost predicate Fits() {
      Live? ==>
        && phase.Fits() && part.Fits() && (!phase.ReadsVarint() ==> part == FRESH)
        && |open| >= 1 && |told| == |open| && Nil !in open && Depth() <= MAX_DEPTH
    }
  }

  datatype Outcome = Complete | Incomplete | Invalid

  function OutcomeOf(m: Machine): Outcome {
    if m.Failed? then Invalid
    else if m.phase.Header? && m.part.nb == 0 && m.Depth() == 0 then Complete
    else Incomplete
  }

  function Initial(root: Visitor): Machine {
    Live(Header, FRESH, [root], [false], 0, [])
  }

  /* ----- deliveries ----- */

  function Rejected(m: Machine, e: Error): Machine { Failed(m.All(), e) }

  /** One callback on `v`, keeping the machine unless the visitor refuses it. */
  function CallOn(pol: Policy, m: Machine, v: Visitor, ev: Event): Machine
    requires m.Live?
  {
    var log := m.log + [Call(v, ev)];
    match pol.refuse(log)
    case Some(e) => Failed(log, e)
    case None => m.(log := log)
  }

  /** One callback on the innermost scope's visitor, nothing in a declined subtree. */
  function Tell(pol: Policy, m: Machine, ev: Event): Machine
    requires m.Live?
  {
    if m.Cur() == Nil then m else CallOn(pol, m, m.Cur(), ev)
  }

  /** Announce the scope's string policy before its first string. */
  function TellPolicy(pol: Policy, m: Machine, sub: Subtype): Machine
    requires m.Live?
    ensures TellPolicy(pol, m, sub).Live?
  {
    if m.Cur() == Nil || sub != Str || m.told == [] || m.told[|m.told| - 1] then m
    else
      var n := m.(told := m.told[|m.told| - 1 := true]);
      if pol.takesCheck(m.Cur()) then n.(log := n.log + [Call(m.Cur(), SetStringCheck)]) else n
  }

  /** Leave an array whose elements have all been read. */
  function Settle(pol: Policy, m: Machine): Machine {
    if m.Failed? then m
    else match m.phase
      case Elems(id, _, _, remain) =>
        if remain == 0 then Tell(pol, m.(phase := Header), ArrayEnd(id)) else m
      case ArrFp(id, _, _, remain, _) =>
        if remain == 0 then Tell(pol, m.(phase := Header), ArrayEnd(id)) else m
      case _ => m
  }

  /** One piece of a string or blob payload. */
  function TakePiece(pol: Policy, m: Machine, piece: Bytes): Machine
    requires m.Live? && m.phase.Payload?
  {
    var Payload(id, sub, total, off) := m.phase;
    var n := off + |piece|;
    Tell(pol, m.(phase := if n == total then Header else Payload(id, sub, total, n)), Piece(id, sub, total, off, piece))
  }

  /* ----- what a completed varint does, phase by phase ----- */

  function OnHeader(pol: Policy, m: Machine, h: int): Machine
    requires m.Live? && h >= 0
  {
    var id, t := h / 8, h % 8;
    if id > ID_MAX then Rejected(m, InvalidMsg)
    else if t == T_UNSIGNED then m.(phase := ScalarU(id))
    else if t == T_SIGNED then m.(phase := ScalarS(id))
    else if t == T_FIXLEN then m.(phase := FixWord(id))
    else if t == T_SEQUENCE_START then Opened(pol, m, id)
    else if t == T_SEQUENCE_END then Closed(pol, m)
    else m.(phase := Count(id, t))
  }

  function Opened(pol: Policy, m: Machine, id: int): Machine
    requires m.Live?
  {
    if m.Depth() >= MAX_DEPTH then Rejected(m, InvalidMsg)
    else if m.Cur() == Nil then m.(declined := m.declined + 1)
    else
      var n := CallOn(pol, m, m.Cur(), BeginSequence(id));
      if n.Failed? then n
      else if pol.child(n.log) == Nil then n.(declined := 1)
      else n.(open := n.open + [pol.child(n.log)], told := n.told + [false])
  }

  function Closed(pol: Policy, m: Machine): Machine
    requires m.Live?
  {
    if m.Depth() <= 0 || m.told == [] then Rejected(m, InvalidMsg)
    else if m.declined > 0 then m.(declined := m.declined - 1)
    else
      CallOn(pol, m.(open := m.open[..|m.open| - 1], told := m.told[..|m.told| - 1]), m.open[|m.open| - 1], EndSequence)
  }

  /** The phase a fixlen word leads to, None when the word is malformed. */
  function WordPhase(id: int, w: int): Option<Phase>
    requires w >= 0
  {
    var n, t := w / 8, w % 8;
    if n > ARRAY_MAX then None
    else if t == 0 && n == 4 then Some(Fp(id, 4, []))
    else if t == 1 && n == 8 then Some(Fp(id, 8, []))
    else if t == 2 || t == 3 then
      Some(if n == 0 then Header else Payload(id, if t == 2 then Str else Blob, n, 0))
    else None
  }

  function SubtypeOf(t: int): Subtype {
    if t == 0 then Fp32 else if t == 1 then Fp64 else if t == 2 then Str else Blob
  }

  /** Announce a fixlen field, with the one piece of an empty payload. */
  function AnnounceFixlen(pol: Policy, m: Machine, id: int, sub: Subtype, n: int): Machine
    requires m.Live?
  {
    var p := Tell(pol, TellPolicy(pol, m, sub), FixlenBegin(id, sub, n));
    if p.Live? && n == 0 then Tell(pol, p, Piece(id, sub, 0, 0, [])) else p
  }

  function OnFixWord(pol: Policy, m: Machine, id: int, w: int): Machine
    requires m.Live? && w >= 0
  {
    match WordPhase(id, w)
    case None => Rejected(m, InvalidMsg)
    case Some(phase) => AnnounceFixlen(pol, m.(phase := phase), id, SubtypeOf(w % 8), w / 8)
  }

  function Announce(pol: Policy, m: Machine, id: int, kind: Kind, count: int): Machine
    requires m.Live?
  {
    Settle(pol, Tell(pol, m, ArrayBegin(id, kind, count)))
  }

  function OnCount(pol: Policy, m: Machine, id: int, wire: int, n: int): Machine
    requires m.Live?
  {
    if n > ARRAY_MAX then Rejected(m, InvalidMsg)
    else if wire == T_ARRAY_FIXLEN then m.(phase := ArrWord(id, n))
    else
      var signed := wire != T_ARRAY_UNSIGNED;
      Announce(pol, m.(phase := Elems(id, signed, n, n)), id, if signed then KSigned else KUnsigned, n)
  }

  function OnArrWord(pol: Policy, m: Machine, id: int, total: int, w: int): Machine
    requires m.Live?
  {
    if w == 4 * 8 + 0 then Announce(pol, m.(phase := ArrFp(id, 4, total, total, [])), id, KFp32, total)
    else if w == 8 * 8 + 1 then Announce(pol, m.(phase := ArrFp(id, 8, total, total, [])), id, KFp64, total)
    else Rejected(m, InvalidMsg)
  }

  function OnElement(pol: Policy, m: Machine, v: U64): Machine
    requires m.Live? && m.phase.Elems?
  {
    var Elems(id, signed, total, remain) := m.phase;
    var idx := total - remain;
    Settle(pol, Tell(pol, m.(phase := Elems(id, signed, total, remain - 1)),
                     if signed then ArraySigned(id, idx, Unzigzag(v)) else ArrayUnsigned(id, idx, v)))
  }

  function OnArrFloat(pol: Policy, m: Machine, bits: int): Machine
    requires m.Live? && m.phase.ArrFp?
  {
    var ArrFp(id, width, total, remain, _) := m.phase;
    Settle(pol, Tell(pol, m.(phase := ArrFp(id, width, total, remain - 1, [])), ArrayFloat(id, total - remain, width, bits)))
  }

  function OnFloat(pol: Policy, m: Machine, bits: int): Machine
    requires m.Live? && m.phase.Fp?
  {
    Tell(pol, m.(phase := Header), Float(m.phase.id, m.phase.width, bits))
  }

  function OnVarint(pol: Policy, m: Machine, v: U64): Machine
    requires m.Live? && m.phase.ReadsVarint()
  {
    match m.phase
    case Header => OnHeader(pol, m, v)
    case ScalarU(id) => Tell(pol, m.(phase := Header), Unsigned(id, v))
    case ScalarS(id) => Tell(pol, m.(phase := Header), Signed(id, Unzigzag(v)))
    case FixWord(id) => OnFixWord(pol, m, id, v)
    case Count(id, wire) => OnCount(pol, m, id, wire, v)
    case Elems(_, _, _, _) => OnElement(pol, m, v)
    case ArrWord(id, total) => OnArrWord(pol, m, id, total, v)
  }

  /* ----- bytes and chunks ----- */

  /** One byte. */
  function Step(pol: Policy, m: Machine, b: Byte): Machine {
    if m.Failed? then m
    else match m.phase
      case Fp(id, width, got) =>
        if |got| + 1 < width then m.(phase := Fp(id, width, got + [b])) else OnFloat(pol, m, Le(got + [b]))
      case ArrFp(id, width, total, remain, got) =>
        if |got| + 1 < width then m.(phase := ArrFp(id, width, total, remain, got + [b]))
        else OnArrFloat(pol, m, Le(got + [b]))
      case Payload(_, _, _, _) => TakePiece(pol, m, [b])
      case _ =>
        match StepVarint(m.part, b)
        case More(q) => m.(part := q)
        case Overflow => Rejected(m, InvalidMsg)
        case Done(v) => if 0 <= v < TWO_64 then OnVarint(pol, m.(part := FRESH), v) else m
  }

  /** One fed chunk: a payload takes all it can of the chunk in one piece, everything
      else goes byte by byte. */
  function Chunk(pol: Policy, m: Machine, c: Bytes): Machine
    decreases |c|
  {
    if c == [] || m.Failed? then m
    else if m.phase.Payload? && m.phase.off < m.phase.total then
      var n := if m.phase.total - m.phase.off < |c| then m.phase.total - m.phase.off else |c|;
      Chunk(pol, TakePiece(pol, m, c[..n]), c[n..])
    else Chunk(pol, Step(pol, m, c[0]), c[1..])
  }

  /** A run of chunks, one `Feed` each. */
  function Feeds(pol: Policy, m: Machine, cs: seq<Bytes>): Machine
    decreases |cs|
  {
    if cs == [] then m else Feeds(pol, Chunk(pol, m, cs[0]), cs[1..])
  }

  /** The byte-at-a-time decode, the reference every chunking is compared with. */
  function Run(pol: Policy, m: Machine, s: Bytes): Machine
    decreases |s|
  {
    if s == [] then m else Run(pol, Step(pol, m, s[0]), s[1..])
  }

  /* ----- what every byte keeps ----- */

  lemma OnFixWordFits(pol: Policy, m: Machine, id: int, w: int)
    requires m.Live? && m.Fits() && m.part == FRESH && 0 <= id <= ID_MAX && w >= 0
    ensures OnFixWord(pol, m, id, w).Fits()
  {
    var phase := WordPhase(id, w);
    if phase.Some? {
      assert TellPolicy(pol, m.(phase := phase.value), SubtypeOf(w % 8)).Fits();
    }
  }

  lemma OnHeaderFits(pol: Policy, m: Machine, h: int)
    requires m.Live? && m.Fits() && m.part == FRESH && h >= 0
    ensures OnHeader(pol, m, h).Fits()
  {
    if h / 8 <= ID_MAX && h % 8 == T_SEQUENCE_START {
      if m.Depth() < MAX_DEPTH && m.Cur() != Nil {
        var n := CallOn(pol, m, m.Cur(), BeginSequence(h / 8));
        if n.Live? { assert Nil !in n.open + [pol.child(n.log)] || pol.child(n.log) == Nil; }
      }
    }
  }

  lemma AnnounceFits(pol: Policy, m: Machine, id: int, kind: Kind, count: int)
    requires m.Live? && 0 <= id <= ID_MAX && m.(phase := Header).Fits() && m.part == FRESH
    requires 0 <= count <= ARRAY_MAX
    requires m.phase == Elems(id, kind.KSigned?, count, count)
          || ((m.phase == ArrFp(id, 4, count, count, []) || m.phase == ArrFp(id, 8, count, count, [])))
    ensures Announce(pol, m, id, kind, count).Fits()
  {
    var p := Tell(pol, m, ArrayBegin(id, kind, count));
    if p.Live? { assert p.(phase := Header).Fits(); }
  }

  lemma OnElementFits(pol: Policy, m: Machine, v: U64)
    requires m.Live? && m.Fits() && m.part == FRESH && m.phase.Elems?
    ensures OnElement(pol, m, v).Fits()
  {
    var Elems(id, signed, total, remain) := m.phase;
    var p := Tell(pol, m.(phase := Elems(id, signed, total, remain - 1)),
                  if signed then ArraySigned(id, total - remain, Unzigzag(v)) else ArrayUnsigned(id, total - remain, v));
    if p.Live? { assert p.(phase := Header).Fits(); }
  }

  lemma OnArrFloatFits(pol: Policy, m: Machine, bits: int)
    requires m.Live? && m.Fits() && m.phase.ArrFp?
    ensures OnArrFloat(pol, m, bits).Fits()
  {
    var ArrFp(id, width, total, remain, _) := m.phase;
    var p := Tell(pol, m.(phase := ArrFp(id, width, total, remain - 1, [])), ArrayFloat(id, total - remain, width, bits));
    if p.Live? { assert p.(phase := Header).Fits(); }
  }

  lemma OnVarintFits(pol: Policy, m: Machine, v: U64)
    requires m.Live? && m.Fits() && m.part == FRESH && m.phase.ReadsVarint()
    ensures OnVarint(pol, m, v).Fits()
  {
    match m.phase
    case Header => OnHeaderFits(pol, m, v);
    case FixWord(id) => OnFixWordFits(pol, m, id, v);
    case Count(id, wire) =>
      if v <= ARRAY_MAX && wire != T_ARRAY_FIXLEN {
        var signed := wire != T_ARRAY_UNSIGNED;
        AnnounceFits(pol, m.(phase := Elems(id, signed, v, v)), id, if signed then KSigned else KUnsigned, v);
      }
    case Elems(_, _, _, _) => OnElementFits(pol, m, v);
    case ArrWord(id, total) =>
      if v == 32 {
        AnnounceFits(pol, m.(phase := ArrFp(id, 4, total, total, [])), id, KFp32, total);
      } else if v == 65 {
        AnnounceFits(pol, m.(phase := ArrFp(id, 8, total, total, [])), id, KFp64, total);
      }
    case ScalarU(id) =>
    case ScalarS(id) =>
  }

  /** Every byte keeps the machine well formed. */
  lemma StepFits(pol: Policy, m: Machine, b: Byte)
    requires m.Fits()
    ensures Step(pol, m, b).Fits()
  {
    if m.Live? && m.phase.ReadsVarint() {
      StepVarintBounds(m.part, b);
      match StepVarint(m.part, b)
      case Done(v) => OnVarintFits(pol, m.(part := FRESH), v);
      case _ =>
    } else if m.Live? && m.phase.ArrFp? {
      OnArrFloatFits(pol, m, Le(m.phase.got + [b]));
    }
  }

  lemma {:induction false} RunFits(pol: Policy, m: Machine, s: Bytes)
    requires m.Fits()
    ensures Run(pol, m, s).Fits()
    decreases |s|
  {
    if s != [] {
      StepFits(pol, m, s[0]);
      RunFits(pol, Step(pol, m, s[0]), s[1..]);
    }
  }
}
