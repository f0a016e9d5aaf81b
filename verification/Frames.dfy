/** Where a decode stands with visitors that never refuse: the bytes alone decide it,
    whatever the visitors answer and however the bytes are cut. */
module Frames {
  import opened Wire
  import opened Machine
  import opened FastPaths
  import opened Chunking
  import opened Completion

  /** The same field, the same varint, the same depth; declined or not. */
  ghost predicate SameFrame(m: Machine, n: Machine) {
    && m.Fits() && n.Fits()
    && if m.Failed? then n.Failed? && n.why == m.why
       else n.Live? && n.phase == m.phase && n.part == m.part && n.Depth() == m.Depth()
  }

  lemma FrameHeader(pol: Policy, m: Machine, n: Machine, h: U64)
    requires Tolerant(pol) && SameFrame(m, n) && m.Live? && m.part == FRESH && m.phase.Header?
    ensures SameFrame(OnHeader(pol, m, h), OnHeader(pol, n, h))
  {
    OnHeaderFits(pol, m, h);
    OnHeaderFits(pol, n, h);
    hide Partial.Fits, Phase.Fits;
  }

  /** A completed varint that is not a header leads where the phase and the value say. */
  lemma VarintAccepted(pol: Policy, m: Machine, v: U64)
    requires Tolerant(pol) && m.Live? && m.Fits() && m.part == FRESH && m.phase.ReadsVarint() && !m.phase.Header?
    ensures var n := OnVarint(pol, m, v);
            var next := match m.phase
              case ScalarU(_) => Some(Phase.Header)
              case ScalarS(_) => Some(Phase.Header)
              case FixWord(id) => WordPhase(id, v)
              case Count(id, wire) =>
                if v > ARRAY_MAX then None
                else if wire == T_ARRAY_FIXLEN then Some(ArrWord(id, v))
                else Some(if v == 0 then Phase.Header else Elems(id, wire != T_ARRAY_UNSIGNED, v, v))
              case Elems(id, signed, total, remain) => Some(if remain == 1 then Phase.Header else Elems(id, signed, total, remain - 1))
              case ArrWord(id, total) =>
                if v != 32 && v != 65 then None
                else Some(if total == 0 then Phase.Header else ArrFp(id, if v == 32 then 4 else 8, total, total, []))
              case _ => None;
            if next.None? then n.Failed? && n.why == InvalidMsg
            else n.Live? && n.phase == next.value && n.part == FRESH && n.Depth() == m.Depth()
  {
    hide Tolerant, Tell, AnnounceFixlen, Announce, OnElement, Partial.Fits;
    match m.phase
    case ScalarU(id) => TellAccepted(pol, m.(phase := Header), Unsigned(id, v));
    case ScalarS(id) => TellAccepted(pol, m.(phase := Header), Signed(id, Unzigzag(v)));
    case FixWord(id) =>
      var phase := WordPhase(id, v);
      if phase.Some? { FixlenAccepted(pol, m.(phase := phase.value), id, SubtypeOf(v % 8), v / 8); }
    case Count(id, wire) =>
      var signed := wire != T_ARRAY_UNSIGNED;
      AnnounceAccepted(pol, m.(phase := Elems(id, signed, v, v)), id, if signed then KSigned else KUnsigned, v);
    case Elems(_, _, _, _) => ElementAccepted(pol, m, v);
    case ArrWord(id, total) =>
      AnnounceAccepted(pol, m.(phase := ArrFp(id, 4, total, total, [])), id, KFp32, total);
      AnnounceAccepted(pol, m.(phase := ArrFp(id, 8, total, total, [])), id, KFp64, total);
  }

  lemma FrameStep(pol: Policy, m: Machine, n: Machine, b: Byte)
    requires Tolerant(pol) && SameFrame(m, n)
    ensures SameFrame(Step(pol, m, b), Step(pol, n, b))
  {
    hide Tolerant, Tell, OnVarint, OnArrFloat, OnHeader, StepVarint, Le, Partial.Fits;
    StepFits(pol, m, b);
    StepFits(pol, n, b);
    if m.Live? {
      if m.phase.Fp? {
        var ev := Float(m.phase.id, m.phase.width, Le(m.phase.got + [b]));
        TellAccepted(pol, m.(phase := Header), ev);
        TellAccepted(pol, n.(phase := Header), ev);
      } else if m.phase.ArrFp? {
        ArrFloatAccepted(pol, m, Le(m.phase.got + [b]));
        ArrFloatAccepted(pol, n, Le(m.phase.got + [b]));
      } else if m.phase.Payload? {
        FramePiece(pol, m, n, [b]);
      } else {
        StepVarintBounds(m.part, b);
        FreshFits();
        match StepVarint(m.part, b)
        case More(_) =>
        case Overflow =>
        case Done(v) => FrameVarint(pol, m.(part := FRESH), n.(part := FRESH), v);
      }
    }
  }

  lemma FrameVarint(pol: Policy, m: Machine, n: Machine, v: U64)
    requires Tolerant(pol) && SameFrame(m, n) && m.Live? && m.part == FRESH && m.phase.ReadsVarint()
    ensures SameFrame(OnVarint(pol, m, v), OnVarint(pol, n, v))
  {
    hide Tolerant, OnHeader, OnFixWord, OnCount, OnArrWord, OnElement, Tell, WordPhase, Partial.Fits, Phase.Fits;
    OnVarintFits(pol, m, v);
    OnVarintFits(pol, n, v);
    if m.phase.Header? {
      FrameHeader(pol, m, n, v);
    } else {
      VarintAccepted(pol, m, v);
      VarintAccepted(pol, n, v);
    }
  }

  lemma FramePiece(pol: Policy, m: Machine, n: Machine, a: Bytes)
    requires Tolerant(pol) && SameFrame(m, n) && m.Live? && m.phase.Payload? && m.phase.off + |a| <= m.phase.total
    ensures SameFrame(TakePiece(pol, m, a), TakePiece(pol, n, a))
  {
    hide Tolerant, Tell, Partial.Fits;
    var Payload(id, sub, total, off) := m.phase;
    var k := off + |a|;
    var phase := if k == total then Header else Payload(id, sub, total, k);
    TellAccepted(pol, m.(phase := phase), Piece(id, sub, total, off, a));
    TellAccepted(pol, n.(phase := phase), Piece(id, sub, total, off, a));
  }

  /** A piece leads where its bytes lead. */
  lemma {:induction false} PieceFrame(pol: Policy, m: Machine, n: Machine, a: Bytes)
    requires Tolerant(pol) && SameFrame(m, n) && m.Live? && m.phase.Payload? && a != []
    requires m.phase.off + |a| <= m.phase.total
    ensures SameFrame(TakePiece(pol, m, a), Run(pol, n, a))
    decreases |a|
  {
    hide Tolerant, Tell, Partial.Fits;
    var Payload(id, sub, total, off) := m.phase;
    FrameStep(pol, m, n, a[0]);
    var x, k := Step(pol, m, a[0]), Step(pol, n, a[0]);
    FramePiece(pol, m, m, a);
    if |a| == 1 {
      assert a == [a[0]];
      assert Run(pol, k, a[1..]) == k;
    } else {
      TellAccepted(pol, m.(phase := Payload(id, sub, total, off + 1)), Piece(id, sub, total, off, [a[0]]));
      PieceFrame(pol, x, k, a[1..]);
      FramePiece(pol, x, x, a[1..]);
      TellAccepted(pol, x.(phase := if off + |a| == total then Header else Payload(id, sub, total, off + |a|)),
                   Piece(id, sub, total, off + 1, a[1..]));
      TellAccepted(pol, m.(phase := if off + |a| == total then Header else Payload(id, sub, total, off + |a|)),
                   Piece(id, sub, total, off, a));
    }
  }

  lemma {:induction false} ChunkFrame(pol: Policy, m: Machine, n: Machine, c: Bytes)
    requires Tolerant(pol) && SameFrame(m, n)
    ensures SameFrame(Chunk(pol, m, c), Run(pol, n, c))
    decreases |c|
  {
    hide Tolerant, Step, TakePiece, Partial.Fits;
    if m.Failed? {
      RunFailed(pol, n, c);
    } else if c != [] {
      if m.phase.Payload? && m.phase.off < m.phase.total {
        var i := if m.phase.total - m.phase.off < |c| then m.phase.total - m.phase.off else |c|;
        PieceFrame(pol, m, n, c[..i]);
        ChunkFrame(pol, TakePiece(pol, m, c[..i]), Run(pol, n, c[..i]), c[i..]);
        RunConcat(pol, n, c[..i], c[i..]);
        assert c[..i] + c[i..] == c;
      } else {
        FrameStep(pol, m, n, c[0]);
        ChunkFrame(pol, Step(pol, m, c[0]), Step(pol, n, c[0]), c[1..]);
      }
    }
  }

  lemma {:induction false} FeedsFrame(pol: Policy, m: Machine, n: Machine, cs: seq<Bytes>)
    requires Tolerant(pol) && SameFrame(m, n)
    ensures SameFrame(Feeds(pol, m, cs), Run(pol, n, Flatten(cs)))
    decreases |cs|
  {
    hide Tolerant, Chunk, Step, SameFrame;
    if cs != [] {
      ChunkFrame(pol, m, n, cs[0]);
      FeedsFrame(pol, Chunk(pol, m, cs[0]), Run(pol, n, cs[0]), cs[1..]);
      RunConcat(pol, n, cs[0], Flatten(cs[1..]));
    }
  }

  /** Visitors that never refuse may answer by the cuts as they please: every cutting of the
      same bytes ends in the same phase, at the same depth, with the same outcome. */
  lemma ToleranceIgnoresCuts(pol: Policy, m: Machine, cs: seq<Bytes>, ds: seq<Bytes>)
    requires Tolerant(pol) && m.Fits() && Flatten(cs) == Flatten(ds)
    ensures SameFrame(Feeds(pol, m, cs), Feeds(pol, m, ds))
    ensures OutcomeOf(Feeds(pol, m, cs)) == OutcomeOf(Feeds(pol, m, ds))
  {
    hide Tolerant, Feeds, Run, Partial.Fits, Phase.Fits;
    FeedsFrame(pol, m, m, cs);
    FeedsFrame(pol, m, m, ds);
  }
}
