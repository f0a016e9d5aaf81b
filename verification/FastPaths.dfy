/** What a whole varint, a whole float or a run of declined floats inside a chunk
    does to the machine: the equations the decoder's fast paths rest on. */
module FastPaths {
  import opened Wire
  import opened Machine

  /** The machine after it has read what it can of one varint from `s`, and then the rest. */
  function AfterVarint(pol: Policy, m: Machine, s: Bytes): Machine
    requires m.Live? && m.phase.ReadsVarint()
  {
    match ReadVarint(m.part, s)
    case Suspended(q) => m.(part := q)
    case Malformed => Rejected(m, InvalidMsg)
    case Got(v, used) => if 0 <= v < TWO_64 then Chunk(pol, OnVarint(pol, m.(part := FRESH), v), s[used..]) else m
  }

  lemma StepOnVarint(pol: Policy, m: Machine, b: Byte)
    requires m.Live? && m.phase.ReadsVarint()
    ensures Step(pol, m, b) ==
            match StepVarint(m.part, b)
            case More(q) => m.(part := q)
            case Overflow => Rejected(m, InvalidMsg)
            case Done(v) => if 0 <= v < TWO_64 then OnVarint(pol, m.(part := FRESH), v) else m
  {
    hide OnVarint, StepVarint;
  }

  /** A varint is read the same whether its bytes come at once or one by one. */
  lemma {:induction false} VarintChunk(pol: Policy, m: Machine, s: Bytes)
    requires m.Live? && m.phase.ReadsVarint() && m.part.Fits()
    ensures Chunk(pol, m, s) == AfterVarint(pol, m, s)
    decreases |s|
  {
    if s != [] {
      StepVarintBounds(m.part, s[0]);
      StepOnVarint(pol, m, s[0]);
      ReadVarintBounds(m.part, s);
      hide OnVarint, StepVarint, Step, Partial.Fits;
      match StepVarint(m.part, s[0])
      case Overflow => ChunkFailed(pol, Rejected(m, InvalidMsg), s[1..]);
      case Done(v) =>
      case More(q) =>
        VarintChunk(pol, m.(part := q), s[1..]);
        ReadVarintUnfold(m.part, s, q);
        hide ReadVarint;
        match ReadVarint(q, s[1..])
        case Got(v, used) => assert s[1..][used..] == s[used + 1..];
        case Malformed =>
        case Suspended(_) =>
    }
  }

  lemma TellNil(pol: Policy, m: Machine)
    requires m.Live? && m.Cur() == Nil
    ensures forall ev :: Tell(pol, m, ev) == m
  {
  }

  lemma OnlyZero(p: Partial)
    requires p.Fits() && p.nb == 0
    ensures p == FRESH
  {
  }

  lemma ChunkStops(pol: Policy, m: Machine, s: Bytes)
    requires m.Failed? || s == []
    ensures Chunk(pol, m, s) == m
  {
  }

  lemma ChunkFailed(pol: Policy, m: Machine, s: Bytes)
    requires m.Failed?
    ensures Chunk(pol, m, s) == m
  {
  }

  /** A float scalar, whole or interrupted by the end of the chunk. */
  lemma {:induction false} FloatChunk(pol: Policy, m: Machine, s: Bytes)
    requires m.Live? && m.phase.Fp? && |m.phase.got| < m.phase.width
    ensures var k := m.phase.width - |m.phase.got|;
            Chunk(pol, m, s) ==
            if |s| < k then m.(phase := Fp(m.phase.id, m.phase.width, m.phase.got + s))
            else Chunk(pol, OnFloat(pol, m, Le(m.phase.got + s[..k])), s[k..])
    decreases |s|
  {
    hide Le, Tell, OnVarint, StepVarint, OnArrFloat, TakePiece;
    var Fp(id, width, got) := m.phase;
    if s == [] {
      assert got + s == got;
    } else if |got| + 1 < width {
      var n := m.(phase := Fp(id, width, got + [s[0]]));
      FloatChunk(pol, n, s[1..]);
      assert got + [s[0]] + s[1..] == got + s;
      var k := width - |got|;
      if |s| >= k {
        assert got + [s[0]] + s[1..][..k - 1] == got + s[..k];
        assert s[1..][k - 1..] == s[k..];
      }
    } else {
      assert s[..1] == [s[0]];
    }
  }

  /** `n` floats fewer to come, none of them begun. */
  function Skip(m: Machine, n: int): Machine
    requires m.Live? && m.phase.ArrFp?
  {
    m.(phase := ArrFp(m.phase.id, m.phase.width, m.phase.total, m.phase.remain - n, []))
  }

  lemma BytesForgotten(pol: Policy, m: Machine, bits: int)
    requires m.Live? && m.phase.ArrFp?
    ensures OnArrFloat(pol, m, bits) == OnArrFloat(pol, Skip(m, 0), bits)
  {
    hide Settle, Tell;
  }

  /** One float of an array, whole or interrupted by the end of the chunk. */
  lemma {:induction false} ArrFloatChunk(pol: Policy, m: Machine, s: Bytes)
    requires m.Live? && m.phase.ArrFp? && |m.phase.got| < m.phase.width
    ensures var k := m.phase.width - |m.phase.got|;
            Chunk(pol, m, s) ==
            if |s| < k then m.(phase := ArrFp(m.phase.id, m.phase.width, m.phase.total, m.phase.remain, m.phase.got + s))
            else Chunk(pol, OnArrFloat(pol, m, Le(m.phase.got + s[..k])), s[k..])
    decreases |s|
  {
    hide Le, OnArrFloat, OnVarint, StepVarint, OnFloat, TakePiece;
    var ArrFp(id, width, total, remain, got) := m.phase;
    if s == [] {
      assert got + s == got;
    } else if |got| + 1 < width {
      var n := m.(phase := ArrFp(id, width, total, remain, got + [s[0]]));
      ArrFloatChunk(pol, n, s[1..]);
      assert got + [s[0]] + s[1..] == got + s;
      var k := width - |got|;
      if |s| >= k {
        assert got + [s[0]] + s[1..][..k - 1] == got + s[..k];
        assert s[1..][k - 1..] == s[k..];
        BytesForgotten(pol, m, Le(got + s[..k]));
        BytesForgotten(pol, n, Le(got + s[..k]));
      }
    } else {
      assert s[..1] == [s[0]];
    }
  }

  /** A run of declined floats is a jump over their bytes. */
  lemma {:induction false} DeclinedFloats(pol: Policy, m: Machine, s: Bytes, n: nat)
    requires m.Live? && m.phase.ArrFp? && m.Cur() == Nil && m.phase.got == []
    requires 0 < m.phase.width && n <= m.phase.remain && n * m.phase.width <= |s| && 0 < m.phase.remain
    ensures Chunk(pol, m, s) == Chunk(pol, Settle(pol, Skip(m, n)), s[n * m.phase.width..])
    decreases n
  {
    hide Chunk, Le;
    var w := m.phase.width;
    if n == 0 {
      assert s[0..] == s;
    } else {
      assert n * w >= w;
      ArrFloatChunk(pol, m, s);
      var next := Skip(m, 1);
      assert OnArrFloat(pol, m, Le(m.phase.got + s[..w])) == Settle(pol, next);
      if n > 1 {
        assert (n - 1) * w == n * w - w;
        DeclinedFloats(pol, next, s[w..], n - 1);
        assert s[w..][(n - 1) * w..] == s[n * w..];
      }
    }
  }
}
