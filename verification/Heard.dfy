/** What a decode asks its visitors: every callback of a log was answered, every answer
    before the last let the decode go on, and visitors that give the same answers to the
    same histories get the same decode. */
module Heard {
  import opened Wire
  import opened Machine
  import opened FastPaths
  import opened Chunking
  import Completion

  /** The first `k` calls of the log of `n` were answered as `n` shows. */
  ghost predicate Answered(pol: Policy, n: Machine, k: nat)
    requires 0 < k <= |n.All()|
  {
    !n.All()[k - 1].ev.SetStringCheck? ==>
      pol.refuse(n.All()[..k]) == if k == |n.All()| && n.Failed? then Some(n.why) else None
  }

  predicate Small(c: Call) { c.ev.Piece? ==> |c.ev.chunk| <= 1 }

  /** What payload pieces a move may deliver: any, one byte at most, or none but empty ones. */
  datatype Size = Any | Byte | Whole {
    predicate Allows(c: Call) { !Any? ==> Small(c) && (Whole? ==> !Unfinished(c.ev)) }
  }

  /** `n` comes from a log `from` by calls alone: a failure is a refusal. No scope opens. */
  ghost predicate Called(pol: Policy, from: Log, n: Machine, size: Size) {
    && Asked(pol, from, n, size)
    && (n.Failed? ==> |from| < |n.All()|)
    && (forall i: nat :: |from| <= i < |n.All()| ==> !n.All()[i].ev.BeginSequence?)
  }

  /** `n` comes from a log `from` by calls, or by malformed bytes without one. A scope
      that opens is the last it hears. */
  ghost predicate Asked(pol: Policy, from: Log, n: Machine, size: Size) {
    && from <= n.All()
    && (forall k: nat :: |from| < k <= |n.All()| ==> Answered(pol, n, k))
    && (forall i: nat :: |from| <= i < |n.All()| ==> size.Allows(n.All()[i]))
    && (forall i: nat :: |from| <= i < |n.All()| && n.All()[i].ev.BeginSequence? ==>
          i + 1 == |n.All()| && (n.Live? ==> Entered(pol, n)))
    && (n.Failed? ==> if |from| < |n.All()| then !n.All()[|n.All()| - 1].ev.SetStringCheck? else n.why == InvalidMsg)
  }

  /** Just inside a scope the last callback opened. */
  ghost predicate Entered(pol: Policy, n: Machine)
    requires n.Live?
  {
    && n.phase.Header? && n.part == FRESH
    && var child := pol.child(n.log);
    && if child == Nil then n.declined == 1
       else n.declined == 0 && |n.open| >= 2 && n.told != [] && n.open[|n.open| - 1] == child
  }

  /** Closing the scope at once shows which visitor it was given. */
  lemma CloseTells(pol: Policy, n: Machine)
    requires n.Live? && Entered(pol, n)
    ensures Step(pol, n, 7).All() ==
            n.log + if pol.child(n.log) == Nil then [] else [Call(pol.child(n.log), EndSequence)]
  {
    assert StepVarint(FRESH, 7) == Done(7);
    hide StepVarint;
  }

  /** Two policies that answer a history alike. */
  ghost predicate AgreeAt(pol: Policy, alt: Policy, h: Log) {
    h != [] ==>
      var ev := h[|h| - 1].ev;
      && (!ev.SetStringCheck? ==> pol.refuse(h) == alt.refuse(h))
      && (ev.BeginSequence? && pol.refuse(h).None? ==> pol.child(h) == alt.child(h))
  }

  /** They answer alike from the `from`-th call of a log on. */
  ghost predicate AgreeOver(pol: Policy, alt: Policy, from: nat, log: Log) {
    && (forall v: Visitor :: pol.takesCheck(v) == alt.takesCheck(v))
    && forall k: nat :: from < k <= |log| ==> AgreeAt(pol, alt, log[..k])
  }

  lemma AgreeSplit(pol: Policy, alt: Policy, from: nat, mid: Log, log: Log)
    requires AgreeOver(pol, alt, from, log) && from <= |mid| && mid <= log
    ensures AgreeOver(pol, alt, from, mid) && AgreeOver(pol, alt, |mid|, log)
  {
    hide AgreeAt;
    forall k: nat | from < k <= |mid| ensures AgreeAt(pol, alt, mid[..k]) { assert mid[..k] == log[..k]; }
  }

  lemma CalledThen(pol: Policy, from: Log, p: Machine, n: Machine, size: Size)
    requires p.Live? && Called(pol, from, p, size) && Called(pol, p.log, n, size)
    ensures Called(pol, from, n, size)
  {
    forall k: nat | |from| < k <= |p.log| ensures Answered(pol, n, k) {
      assert p.log[..k] == n.All()[..k];
      assert Answered(pol, p, k);
    }
    forall i: nat | |from| <= i < |n.All()| ensures size.Allows(n.All()[i]) {}
  }

  /* ----- callback by callback ----- */

  lemma CallOnAsks(pol: Policy, alt: Policy, m: Machine, v: Visitor, ev: Event, size: Size)
    requires m.Live? && !ev.SetStringCheck? && !ev.BeginSequence? && size.Allows(Call(v, ev))
    ensures var n := CallOn(pol, m, v, ev);
      && Called(pol, m.log, n, size) && n.All() == m.log + [Call(v, ev)]
      && (AgreeOver(pol, alt, |m.log|, n.All()) ==> CallOn(alt, m, v, ev) == n)
  {
    var n := CallOn(pol, m, v, ev);
    assert n.All()[..|m.log| + 1] == n.All();
    if AgreeOver(pol, alt, |m.log|, n.All()) { assert AgreeAt(pol, alt, n.All()[..|m.log| + 1]); }
  }

  lemma TellAsks(pol: Policy, alt: Policy, m: Machine, ev: Event, size: Size)
    requires m.Live? && !ev.SetStringCheck? && !ev.BeginSequence? && size.Allows(Call(m.Cur(), ev))
    ensures var n := Tell(pol, m, ev);
      && Called(pol, m.log, n, size)
      && (AgreeOver(pol, alt, |m.log|, n.All()) ==> Tell(alt, m, ev) == n)
  {
    if m.Cur() != Nil { CallOnAsks(pol, alt, m, m.Cur(), ev, size); }
  }

  lemma PolicyAsks(pol: Policy, alt: Policy, m: Machine, sub: Subtype)
    requires m.Live?
    ensures var n := TellPolicy(pol, m, sub);
      && Called(pol, m.log, n, Whole)
      && (AgreeOver(pol, alt, |m.log|, n.All()) ==> TellPolicy(alt, m, sub) == n)
  {
  }

  lemma SettleAsks(pol: Policy, alt: Policy, m: Machine)
    requires m.Live?
    ensures var n := Settle(pol, m);
      && Called(pol, m.log, n, Whole)
      && (AgreeOver(pol, alt, |m.log|, n.All()) ==> Settle(alt, m) == n)
  {
    hide Tell, Called, AgreeOver;
    CalledNothing(pol, m);
    if m.phase.Elems? || m.phase.ArrFp? { TellAsks(pol, alt, m.(phase := Header), ArrayEnd(m.phase.id), Whole); }
  }

  lemma CalledNothing(pol: Policy, m: Machine)
    requires m.Live?
    ensures Called(pol, m.log, m, Whole)
  {
  }

  /** A callback and then what settles it. */
  lemma TellSettleAsks(pol: Policy, alt: Policy, m: Machine, ev: Event)
    requires m.Live? && !ev.SetStringCheck? && !ev.BeginSequence? && !ev.Piece?
    ensures var n := Settle(pol, Tell(pol, m, ev));
      && Called(pol, m.log, n, Whole)
      && (AgreeOver(pol, alt, |m.log|, n.All()) ==> Settle(alt, Tell(alt, m, ev)) == n)
  {
    hide Tell, AgreeOver, Answered;
    var p := Tell(pol, m, ev);
    TellAsks(pol, alt, m, ev, Whole);
    if p.Live? {
      SettleAsks(pol, alt, p);
      var n := Settle(pol, p);
      CalledThen(pol, m.log, p, n, Whole);
      if AgreeOver(pol, alt, |m.log|, n.All()) { AgreeSplit(pol, alt, |m.log|, p.log, n.All()); }
    }
  }

  lemma FixlenAsks(pol: Policy, alt: Policy, m: Machine, id: int, sub: Subtype, k: int)
    requires m.Live?
    ensures var n := AnnounceFixlen(pol, m, id, sub, k);
      && Called(pol, m.log, n, Whole)
      && (AgreeOver(pol, alt, |m.log|, n.All()) ==> AnnounceFixlen(alt, m, id, sub, k) == n)
  {
    hide Tell, TellPolicy, AgreeOver, Answered;
    var p := TellPolicy(pol, m, sub);
    PolicyAsks(pol, alt, m, sub);
    var q := Tell(pol, p, FixlenBegin(id, sub, k));
    TellAsks(pol, alt, p, FixlenBegin(id, sub, k), Whole);
    CalledThen(pol, m.log, p, q, Whole);
    var n := AnnounceFixlen(pol, m, id, sub, k);
    if q.Live? && k == 0 {
      TellAsks(pol, alt, q, Piece(id, sub, 0, 0, []), Whole);
      CalledThen(pol, m.log, q, n, Whole);
    }
    if AgreeOver(pol, alt, |m.log|, n.All()) {
      AgreeSplit(pol, alt, |m.log|, q.All(), n.All());
      AgreeSplit(pol, alt, |m.log|, p.log, q.All());
    }
  }

  lemma OpenedAsks(pol: Policy, alt: Policy, m: Machine, id: int)
    requires m.Live? && m.phase.Header? && m.part == FRESH
    ensures var n := Opened(pol, m, id);
      && Asked(pol, m.log, n, Whole)
      && (AgreeOver(pol, alt, |m.log|, n.All()) ==> Opened(alt, m, id) == n)
  {
    if m.Depth() < MAX_DEPTH && m.Cur() != Nil {
      var log := m.log + [Call(m.Cur(), BeginSequence(id))];
      assert log[..|m.log| + 1] == log;
      if AgreeOver(pol, alt, |m.log|, log) { assert AgreeAt(pol, alt, log[..|m.log| + 1]); }
    }
  }

  lemma ClosedAsks(pol: Policy, alt: Policy, m: Machine)
    requires m.Live?
    ensures var n := Closed(pol, m);
      && Asked(pol, m.log, n, Whole)
      && (AgreeOver(pol, alt, |m.log|, n.All()) ==> Closed(alt, m) == n)
  {
    if !(m.Depth() <= 0 || m.told == []) && m.declined == 0 {
      var p := m.(open := m.open[..|m.open| - 1], told := m.told[..|m.told| - 1]);
      CallOnAsks(pol, alt, p, m.open[|m.open| - 1], EndSequence, Whole);
    }
  }

  lemma AskedNothing(pol: Policy, m: Machine, n: Machine)
    requires m.Live? && n.All() == m.log && (n.Failed? ==> n.why == InvalidMsg)
    ensures Asked(pol, m.log, n, Whole)
  {
  }

  lemma VarintAsks(pol: Policy, alt: Policy, m: Machine, v: U64)
    requires m.Live? && m.phase.ReadsVarint() && m.part == FRESH
    ensures var n := OnVarint(pol, m, v);
      && Asked(pol, m.log, n, Whole)
      && (AgreeOver(pol, alt, |m.log|, n.All()) ==> OnVarint(alt, m, v) == n)
  {
    hide Asked, AgreeOver, Tell, Settle, AnnounceFixlen, Opened, Closed;
    AskedNothing(pol, m, Rejected(m, InvalidMsg));
    forall phase: Phase ensures Asked(pol, m.log, m.(phase := phase), Whole) { AskedNothing(pol, m, m.(phase := phase)); }
    match m.phase
    case Header =>
      OpenedAsks(pol, alt, m, v / 8);
      ClosedAsks(pol, alt, m);
    case ScalarU(id) => TellAsks(pol, alt, m.(phase := Header), Unsigned(id, v), Whole);
    case ScalarS(id) => TellAsks(pol, alt, m.(phase := Header), Signed(id, Unzigzag(v)), Whole);
    case FixWord(id) =>
      var phase := WordPhase(id, v);
      if phase.Some? { FixlenAsks(pol, alt, m.(phase := phase.value), id, SubtypeOf(v % 8), v / 8); }
    case Count(id, wire) =>
      var signed := wire != T_ARRAY_UNSIGNED;
      TellSettleAsks(pol, alt, m.(phase := Elems(id, signed, v, v)), ArrayBegin(id, if signed then KSigned else KUnsigned, v));
    case Elems(id, signed, total, remain) =>
      TellSettleAsks(pol, alt, m.(phase := Elems(id, signed, total, remain - 1)),
                     if signed then ArraySigned(id, total - remain, Unzigzag(v)) else ArrayUnsigned(id, total - remain, v));
    case ArrWord(id, total) =>
      TellSettleAsks(pol, alt, m.(phase := ArrFp(id, 4, total, total, [])), ArrayBegin(id, KFp32, total));
      TellSettleAsks(pol, alt, m.(phase := ArrFp(id, 8, total, total, [])), ArrayBegin(id, KFp64, total));
  }

  /* ----- bytes and chunks ----- */

  lemma PieceAsks(pol: Policy, alt: Policy, m: Machine, piece: Bytes)
    requires m.Live? && m.phase.Payload?
    ensures var n := TakePiece(pol, m, piece);
      && Called(pol, m.log, n, if |piece| > 1 then Any else Byte)
      && (AgreeOver(pol, alt, |m.log|, n.All()) ==> TakePiece(alt, m, piece) == n)
  {
    hide Called, AgreeOver, Tell;
    var Payload(id, sub, total, off) := m.phase;
    var k := off + |piece|;
    TellAsks(pol, alt, m.(phase := if k == total then Header else Payload(id, sub, total, k)),
             Piece(id, sub, total, off, piece), if |piece| > 1 then Any else Byte);
  }

  lemma StepAsks(pol: Policy, alt: Policy, m: Machine, b: Byte)
    requires m.Live?
    ensures var n := Step(pol, m, b);
      && Asked(pol, m.log, n, if m.phase.Payload? then Byte else Whole)
      && (AgreeOver(pol, alt, |m.log|, n.All()) ==> Step(alt, m, b) == n)
  {
    hide Asked, AgreeOver, Tell, Settle, OnVarint, TakePiece, StepVarint, Le;
    AskedNothing(pol, m, m);
    AskedNothing(pol, m, Rejected(m, InvalidMsg));
    if m.phase.Fp? {
      var Fp(id, width, got) := m.phase;
      AskedNothing(pol, m, m.(phase := Fp(id, width, got + [b])));
      TellAsks(pol, alt, m.(phase := Header), Float(id, width, Le(got + [b])), Whole);
    } else if m.phase.ArrFp? {
      var ArrFp(id, width, total, remain, got) := m.phase;
      AskedNothing(pol, m, m.(phase := ArrFp(id, width, total, remain, got + [b])));
      TellSettleAsks(pol, alt, m.(phase := ArrFp(id, width, total, remain - 1, [])),
                     ArrayFloat(id, total - remain, width, Le(got + [b])));
    } else if m.phase.Payload? {
      PieceAsks(pol, alt, m, [b]);
    } else {
      match StepVarint(m.part, b)
      case More(q) => AskedNothing(pol, m, m.(part := q));
      case Overflow =>
      case Done(v) => if 0 <= v < TWO_64 { VarintAsks(pol, alt, m.(part := FRESH), v); }
    }
  }

  /** `n` comes from a log `from` by a decode: every answer but the one that ended it let
      it go on. */
  ghost predicate Went(pol: Policy, from: Log, n: Machine) {
    && from <= n.All()
    && (forall k: nat :: |from| < k <= |n.All()| && (k < |n.All()| || n.Live?) ==> Answered(pol, n, k))
  }

  lemma WentThen(pol: Policy, from: Log, p: Machine, n: Machine)
    requires p.Live? && Went(pol, from, p) && Went(pol, p.log, n)
    ensures Went(pol, from, n)
  {
    forall k: nat | |from| < k <= |p.log| && (k < |n.All()| || n.Live?) ensures Answered(pol, n, k) {
      assert p.log[..k] == n.All()[..k];
      assert Answered(pol, p, k);
    }
  }

  lemma AskedWent(pol: Policy, from: Log, n: Machine, size: Size)
    requires Asked(pol, from, n, size)
    ensures Went(pol, from, n)
  {
  }

  /** One move of a chunk and then the rest of it. */
  lemma MoveAsks(pol: Policy, alt: Policy, m: Machine, p: Machine, n: Machine, size: Size)
    requires m.Live? && Asked(pol, m.log, p, size) && Went(pol, p.All(), n) && (p.Failed? ==> n == p)
    ensures Went(pol, m.log, n)
    ensures AgreeOver(pol, alt, |m.log|, n.All()) ==>
              AgreeOver(pol, alt, |m.log|, p.All()) && AgreeOver(pol, alt, |p.All()|, n.All())
  {
    hide Asked, Answered, AgreeOver;
    AskedWent(pol, m.log, p, size);
    if p.Live? { WentThen(pol, m.log, p, n); }
    assert m.log <= p.All() by { AskedExtends(pol, m.log, p, size); }
    if AgreeOver(pol, alt, |m.log|, n.All()) { AgreeSplit(pol, alt, |m.log|, p.All(), n.All()); }
  }

  lemma AskedExtends(pol: Policy, from: Log, n: Machine, size: Size)
    requires Asked(pol, from, n, size)
    ensures from <= n.All()
  {
  }

  lemma {:induction false} ChunkAsks(pol: Policy, alt: Policy, m: Machine, c: Bytes)
    ensures var n := Chunk(pol, m, c);
      && Went(pol, m.All(), n)
      && (AgreeOver(pol, alt, |m.All()|, n.All()) ==> Chunk(alt, m, c) == n)
    decreases |c|
  {
    hide Step, TakePiece, AgreeOver, Answered, Asked;
    if m.Failed? {
      ChunkFailed(pol, m, c);
      ChunkFailed(alt, m, c);
    } else if c != [] {
      if m.phase.Payload? && m.phase.off < m.phase.total {
        var k := if m.phase.total - m.phase.off < |c| then m.phase.total - m.phase.off else |c|;
        var p := TakePiece(pol, m, c[..k]);
        PieceAsks(pol, alt, m, c[..k]);
        ChunkAsks(pol, alt, p, c[k..]);
        if p.Failed? { ChunkFailed(pol, p, c[k..]); }
        MoveAsks(pol, alt, m, p, Chunk(pol, p, c[k..]), if |c[..k]| > 1 then Any else Byte);
      } else {
        var p := Step(pol, m, c[0]);
        StepAsks(pol, alt, m, c[0]);
        ChunkAsks(pol, alt, p, c[1..]);
        if p.Failed? { ChunkFailed(pol, p, c[1..]); }
        MoveAsks(pol, alt, m, p, Chunk(pol, p, c[1..]), if m.phase.Payload? then Byte else Whole);
      }
    }
  }

  lemma {:induction false} FeedsAsk(pol: Policy, alt: Policy, m: Machine, cs: seq<Bytes>)
    ensures var n := Feeds(pol, m, cs);
      && Went(pol, m.All(), n)
      && (AgreeOver(pol, alt, |m.All()|, n.All()) ==> Feeds(alt, m, cs) == n)
    decreases |cs|
  {
    hide Chunk, AgreeOver, Answered;
    if m.Live? && cs != [] {
      var p := Chunk(pol, m, cs[0]);
      ChunkAsks(pol, alt, m, cs[0]);
      FeedsAsk(pol, alt, p, cs[1..]);
      var n := Feeds(pol, p, cs[1..]);
      if p.Live? { WentThen(pol, m.log, p, n); } else { Completion.InvalidIsTerminal(pol, p, cs[1..]); }
      if AgreeOver(pol, alt, |m.log|, n.All()) { AgreeSplit(pol, alt, |m.log|, p.All(), n.All()); }
    } else {
      if m.Failed? {
        Completion.InvalidIsTerminal(pol, m, cs);
        Completion.InvalidIsTerminal(alt, m, cs);
      }
    }
  }

  /* ----- why a decode failed ----- */

  /** The error the last callback of a log returned; announcing a string policy returns none. */
  function Refusal(pol: Policy, log: Log): Option<Error> {
    if log == [] || log[|log| - 1].ev.SetStringCheck? then None else pol.refuse(log)
  }

  /** A decode that goes on was refused nothing; one that ended has the error its last
      callback returned, or that of malformed bytes when the last callback returned none. */
  ghost predicate Fair(pol: Policy, n: Machine) {
    match Refusal(pol, n.All())
    case Some(e) => n.Failed? && n.why == e
    case None => n.Failed? ==> n.why == InvalidMsg
  }

  lemma AskedFair(pol: Policy, m: Machine, n: Machine, size: Size)
    requires m.Live? && Fair(pol, m) && Asked(pol, m.log, n, size)
    ensures Fair(pol, n)
  {
    if |m.log| < |n.All()| {
      assert n.All()[..|n.All()|] == n.All();
      assert Answered(pol, n, |n.All()|);
    } else {
      assert n.All() == m.log;
    }
  }

  lemma {:induction false} ChunkFair(pol: Policy, m: Machine, c: Bytes)
    requires Fair(pol, m)
    ensures Fair(pol, Chunk(pol, m, c))
    decreases |c|
  {
    hide Step, TakePiece, Asked, Fair;
    if m.Live? && c != [] {
      if m.phase.Payload? && m.phase.off < m.phase.total {
        var k := if m.phase.total - m.phase.off < |c| then m.phase.total - m.phase.off else |c|;
        PieceAsks(pol, pol, m, c[..k]);
        AskedFair(pol, m, TakePiece(pol, m, c[..k]), if |c[..k]| > 1 then Any else Byte);
        ChunkFair(pol, TakePiece(pol, m, c[..k]), c[k..]);
      } else {
        StepAsks(pol, pol, m, c[0]);
        AskedFair(pol, m, Step(pol, m, c[0]), if m.phase.Payload? then Byte else Whole);
        ChunkFair(pol, Step(pol, m, c[0]), c[1..]);
      }
    }
  }

  lemma {:induction false} FeedsFair(pol: Policy, m: Machine, cs: seq<Bytes>)
    requires Fair(pol, m)
    ensures Fair(pol, Feeds(pol, m, cs))
    decreases |cs|
  {
    hide Fair, Chunk;
    if cs != [] {
      ChunkFair(pol, m, cs[0]);
      FeedsFair(pol, Chunk(pol, m, cs[0]), cs[1..]);
    }
  }

  /** A visitor's error ends the decode at once and is the decode's error, unaltered;
      every other failure is the error of malformed bytes. */
  lemma ErrorIsTheRefusal(pol: Policy, root: Visitor, cs: seq<Bytes>)
    ensures var n := Feeds(pol, Initial(root), cs);
      && (n.Live? ==> Refusal(pol, n.log).None?)
      && (n.Failed? ==> n.why == if Refusal(pol, n.heard).Some? then Refusal(pol, n.heard).value else InvalidMsg)
  {
    hide Feeds;
    FeedsFair(pol, Initial(root), cs);
  }
}
