/** Whether a decode can tell how its bytes were cut: exactly when some visitor does. */
module Patience {
  import opened Wire
  import opened Machine
  import opened FastPaths
  import opened Chunking
  import opened Heard

  /** On every history a decode from `m` brings about, the visitors answer as they would
      had the bytes come one by one, and refuse no payload that is not complete. */
  ghost predicate Patient(pol: Policy, m: Machine) {
    forall cs: seq<Bytes>, k: nat :: |m.All()| < k <= |Feeds(pol, m, cs).All()| ==>
      CutBlindAt(pol, Feeds(pol, m, cs).All()[..k])
  }

  /** The same visitors, told every history as its bytes would have told it. */
  function Blinded(pol: Policy): Policy {
    Policy((h: Log) => if h != [] && Unfinished(h[|h| - 1].ev) then None else pol.refuse(Explode(h)),
           (h: Log) => pol.child(Explode(h)), pol.takesCheck)
  }

  lemma ExplodeNothing()
    ensures Explode([]) == []
  {
  }

  lemma {:induction false} ExplodeConcat(a: Log, b: Log)
    ensures Explode(a + b) == Explode(a) + Explode(b)
    decreases |b|
  {
    hide ExplodeCall, Explode;
    ExplodeNothing();
    if b == [] {
      assert a + b == a;
    } else {
      var init, c := b[..|b| - 1], b[|b| - 1];
      ExplodeConcat(a, init);
      ExplodeAppend(a + init, c);
      ExplodeAppend(init, c);
      assert a + b == (a + init) + [c] && b == init + [c];
    }
  }

  lemma {:induction false} ExplodeSmall(log: Log)
    requires forall i: nat :: i < |log| ==> Small(log[i])
    ensures Explode(log) == log
    decreases |log|
  {
    hide Explode;
    ExplodeNothing();
    if log != [] {
      var init, c := log[..|log| - 1], log[|log| - 1];
      ExplodeSmall(init);
      ExplodeAppend(init, c);
      assert log == init + [c] && Small(c);
    }
  }

  lemma {:induction false} SinglesAreSmall(on: Visitor, id: int, sub: Subtype, total: int, off: nat, chunk: Bytes)
    ensures var s := Singles(on, id, sub, total, off, chunk);
      && |s| == |chunk|
      && (forall i: nat :: i < |s| ==> s[i] == Call(on, Piece(id, sub, total, off + i, [chunk[i]])))
    decreases |chunk|
  {
    if chunk != [] { SinglesAreSmall(on, id, sub, total, off + 1, chunk[1..]); }
  }

  lemma ExplodedCall(c: Call)
    ensures var s := ExplodeCall(c);
      && s != [] && Explode(s) == s
      && Unfinished(s[|s| - 1].ev) == Unfinished(c.ev)
      && (Small(c) ==> s == [c])
      && (c.ev.Piece? ==> |s| == if c.ev.chunk == [] then 1 else |c.ev.chunk|)
      && s[|s| - 1].ev.SetStringCheck? == c.ev.SetStringCheck? && s[|s| - 1].ev.BeginSequence? == c.ev.BeginSequence?
  {
    if c.ev.Piece? { SinglesAreSmall(c.on, c.ev.id, c.ev.sub, c.ev.total, c.ev.off, c.ev.chunk); }
    ExplodeSmall(ExplodeCall(c));
  }

  lemma {:induction false} ExplodeTwice(log: Log)
    ensures Explode(Explode(log)) == Explode(log)
    decreases |log|
  {
    hide ExplodeCall;
    if log != [] {
      ExplodeTwice(log[..|log| - 1]);
      ExplodedCall(log[|log| - 1]);
      ExplodeConcat(Explode(log[..|log| - 1]), ExplodeCall(log[|log| - 1]));
    }
  }

  lemma BlindedIsBlind(pol: Policy)
    ensures CutBlind(Blinded(pol))
  {
    hide ExplodeCall, Unfinished;
    forall h: Log ensures CutBlindAt(Blinded(pol), h) {
      ExplodeTwice(h);
      if h != [] { ExplodedCall(h[|h| - 1]); }
    }
  }

  lemma BlindIsPatient(pol: Policy, m: Machine)
    requires CutBlind(pol)
    ensures Patient(pol, m)
  {
    hide CutBlindAt;
  }

  lemma BlindedAgrees(pol: Policy, m: Machine, cs: seq<Bytes>)
    requires Patient(pol, m)
    ensures Feeds(Blinded(pol), m, cs) == Feeds(pol, m, cs)
  {
    hide Feeds, Explode, Unfinished;
    var log := Feeds(pol, m, cs).All();
    forall k: nat | |m.All()| < k <= |log| ensures AgreeAt(pol, Blinded(pol), log[..k]) {
      assert CutBlindAt(pol, log[..k]);
    }
    FeedsAsk(pol, Blinded(pol), m, cs);
  }

  /** What a caller and the visitors can tell of two decodes. */
  ghost predicate Alike(a: Machine, b: Machine) {
    Join(a.All()) == Join(b.All()) && OutcomeOf(a) == OutcomeOf(b) && (a.Failed? && b.Failed? ==> a.why == b.why)
  }

  /** Two cuttings of the same bytes, from any state: the same joined callbacks, the
      same outcome, the same error, and decoders no further byte can tell apart. */
  lemma ChunkInvariance(pol: Policy, m: Machine, cs: seq<Bytes>, ds: seq<Bytes>)
    requires Patient(pol, m) && Flatten(cs) == Flatten(ds)
    ensures Normal(Feeds(pol, m, cs)) == Normal(Feeds(pol, m, ds)) && Alike(Feeds(pol, m, cs), Feeds(pol, m, ds))
  {
    BlindedIsBlind(pol);
    hide Patient, CutBlind, Explode, Join, Feeds, Blinded;
    var a, b := Feeds(pol, m, cs), Feeds(pol, m, ds);
    BlindedAgrees(pol, m, cs);
    BlindedAgrees(pol, m, ds);
    BlindInvariance(Blinded(pol), m, cs, ds);
    JoinExplode(a.All());
    JoinExplode(b.All());
  }

  /* ----- and only for patient visitors ----- */

  function Decode(pol: Policy, root: Visitor, cs: seq<Bytes>): Machine { Feeds(pol, Initial(root), cs) }

  /** No two cuttings of any bytes can be told apart. */
  ghost predicate Invariant(pol: Policy, root: Visitor) {
    forall cs: seq<Bytes>, ds: seq<Bytes> :: Flatten(cs) == Flatten(ds) ==> Alike(Decode(pol, root, cs), Decode(pol, root, ds))
  }

  lemma {:induction false} ExplodeJoin(log: Log)
    ensures Explode(Join(log)) == Explode(log)
    decreases |log|
  {
    hide ExplodeCall, JoinCall;
    if log != [] {
      var init, c := log[..|log| - 1], log[|log| - 1];
      ExplodeJoin(init);
      ExplodeJoinCall(Join(init), c);
    }
  }

  lemma ExplodeJoinCall(j: Log, c: Call)
    ensures Explode(JoinCall(j, c)) == Explode(j) + ExplodeCall(c)
  {
    hide Explode, ExplodeCall, Singles;
    ExplodeAppend(j, c);
    if Continues(j, c) {
      var init, last := j[..|j| - 1], j[|j| - 1];
      var merged := Call(c.on, last.ev.(chunk := last.ev.chunk + c.ev.chunk));
      assert j == init + [last];
      ExplodeAppend(init, last);
      ExplodeAppend(init, merged);
      ExplodePiece(c.on, c.ev.id, c.ev.sub, c.ev.total, last.ev.off, last.ev.chunk);
      ExplodePiece(c.on, c.ev.id, c.ev.sub, c.ev.total, c.ev.off, c.ev.chunk);
      ExplodePiece(c.on, c.ev.id, c.ev.sub, c.ev.total, last.ev.off, last.ev.chunk + c.ev.chunk);
      SinglesConcat(c.on, c.ev.id, c.ev.sub, c.ev.total, last.ev.off, last.ev.chunk, c.ev.chunk);
    }
  }

  /** Bytes, one to a chunk. */
  function Cut(s: Bytes): (cs: seq<Bytes>)
    ensures |cs| == |s| && forall i :: 0 <= i < |s| ==> cs[i] == [s[i]]
  {
    seq(|s|, i requires 0 <= i < |s| => [s[i]])
  }

  lemma ChunkOne(pol: Policy, m: Machine, b: Byte)
    ensures Chunk(pol, m, [b]) == Step(pol, m, b)
  {
    hide StepVarint, OnVarint, OnFloat, OnArrFloat, Tell;
    assert [b][..1] == [b] && [b][1..] == [];
  }

  /** A byte-wise decode hears nothing but small pieces. */
  lemma {:induction false} CutIsSmall(pol: Policy, root: Visitor, s: Bytes)
    ensures Flatten(Cut(s)) == s
    ensures Explode(Decode(pol, root, Cut(s)).All()) == Decode(pol, root, Cut(s)).All()
    decreases |s|
  {
    hide Step, Explode;
    if s == [] {
      ExplodeNothing();
      assert Cut(s) == [];
    } else {
      var init, b := s[..|s| - 1], s[|s| - 1];
      CutIsSmall(pol, root, init);
      var m := Decode(pol, root, Cut(init));
      assert Cut(s) == Cut(init) + [[b]];
      FeedsMore(pol, Initial(root), Cut(init), [b]);
      ChunkOne(pol, m, b);
      if m.Live? {
        StepAsks(pol, pol, m, b);
        StepExplodes(pol, m, Step(pol, m, b), Bytewise(m));
      } else {
        ChunkFailed(pol, m, [b]);
      }
    }
  }

  /** What one byte may deliver. */
  function Bytewise(m: Machine): Size {
    if m.Live? && m.phase.Payload? then Byte else Whole
  }

  lemma StepExplodes(pol: Policy, m: Machine, n: Machine, size: Size)
    requires m.Live? && Asked(pol, m.log, n, size) && !size.Any?
    ensures m.log <= n.All() && Explode(n.All()) == Explode(m.log) + n.All()[|m.log|..]
  {
    hide Asked, Explode, Small, ExplodeCall;
    AddedIsSmall(pol, m, n, size);
    var added := n.All()[|m.log|..];
    assert n.All() == m.log + added;
    ExplodeConcat(m.log, added);
    ExplodeSmall(added);
  }

  lemma AddedIsSmall(pol: Policy, m: Machine, n: Machine, size: Size)
    requires m.Live? && Asked(pol, m.log, n, size) && !size.Any?
    ensures m.log <= n.All() && forall i: nat :: |m.log| <= i < |n.All()| ==> Small(n.All()[i])
  {
    hide Answered, Entered, Small;
    forall i: nat | |m.log| <= i < |n.All()| ensures Small(n.All()[i]) {
      assert size.Allows(n.All()[i]);
    }
  }

  /** Where cutting cannot be told, any decode has heard what its bytes one by one tell. */
  lemma ByBytes(pol: Policy, root: Visitor, cs: seq<Bytes>)
    requires Invariant(pol, root)
    ensures var a, b := Decode(pol, root, cs), Decode(pol, root, Cut(Flatten(cs)));
      && Explode(a.All()) == b.All() && a.Failed? == b.Failed? && (a.Failed? ==> a.why == b.why)
  {
    hide Decode, Explode, Join, Flatten, Cut;
    CutIsSmall(pol, root, Flatten(cs));
    var a, b := Decode(pol, root, cs), Decode(pol, root, Cut(Flatten(cs)));
    assert Alike(a, b);
    ExplodeJoin(a.All());
    ExplodeJoin(b.All());
  }

  /** A decode of some bytes, and one of them and another byte. */
  lemma OneMoreByte(pol: Policy, root: Visitor, cs: seq<Bytes>, b: Byte)
    ensures Decode(pol, root, cs + [[b]]) == Step(pol, Decode(pol, root, cs), b)
    ensures Flatten(cs + [[b]]) == Flatten(cs) + [b]
    ensures Cut(Flatten(cs) + [b]) == Cut(Flatten(cs)) + [[b]]
    ensures Decode(pol, root, Cut(Flatten(cs) + [b])) == Step(pol, Decode(pol, root, Cut(Flatten(cs))), b)
  {
    hide Step, Feeds, Flatten;
    FeedsMore(pol, Initial(root), cs, [b]);
    FeedsMore(pol, Initial(root), Cut(Flatten(cs)), [b]);
    ChunkOne(pol, Decode(pol, root, cs), b);
    ChunkOne(pol, Decode(pol, root, Cut(Flatten(cs))), b);
    assert Cut(Flatten(cs) + [b]) == Cut(Flatten(cs)) + [[b]];
  }

  /** Two logs that one byte extended alike: their histories correspond call by call. */
  lemma SameAnswer(pol: Policy, m: Machine, n: Machine, bm: Machine, bn: Machine, size: Size, bsize: Size, k: nat)
    requires m.Live? && bm.Live? && Explode(m.log) == bm.log
    requires Asked(pol, m.log, n, size) && !size.Any? && Asked(pol, bm.log, bn, bsize)
    requires Explode(n.All()) == bn.All() && n.Failed? == bn.Failed? && (n.Failed? ==> n.why == bn.why)
    requires |m.log| < k <= |n.All()|
    ensures var h := n.All()[..k];
      && (k == |n.All()| ==> Explode(h) == bn.All())
      && (!h[k - 1].ev.SetStringCheck? ==> pol.refuse(h) == pol.refuse(Explode(h)))
  {
    hide Explode, Entered;
    StepExplodes(pol, m, n, size);
    var added, j := n.All()[|m.log|..], k - |m.log|;
    var h := n.All()[..k];
    assert h == m.log + added[..j];
    ExplodeConcat(m.log, added[..j]);
    ExplodeSmall(added[..j]);
    assert added[..|added|] == added;
    assert bn.All() == bm.log + added;
    assert bn.All()[..|bm.log| + j] == bm.log + added[..j];
    assert Answered(pol, n, k);
    assert Answered(pol, bn, |bm.log| + j);
    assert bn.All()[|bm.log| + j - 1] == added[j - 1] == h[k - 1];
  }

  /** A byte fed to a decode asks the visitors nothing they answer by the cuts. */
  lemma ByteIsPatient(pol: Policy, root: Visitor, cs: seq<Bytes>, b: Byte, k: nat)
    requires Invariant(pol, root) && Decode(pol, root, cs).Live?
    requires |Decode(pol, root, cs).log| < k <= |Decode(pol, root, cs + [[b]]).All()|
    requires !Unfinished(Decode(pol, root, cs + [[b]]).All()[k - 1].ev)
    ensures CutBlindAt(pol, Decode(pol, root, cs + [[b]]).All()[..k])
  {
    hide Decode, Explode, Flatten, Cut, Step, Invariant;
    var m, bm := Decode(pol, root, cs), Decode(pol, root, Cut(Flatten(cs)));
    var n, bn := Step(pol, m, b), Step(pol, bm, b);
    OneMoreByte(pol, root, cs, b);
    ByBytes(pol, root, cs);
    ByBytes(pol, root, cs + [[b]]);
    StepAsks(pol, pol, m, b);
    StepAsks(pol, pol, bm, b);
    SameAnswer(pol, m, n, bm, bn, Bytewise(m), Bytewise(bm), k);
    var h := n.All()[..k];
    assert h[k - 1] == n.All()[k - 1];
    if h[k - 1].ev.BeginSequence? && pol.refuse(h).None? {
      assert k == |n.All()| && h == n.All();
      OpeningIsPatient(pol, root, cs, b);
    }
  }

  /** The child of a scope just opened: the byte that closes the scope shows it. */
  lemma OpeningIsPatient(pol: Policy, root: Visitor, cs: seq<Bytes>, b: Byte)
    requires Invariant(pol, root) && Decode(pol, root, cs).Live?
    requires var m, n := Decode(pol, root, cs), Decode(pol, root, cs + [[b]]);
      |m.log| < |n.All()| && n.All()[|n.All()| - 1].ev.BeginSequence? && pol.refuse(n.All()).None?
    ensures var n := Decode(pol, root, cs + [[b]]); pol.child(n.All()) == pol.child(Explode(n.All()))
  {
    hide Decode, Explode, Flatten, Cut, Step, Invariant;
    var m, bm := Decode(pol, root, cs), Decode(pol, root, Cut(Flatten(cs)));
    var n, bn := Step(pol, m, b), Step(pol, bm, b);
    OneMoreByte(pol, root, cs, b);
    OneMoreByte(pol, root, cs + [[b]], 7);
    ByBytes(pol, root, cs);
    ByBytes(pol, root, cs + [[b]]);
    ByBytes(pol, root, cs + [[b]] + [[7]]);
    StepAsks(pol, pol, m, b);
    StepAsks(pol, pol, bm, b);
    var k := |n.All()|;
    assert n.All()[..k] == n.All();
    assert Answered(pol, n, k);
    SameAnswer(pol, m, n, bm, bn, Bytewise(m), Bytewise(bm), k);
    StepExplodes(pol, m, n, Bytewise(m));
    assert bn.All()[|bn.All()| - 1] == n.All()[k - 1];
    CloseTells(pol, n);
    CloseTells(pol, bn);
    var child, bchild := pol.child(n.log), pol.child(bn.log);
    var last, blast := Call(child, EndSequence), Call(bchild, EndSequence);
    ExplodeAppend(n.log, last);
    assert n.log + [] == n.log && bn.log + [] == bn.log;
    if child != Nil { assert (bn.log + [last])[|bn.log|] == last; }
    if bchild != Nil { assert (bn.log + [blast])[|bn.log|] == blast; }
  }

  /** A delivered payload with bytes to come, and the call a piece of it makes. */
  ghost predicate Paying(m: Machine, a: Bytes) {
    m.Live? && m.phase.Payload? && m.Cur() != Nil && a != [] && m.phase.off + |a| <= m.phase.total
  }

  function PieceCall(m: Machine, a: Bytes): Call
    requires m.Live? && m.phase.Payload?
  {
    Call(m.Cur(), Piece(m.phase.id, m.phase.sub, m.phase.total, m.phase.off, a))
  }

  lemma PieceDecodes(pol: Policy, root: Visitor, cs: seq<Bytes>, a: Bytes)
    requires Paying(Decode(pol, root, cs), a)
    ensures var m, n := Decode(pol, root, cs), Decode(pol, root, cs + [a]);
      && n == TakePiece(pol, m, a) && Flatten(cs + [a]) == Flatten(cs) + a
      && n.All() == m.log + [PieceCall(m, a)]
      && (n.Failed? <==> pol.refuse(n.All()).Some?) && (n.Failed? ==> pol.refuse(n.All()) == Some(n.why))
      && |Explode(n.All())| == |Explode(m.log)| + |a|
  {
    hide Feeds, Flatten, Explode;
    var m := Decode(pol, root, cs);
    FeedsMore(pol, Initial(root), cs, a);
    ChunkPiece(pol, m, a);
    ExplodeAppend(m.log, PieceCall(m, a));
    ExplodedCall(PieceCall(m, a));
  }

  /** A visitor that refuses an unfinished piece can be caught: with one more byte in the
      same piece, it has heard more. */
  lemma UnfinishedIsAccepted(pol: Policy, root: Visitor, cs: seq<Bytes>, a: Bytes)
    requires Invariant(pol, root) && Paying(Decode(pol, root, cs), a)
    requires Decode(pol, root, cs).phase.off + |a| < Decode(pol, root, cs).phase.total
    ensures Decode(pol, root, cs + [a]).Live?
  {
    hide Decode, Explode, Join, Flatten, TakePiece;
    var n, more := Decode(pol, root, cs + [a]), Decode(pol, root, cs + [a + [0]]);
    PieceDecodes(pol, root, cs, a);
    PieceDecodes(pol, root, cs, a + [0]);
    OneMoreByte(pol, root, cs + [a], 0);
    assert Flatten(cs) + a + [0] == Flatten(cs) + (a + [0]);
    assert Alike(Decode(pol, root, cs + [a] + [[0]]), more);
    ExplodeJoin(Decode(pol, root, cs + [a] + [[0]]).All());
    ExplodeJoin(more.All());
  }

  /** The same piece byte by byte: the last byte's call is the last one answered. */
  lemma LastByte(pol: Policy, root: Visitor, cs: seq<Bytes>, a: Bytes)
    requires Invariant(pol, root) && Paying(Decode(pol, root, cs), a)
    ensures var b := Decode(pol, root, Cut(Flatten(cs) + a));
      b.All() != [] && Answered(pol, b, |b.All()|)
  {
    hide Decode, Explode, Flatten, Cut, TakePiece, Step, Invariant, Answered;
    var init, x := a[..|a| - 1], a[|a| - 1];
    var s := Flatten(cs) + init;
    assert Flatten(cs) + a == s + [x] && a == init + [x];
    PieceDecodes(pol, root, cs, a);
    ByBytes(pol, root, cs);
    ByBytes(pol, root, cs + [a]);
    if init == [] {
      assert s == Flatten(cs);
    } else {
      PieceDecodes(pol, root, cs, init);
      UnfinishedIsAccepted(pol, root, cs, init);
      ByBytes(pol, root, cs + [init]);
    }
    var b0 := Decode(pol, root, Cut(s));
    assert b0.Live? && |b0.log| + 1 == |Decode(pol, root, Cut(s + [x])).All()|;
    LastAnswered(pol, root, s, x);
  }

  /** A byte that makes a call has the call answered. */
  lemma LastAnswered(pol: Policy, root: Visitor, s: Bytes, x: Byte)
    requires Decode(pol, root, Cut(s)).Live?
    requires |Decode(pol, root, Cut(s)).log| < |Decode(pol, root, Cut(s + [x])).All()|
    ensures var b := Decode(pol, root, Cut(s + [x])); Answered(pol, b, |b.All()|)
  {
    hide Decode, Flatten, Cut, Step, Answered, Entered;
    CutIsSmall(pol, root, s);
    OneMoreByte(pol, root, Cut(s), x);
    StepAsks(pol, pol, Decode(pol, root, Cut(s)), x);
  }

  lemma PieceIsPatient(pol: Policy, root: Visitor, cs: seq<Bytes>, a: Bytes)
    requires Invariant(pol, root) && Paying(Decode(pol, root, cs), a)
    ensures CutBlindAt(pol, Decode(pol, root, cs + [a]).All())
  {
    hide Decode, Explode, Flatten, Cut, TakePiece, Invariant;
    PieceDecodes(pol, root, cs, a);
    LastByte(pol, root, cs, a);
    ByBytes(pol, root, cs + [a]);
    var b := Decode(pol, root, Cut(Flatten(cs) + a));
    assert b.All()[..|b.All()|] == b.All();
    var m := Decode(pol, root, cs);
    if m.phase.off + |a| < m.phase.total { UnfinishedIsAccepted(pol, root, cs, a); }
    LastOfExplode(m.log, PieceCall(m, a));
  }

  /** The last call of an exploded log is the last call, or the last byte of its piece. */
  lemma LastOfExplode(log: Log, c: Call)
    ensures var e := Explode(log + [c]);
      && e != []
      && var d := e[|e| - 1];
      && d.on == c.on && d.ev.Piece? == c.ev.Piece? && (!c.ev.Piece? ==> d == c)
      && (c.ev.Piece? ==> d.ev.id == c.ev.id && d.ev.sub == c.ev.sub && d.ev.total == c.ev.total)
  {
    hide Explode;
    ExplodeAppend(log, c);
    ExplodedCall(c);
    if c.ev.Piece? { SinglesAreSmall(c.on, c.ev.id, c.ev.sub, c.ev.total, c.ev.off, c.ev.chunk); }
  }

  /** Everything a further chunk makes a decode ask. */
  lemma {:induction false} ChunkIsPatient(pol: Policy, root: Visitor, cs: seq<Bytes>, c: Bytes, k: nat)
    requires Invariant(pol, root)
    requires |Decode(pol, root, cs).All()| < k <= |Decode(pol, root, cs + [c]).All()|
    ensures CutBlindAt(pol, Decode(pol, root, cs + [c]).All()[..k])
    decreases |c|
  {
    hide Decode, Explode, Flatten, Cut, TakePiece, Step, Invariant, Asked, Called, CutBlindAt, Feeds;
    var m := Decode(pol, root, cs);
    DecodeMore(pol, root, cs, c);
    assert c != [] && m.Live?;
    var i := FirstMove(m, c);
    var a, rest := c[..i], c[i..];
    DecodeMore(pol, root, cs, a);
    DecodeMore(pol, root, cs + [a], rest);
    ChunkMoves(pol, m, c);
    var p := Decode(pol, root, cs + [a]);
    var n := Decode(pol, root, cs + [c]);
    ChunkAsks(pol, pol, p, rest);
    if k <= |p.All()| {
      assert n.All()[..k] == p.All()[..k] by { WentExtends(pol, p.All(), n); }
      MoveIsPatient(pol, root, cs, a, k);
    } else {
      ChunkIsPatient(pol, root, cs + [a], rest, k);
    }
  }

  /** How much of a chunk is taken at once: a payload's share, or one byte. */
  function FirstMove(m: Machine, c: Bytes): (n: nat)
    requires m.Live? && c != []
    ensures 1 <= n <= |c|
  {
    if m.phase.Payload? && m.phase.off < m.phase.total then
      if m.phase.total - m.phase.off < |c| then m.phase.total - m.phase.off else |c|
    else 1
  }

  lemma ChunkMoves(pol: Policy, m: Machine, c: Bytes)
    requires m.Live? && c != []
    ensures var i := FirstMove(m, c);
      && Chunk(pol, m, c) == Chunk(pol, Chunk(pol, m, c[..i]), c[i..])
      && (m.phase.Payload? && m.phase.off < m.phase.total ==> Chunk(pol, m, c[..i]) == TakePiece(pol, m, c[..i]))
      && (!(m.phase.Payload? && m.phase.off < m.phase.total) ==> Chunk(pol, m, c[..i]) == Step(pol, m, c[0]))
  {
    hide Step, TakePiece;
    var i := FirstMove(m, c);
    if m.phase.Payload? && m.phase.off < m.phase.total {
      ChunkPiece(pol, m, c[..i]);
    } else {
      assert c[..1] == [c[0]];
      ChunkOne(pol, m, c[0]);
    }
  }

  lemma DecodeMore(pol: Policy, root: Visitor, cs: seq<Bytes>, c: Bytes)
    ensures Decode(pol, root, cs + [c]) == Chunk(pol, Decode(pol, root, cs), c)
    ensures c == [] || Decode(pol, root, cs).Failed? ==> Decode(pol, root, cs + [c]) == Decode(pol, root, cs)
  {
    FeedsMore(pol, Initial(root), cs, c);
  }

  lemma WentExtends(pol: Policy, from: Log, n: Machine)
    requires Went(pol, from, n)
    ensures from <= n.All()
  {
  }

  lemma MoveIsPatient(pol: Policy, root: Visitor, cs: seq<Bytes>, a: Bytes, k: nat)
    requires Invariant(pol, root) && Decode(pol, root, cs).Live? && a != []
    requires var m := Decode(pol, root, cs);
      && FirstMove(m, a) == |a|
      && |m.log| < k <= |Decode(pol, root, cs + [a]).All()|
    ensures CutBlindAt(pol, Decode(pol, root, cs + [a]).All()[..k])
  {
    hide Decode, Explode, Flatten, Cut, Step, Invariant, CutBlindAt, Unfinished;
    var m, n := Decode(pol, root, cs), Decode(pol, root, cs + [a]);
    DecodeMore(pol, root, cs, a);
    ChunkMoves(pol, m, a);
    assert a[..|a|] == a;
    if m.phase.Payload? && m.phase.off < m.phase.total {
      if m.Cur() != Nil {
        PieceDecodes(pol, root, cs, a);
        PieceIsPatient(pol, root, cs, a);
        assert n.All()[..k] == n.All();
      }
    } else {
      assert a == [a[0]];
      FinishesNothing(pol, m, a[0], k);
      ByteIsPatient(pol, root, cs, a[0], k);
    }
  }

  /** Outside a payload no byte delivers an unfinished piece. */
  lemma FinishesNothing(pol: Policy, m: Machine, b: Byte, k: nat)
    requires m.Live? && !(m.phase.Payload? && m.phase.off < m.phase.total)
    requires |m.log| < k <= |Step(pol, m, b).All()|
    ensures !Unfinished(Step(pol, m, b).All()[k - 1].ev)
  {
    if m.phase.Payload? {
    } else {
      hide Step, Entered, Answered;
      StepAsks(pol, pol, m, b);
    }
  }

  lemma {:induction false} DecodeIsPatient(pol: Policy, root: Visitor, cs: seq<Bytes>, k: nat)
    requires Invariant(pol, root) && 0 < k <= |Decode(pol, root, cs).All()|
    ensures CutBlindAt(pol, Decode(pol, root, cs).All()[..k])
    decreases |cs|
  {
    hide Explode, Invariant, CutBlindAt, Chunk, Answered;
    var init, c := cs[..|cs| - 1], cs[|cs| - 1];
    assert cs == init + [c];
    FeedsMore(pol, Initial(root), init, c);
    ChunkAsks(pol, pol, Decode(pol, root, init), c);
    if k <= |Decode(pol, root, init).All()| {
      DecodeIsPatient(pol, root, init, k);
      assert Decode(pol, root, cs).All()[..k] == Decode(pol, root, init).All()[..k];
    } else {
      ChunkIsPatient(pol, root, init, c, k);
    }
  }

  /** The cutting cannot be told, by callbacks, outcome or error, if and only if the
      visitors are patient. */
  lemma InvariantIffPatient(pol: Policy, root: Visitor)
    ensures Invariant(pol, root) <==> Patient(pol, Initial(root))
  {
    hide Explode, CutBlindAt, Alike;
    if Patient(pol, Initial(root)) {
      forall cs: seq<Bytes>, ds: seq<Bytes> | Flatten(cs) == Flatten(ds)
        ensures Alike(Decode(pol, root, cs), Decode(pol, root, ds))
      {
        ChunkInvariance(pol, Initial(root), cs, ds);
      }
    }
    if Invariant(pol, root) {
      forall cs: seq<Bytes>, k: nat | 0 < k <= |Feeds(pol, Initial(root), cs).All()|
        ensures CutBlindAt(pol, Feeds(pol, Initial(root), cs).All()[..k])
      {
        DecodeIsPatient(pol, root, cs, k);
      }
    }
  }
}
