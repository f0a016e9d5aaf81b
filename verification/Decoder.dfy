/** istream.go: the push decoder, with its fields and its fast paths. `State` reads
    the fields as a `Machine`; every method is proved to move that machine as the
    byte-wise definition does. */
module Decoder {
  import opened Wire
  import opened Machine
  import opened FastPaths
  import Varint

  /** Where the decoder suspended. */
  datatype State = StHeader | StScalarU | StScalarS | StFixWord | StFixFp | StFixBytes
                 | StArrCount | StArrUElem | StArrSElem | StArrWord | StArrFp

  class Decoder {
    const policy: Policy
    /** The calls made on visitors since the decoder was bound. */
    var log: Log

    var st: State
    var err: Option<Error>
    var acc: int
    var shift: nat
    var nb: nat
    var id: int
    var total: int
    var off: nat
    var remain: nat
    var idx: int
    var wire: int
    var kind: Kind
    var sub: Subtype
    var width: int
    const fp: array<Byte>
    var nfp: nat
    var depth: nat
    const stack: array<Visitor>
    const spDone: array<bool>
    var skipFrom: int
    var top: Visitor

    /** The depth the declined scopes start from, the root's when it is nil, or -1. */
    ghost function Base(): int
      reads this`skipFrom, stack
    {
      if stack.Length > 0 && stack[0] == Nil then 0 else skipFrom
    }

    /** How many scopes the stack holds for the callbacks, a nil root included. */
    ghost function Levels(): int
      reads this`skipFrom, this`depth, stack
    {
      if Base() < 0 then depth + 1 else Base() + 1
    }

    ghost predicate Shape() {
      fp.Length == 8 && stack.Length == MAX_DEPTH + 1 && spDone.Length == MAX_DEPTH + 1
    }

    /** The stack discipline: `top` is the innermost visitor, nil while skipping. */
    ghost predicate Stacked()
      reads this`depth, this`skipFrom, this`top, stack
    {
      && Shape()
      && depth <= MAX_DEPTH && -1 <= skipFrom < depth
      && (forall i :: 1 <= i < Levels() ==> stack[i] != Nil)
      && (stack[0] == Nil ==> skipFrom == -1 && forall i :: 0 <= i <= depth ==> stack[i] == Nil)
      && top == (if Base() < 0 then stack[depth] else Nil)
    }

    /** What holds of the varint accumulator while a decode is suspended. */
    ghost predicate Accumulator()
      reads this`st, this`acc, this`shift, this`nb, this`nfp
    {
      && nfp <= 8 && shift == 7 * nb && Partial(acc, nb).Fits()
      && (nb > 0 ==> !st.StFixFp? && !st.StFixBytes? && !st.StArrFp?)
    }

    /** What holds of the fields of the value being read, in a live decode. An array
        may momentarily have nothing left to read. */
    ghost predicate Field()
      reads this`st, this`id, this`total, this`off, this`remain, this`idx, this`wire, this`kind, this`sub, this`width,
            this`nfp, this`top
    {
      && (!st.StHeader? ==> 0 <= id <= ID_MAX)
      && (st.StFixFp? ==> (width == 4 || width == 8) && nfp < width)
      && (st.StFixBytes? ==> (sub.Str? || sub.Blob?) && 0 <= off < total <= ARRAY_MAX && off + remain == total)
      && (st.StArrCount? ==> (wire == T_ARRAY_UNSIGNED && kind == KUnsigned) || (wire == T_ARRAY_SIGNED && kind == KSigned) || wire == T_ARRAY_FIXLEN)
      && (st.StArrWord? ==> 0 <= total == remain <= ARRAY_MAX && idx == 0)
      && (st.StArrUElem? || st.StArrSElem? || st.StArrFp? ==>
            0 <= remain <= total <= ARRAY_MAX && (top != Nil ==> idx == total - remain))
      && (st.StArrFp? ==> (width == 4 || width == 8) && nfp < width)
    }

    ghost predicate Valid()
      reads this, stack, spDone, fp
    {
      Shape() && (err.None? ==> Stacked() && Accumulator() && Field())
    }

    /** Nothing left over: the decoder may suspend here. */
    ghost predicate Settled()
      reads this
    {
      err.None? && (st.StArrUElem? || st.StArrSElem? || st.StArrFp?) ==> remain > 0
    }

    ghost function PhaseOf(): Phase
      reads this`st, this`id, this`total, this`off, this`remain, this`wire, this`sub, this`width, this`nfp, fp
      requires Shape() && nfp <= 8
    {
      match st
      case StHeader => Phase.Header
      case StScalarU => ScalarU(id)
      case StScalarS => ScalarS(id)
      case StFixWord => FixWord(id)
      case StFixFp => Fp(id, width, fp[..nfp])
      case StFixBytes => Payload(id, sub, total, off)
      case StArrCount => Count(id, wire)
      case StArrUElem => Elems(id, false, total, remain)
      case StArrSElem => Elems(id, true, total, remain)
      case StArrWord => ArrWord(id, total)
      case StArrFp => ArrFp(id, width, total, remain, fp[..nfp])
    }

    ghost function State(): Machine
      reads this, stack, spDone, fp
      requires Valid()
    {
      if err.Some? then Failed(log, err.value)
      else Live(PhaseOf(), Partial(acc, nb), stack[..Levels()], spDone[..Levels()],
                if Base() < 0 then 0 else depth - Base(), log)
    }

    /* ----- construction ----- */

    constructor (pol: Policy, root: Visitor)
      ensures Valid() && Settled() && policy == pol && State() == Initial(root)
      ensures fresh(fp) && fresh(stack) && fresh(spDone)
    {
      policy := pol;
      fp := new Byte[8];
      stack := new Visitor[MAX_DEPTH + 1];
      spDone := new bool[MAX_DEPTH + 1];
      st, err, acc, shift, nb, id, total, off, remain, idx := StHeader, None, 0, 0, 0, 0, 0, 0, 0, 0;
      wire, kind, sub, width, nfp, depth, skipFrom, top, log := 0, KUnsigned, Fp32, 0, 0, 0, -1, root, [];
      new;
      Init(root);
    }

    /** The fields that decide everything a new decode does. */
    ghost predicate Cleared(root: Visitor)
      reads this, stack, spDone
    {
      && Shape() && st.StHeader? && err.None? && acc == 0 && shift == 0 && nb == 0 && nfp == 0
      && depth == 0 && skipFrom == -1 && top == root && stack[0] == root && !spDone[0] && log == []
    }

    /** Whatever the other fields hold, a cleared decoder is a new one. */
    lemma ClearedIsInitial(root: Visitor)
      requires Cleared(root)
      ensures Valid() && Settled() && State() == Initial(root)
    {
      FreshFits();
      assert stack[..1] == [root] && spDone[..1] == [false];
    }

    /** Between messages: no field, no varint, no error. */
    method ClearField()
      modifies this`st, this`err, this`acc, this`shift, this`nb, this`total, this`off, this`remain, this`idx, this`nfp
      ensures st.StHeader? && err.None? && acc == 0 && shift == 0 && nb == 0
      ensures total == 0 && off == 0 && remain == 0 && idx == 0 && nfp == 0
    {
      st := StHeader;
      err := None;
      acc, shift, nb := 0, 0, 0;
      total, off, remain, idx, nfp := 0, 0, 0, 0, 0;
    }

    /** The whole of construction and the whole of Reset. It leaves `id`, `kind`, `wire`,
        `sub`, `width`, `fp` and the deeper stack slots as they were. */
    method Init(root: Visitor)
      requires Shape()
      modifies this, stack, spDone
      ensures Valid() && Settled() && State() == Initial(root)
    {
      hide Valid, State, Settled;
      ClearField();
      stack[0] := root;
      spDone[0] := false;
      depth := 0;
      skipFrom := -1;
      top := root;
      log := [];
      ClearedIsInitial(root);
    }

    /** From any state, mid-field or failed, back to a new decoder on `root`. */
    method Reset(root: Visitor)
      requires Valid()
      modifies this, stack, spDone
      ensures Valid() && Settled() && State() == Initial(root)
    {
      Init(root);
    }

    /* ----- small steps ----- */

    method Fail(e: Error) returns (r: Option<Error>)
      modifies this`err
      ensures err == (if old(err).None? then Some(e) else old(err)) && r == err
    {
      if err.None? { err := Some(e); }
      r := err;
    }

    /** One visitor call, recorded and answered. */
    method Deliver(v: Visitor, ev: Event) returns (r: Option<Error>)
      modifies this`log
      ensures log == old(log) + [Call(v, ev)] && r == policy.refuse(log)
    {
      log := log + [Call(v, ev)];
      r := policy.refuse(log);
    }

    /* ----- varints ----- */

    method BeginVarint()
      modifies this`acc, this`shift, this`nb
      ensures acc == 0 && shift == 0 && nb == 0
    {
      acc, shift, nb := 0, 0, 0;
    }

    /** The byte-at-a-time varint reader. */
    method VarintResume(input: Bytes, start: nat) returns (i: nat, ok: bool)
      requires start <= |input| && err.None? && shift == 7 * nb && Partial(acc, nb).Fits()
      modifies this`acc, this`shift, this`nb, this`err
      ensures start <= i <= |input|
      ensures match ReadVarint(Partial(old(acc), old(nb)), input[start..])
              case Got(v, used) => ok && err.None? && acc == v && i == start + used
              case Suspended(q) => !ok && err.None? && i == |input| && q == Partial(acc, nb) && shift == 7 * nb
              case Malformed => !ok && err == Some(InvalidMsg)
    {
      hide Group, Weight, Low7;
      ghost var whole := ReadVarint(Partial(acc, nb), input[start..]);
      i := start;
      while i < |input|
        invariant start <= i <= |input| && err.None? && shift == 7 * nb && Partial(acc, nb).Fits()
        invariant whole == Bump(ReadVarint(Partial(acc, nb), input[i..]), i - start)
      {
        var x := input[i];
        ghost var s, p := input[i..], Partial(acc, nb);
        assert s[1..] == input[i + 1..];
        StepVarintBounds(p, x);
        if shift == 63 {
          if x > 1 {
            var _ := Fail(InvalidMsg);
            return i, false;
          }
          acc := acc + Group(x, 9);
          nb := nb + 1;
          return i + 1, true;
        }
        acc := acc + Group(Low7(x), shift / 7);
        nb := nb + 1;
        if x < 0x80 {
          return i + 1, true;
        }
        shift := shift + 7;
        ReadVarintUnfold(p, s, Partial(acc, nb));
        i := i + 1;
      }
      return i, false;
    }

    /** A multi-byte varint, one resumed from an earlier chunk, or the end of a chunk. */
    method ReadVarintSlow(input: Bytes, start: nat) returns (v: int, i: nat, ok: bool)
      requires start <= |input| && err.None? && shift == 7 * nb && Partial(acc, nb).Fits()
      modifies this`acc, this`shift, this`nb, this`err
      ensures start <= i <= |input|
      ensures match ReadVarint(Partial(old(acc), old(nb)), input[start..])
              case Got(w, used) => ok && err.None? && v == w && i == start + used && acc == 0 && shift == 0 && nb == 0
              case Suspended(q) => !ok && err.None? && i == |input| && q == Partial(acc, nb) && shift == 7 * nb
              case Malformed => !ok && err == Some(InvalidMsg)
    {
      if nb == 0 && |input| - start >= MAX_VARINT_LEN {
        assert acc == 0;
        Varint.UvarintFastReads(input, start);
        var (w, np, fast) := Varint.UvarintFast(input, start);
        if !fast {
          var _ := Fail(InvalidMsg);
          return 0, start, false;
        }
        return w, np, true;
      }
      var np, done := VarintResume(input, start);
      if !done {
        return 0, np, false;
      }
      v := acc;
      BeginVarint();
      return v, np, true;
    }

    /** The varint reader of every state: one byte inline, else the slow path. */
    method NextVarint(input: Bytes, start: nat) returns (v: int, i: nat, ok: bool)
      requires start <= |input| && err.None? && shift == 7 * nb && Partial(acc, nb).Fits()
      modifies this`acc, this`shift, this`nb, this`err
      ensures start <= i <= |input|
      ensures match ReadVarint(Partial(old(acc), old(nb)), input[start..])
              case Got(w, used) => ok && err.None? && v == w && i == start + used && acc == 0 && shift == 0 && nb == 0
              case Suspended(q) => !ok && err.None? && i == |input| && q == Partial(acc, nb) && shift == 7 * nb
              case Malformed => !ok && err == Some(InvalidMsg)
    {
      if start < |input| && input[start] < 0x80 && nb == 0 {
        v := input[start];
        i := start + 1;
        ok := true;
        ReadVarintLast(FRESH, input[start..]);
        assert Group(v, 0) == v;
      } else {
        v, i, ok := ReadVarintSlow(input, start);
      }
    }

    /* ----- headers and scopes ----- */

    /** A decoder between two values, its visitor stack in order. */
    ghost predicate Idle()
      reads this, stack, spDone, fp
    {
      Valid() && err.None? && nb == 0
    }

    method OpenSequence() returns (r: Option<Error>)
      requires Idle() && st.StHeader? && 0 <= id <= ID_MAX
      modifies this`err, this`log, this`depth, this`skipFrom, this`top, stack, spDone
      ensures Valid() && r == err && State() == Opened(policy, old(State()), id)
    {
      hide Accumulator;
      r := None;
      if depth >= MAX_DEPTH {
        r := Fail(InvalidMsg);
      } else {
        var child := Nil;
        if top != Nil {
          r := Deliver(top, BeginSequence(id));
          child := policy.child(log);
        }
        if r.Some? {
          r := Fail(r.value);
        } else {
          Enter(child);
        }
      }
    }

    /** Push the scope of `child`, or one more scope of a declined subtree. */
    method Enter(child: Visitor)
      requires Idle() && depth < MAX_DEPTH && (top == Nil ==> child == Nil) && st.StHeader?
      modifies this`depth, this`skipFrom, this`top, stack, spDone
      ensures Valid() && State() ==
              var m := old(State());
              if m.declined > 0 then m.(declined := m.declined + 1)
              else if child == Nil then m.(declined := 1)
              else m.(open := m.open + [child], told := m.told + [false])
    {
      hide Accumulator, Partial.Fits;
      ghost var lo, told := stack[..Levels()], spDone[..Levels()];
      if top != Nil && child == Nil {
        skipFrom := depth;
      }
      Push(child);
      if child != Nil {
        assert stack[..Levels()] == lo + [child] && spDone[..Levels()] == told + [false];
      } else {
        assert stack[..Levels()] == lo && spDone[..Levels()] == told;
      }
    }

    method Push(child: Visitor)
      requires Shape() && depth < MAX_DEPTH
      modifies this`depth, this`top, stack, spDone
      ensures depth == old(depth) + 1 && top == child == stack[depth] && !spDone[depth]
      ensures forall i :: 0 <= i < depth ==> stack[i] == old(stack[i]) && spDone[i] == old(spDone[i])
    {
      depth := depth + 1;
      stack[depth] := child;
      spDone[depth] := false;
      top := child;
    }

    method CloseSequence() returns (r: Option<Error>)
      requires Idle() && st.StHeader?
      modifies this`err, this`log, this`depth, this`skipFrom, this`top, stack
      ensures Valid() && r == err && State() == Closed(policy, old(State()))
    {
      hide Accumulator;
      r := None;
      if depth == 0 {
        r := Fail(InvalidMsg);
      } else {
        var child, delivered := stack[depth], skipFrom < 0;
        Leave();
        if delivered && child != Nil {
          r := Deliver(child, EndSequence);
          if r.Some? {
            r := Fail(r.value);
          }
        }
      }
    }

    /** Pop the innermost scope and drop its visitor. */
    method Leave()
      requires Idle() && st.StHeader? && depth > 0
      modifies this`depth, this`skipFrom, this`top, stack
      ensures Valid() && State() ==
              var m := old(State());
              if m.declined > 0 then m.(declined := m.declined - 1)
              else m.(open := m.open[..|m.open| - 1], told := m.told[..|m.told| - 1])
    {
      if skipFrom >= 0 { LeaveDeclined(); } else { LeaveTaken(); }
    }

    method LeaveDeclined()
      requires Idle() && st.StHeader? && skipFrom >= 0
      modifies this`depth, this`skipFrom, this`top, stack
      ensures Valid() && old(State()).declined > 0 && State() == old(State()).(declined := old(State()).declined - 1)
    {
      hide Accumulator, Partial.Fits;
      ghost var lo, told := stack[..Levels()], spDone[..Levels()];
      Pop();
      if depth == skipFrom {
        skipFrom := -1;
        top := stack[depth];
      }
      assert stack[..Levels()] == lo && spDone[..Levels()] == told;
    }

    method LeaveTaken()
      requires Idle() && st.StHeader? && depth > 0 && skipFrom < 0
      modifies this`depth, this`top, stack
      ensures Valid() && State() ==
              var m := old(State());
              if m.declined > 0 then m.(declined := m.declined - 1)
              else m.(open := m.open[..|m.open| - 1], told := m.told[..|m.told| - 1])
    {
      hide Accumulator, Partial.Fits;
      ghost var lo, told := stack[..Levels()], spDone[..Levels()];
      Pop();
      top := stack[depth];
      if stack[0] == Nil {
        assert stack[..Levels()] == lo && spDone[..Levels()] == told;
      } else {
        assert stack[..Levels()] == lo[..|lo| - 1] && spDone[..Levels()] == told[..|told| - 1];
      }
    }

    method Pop()
      requires Shape() && 0 < depth <= MAX_DEPTH
      modifies this`depth, stack
      ensures depth == old(depth) - 1 && stack[old(depth)] == Nil
      ensures forall i :: 0 <= i <= depth ==> stack[i] == old(stack[i])
    {
      stack[depth] := Nil; // the codec keeps no reference
      depth := depth - 1;
    }

    /** Route a field header to the state that reads its value. */
    method Header(t: int) returns (r: Option<Error>)
      requires Idle() && st.StHeader? && 0 <= id <= ID_MAX && 0 <= t < 8
      modifies this`st, this`wire, this`kind, this`err, this`log, this`depth, this`skipFrom, this`top, stack, spDone
      ensures Valid() && r == err && State() == OnHeader(policy, old(State()), 8 * id + t)
      ensures err.None? ==> !InElements() && !st.StArrFp?
    {
      hide Valid, State, Opened, Closed;
      assert (8 * id + t) / 8 == id && (8 * id + t) % 8 == t;
      r := None;
      if t == T_SEQUENCE_START {
        r := OpenSequence();
      } else if t == T_SEQUENCE_END {
        r := CloseSequence();
      } else {
        RouteValue(t);
      }
      HeaderLive();
    }

    lemma HeaderLive()
      requires Valid()
      ensures err.None? ==> State().Live?
    {
    }

    method RouteValue(t: int)
      requires Idle() && st.StHeader? && 0 <= id <= ID_MAX && 0 <= t < T_SEQUENCE_START
      modifies this`st, this`wire, this`kind
      ensures Valid() && !InElements() && !st.StArrFp?
      ensures var m := old(State()); m.Live? && State() == m.(phase :=
                if t == T_UNSIGNED then ScalarU(id) else if t == T_SIGNED then ScalarS(id)
                else if t == T_FIXLEN then FixWord(id) else Count(id, t))
    {
      hide Stacked, Partial.Fits;
      if t > T_FIXLEN {
        wire := t;
        if t != T_ARRAY_FIXLEN {
          kind := if t == T_ARRAY_UNSIGNED then KUnsigned else KSigned;
        }
      }
      st := if t == T_UNSIGNED then StScalarU else if t == T_SIGNED then StScalarS
            else if t == T_FIXLEN then StFixWord else StArrCount;
    }

    /* ----- fixlen fields ----- */

    /** The half of `fixlenWord` that validates the word. */
    method ParseWord(w: int) returns (r: Option<Error>, empty: bool)
      requires Idle() && st.StFixWord? && w >= 0
      modifies this`st, this`width, this`remain, this`nfp, this`total, this`off, this`sub, this`err
      ensures Valid() && r == err
      ensures State() == match WordPhase(id, w)
                         case None => Rejected(old(State()), InvalidMsg)
                         case Some(phase) => old(State()).(phase := phase)
      ensures r.None? ==> sub == SubtypeOf(w % 8) && empty == (w / 8 == 0) && !InElements() && !st.StArrFp?
    {
      hide Valid, State, Stacked, Partial.Fits, Field;
      LiveNow();
      ShapeNow();
      var n, tag := w / 8, w % 8;
      r, empty := None, false;
      if n > ARRAY_MAX || tag > 3 || (tag == 0 && n != 4) || (tag == 1 && n != 8) {
        r := Fail(InvalidMsg);
        FailedNow();
      } else {
        if tag == 0 || tag == 1 {
          BeginFloat(n, if tag == 0 then Fp32 else Fp64);
        } else {
          BeginPayload(n, if tag == 2 then Str else Blob);
        }
        empty := n == 0;
      }
    }

    method BeginFloat(n: nat, s: Subtype)
      requires Idle() && st.StFixWord? && (n == 4 || n == 8)
      modifies this`st, this`width, this`remain, this`nfp, this`sub
      ensures Valid() && sub == s && st.StFixFp?
      ensures var m := old(State()); m.Live? && State() == m.(phase := Fp(id, n, []))
    {
      hide Stacked, Partial.Fits;
      width, remain, nfp := n, n, 0;
      st := StFixFp;
      sub := s;
    }

    /** A string or blob; an empty one ends right here. */
    method BeginPayload(n: nat, s: Subtype)
      requires Idle() && st.StFixWord? && n <= ARRAY_MAX && (s.Str? || s.Blob?)
      modifies this`st, this`remain, this`total, this`off, this`sub
      ensures Valid() && sub == s && (st.StFixBytes? || st.StHeader?)
      ensures var m := old(State());
              m.Live? && State() == m.(phase := if n == 0 then Phase.Header else Payload(id, s, n, 0))
    {
      hide Stacked, Partial.Fits;
      total, off, remain := n, 0, n;
      sub := s;
      st := if remain == 0 then StHeader else StFixBytes;
    }

    /** The string policy, once per scope, to a visitor that takes one. */
    method OfferPolicy()
      requires Valid() && err.None?
      modifies this`log, spDone
      ensures Valid() && State() == TellPolicy(policy, old(State()), sub)
    {
      hide Accumulator, Field;
      if top != Nil && sub.Str? && !spDone[depth] {
        ghost var told := spDone[..Levels()];
        spDone[depth] := true;
        if policy.takesCheck(top) {
          log := log + [Call(top, SetStringCheck)];
        }
        assert spDone[..Levels()] == told[|told| - 1 := true];
      }
    }

    /** A callback on the innermost scope, or nothing in a declined subtree. */
    method Notify(ev: Event) returns (r: Option<Error>)
      requires Valid() && err.None?
      modifies this`log, this`err
      ensures Valid() && r == err && State() == Tell(policy, old(State()), ev)
    {
      hide Accumulator, Field;
      r := None;
      if top != Nil {
        r := Deliver(top, ev);
        if r.Some? {
          r := Fail(r.value);
        }
      }
    }

    method FixlenWord(w: int) returns (r: Option<Error>)
      requires Idle() && st.StFixWord? && w >= 0
      modifies this`st, this`width, this`remain, this`nfp, this`total, this`off, this`sub, this`err, this`log, spDone
      ensures Valid() && r == err && State() == OnFixWord(policy, old(State()), id, w)
      ensures err.None? ==> !InElements() && !st.StArrFp?
    {
      hide Stacked, Accumulator, Field, Tell, TellPolicy;
      var empty;
      r, empty := ParseWord(w);
      if r.None? {
        OfferPolicy();
        r := Notify(FixlenBegin(id, sub, w / 8));
        if r.None? && empty {
          r := Notify(Piece(id, sub, 0, 0, []));
        }
      }
    }

    /** One piece of a payload, as much of it as the chunk holds. */
    method PayloadPiece(input: Bytes, start: nat) returns (r: Option<Error>, i: nat)
      requires Idle() && st.StFixBytes? && start < |input|
      modifies this`st, this`off, this`remain, this`err, this`log
      ensures Valid() && r == err && start < i <= |input| && (st.StFixBytes? || st.StHeader?)
      ensures i - start == if old(remain) < |input| - start then old(remain) else |input| - start
      ensures State() == TakePiece(policy, old(State()), input[start..i])
    {
      hide Stacked, Tell;
      var n := |input| - start;
      if n > remain {
        n := remain;
      }
      i := start + n;
      var piece, at := input[start..i], off;
      off := off + n;
      remain := remain - n;
      if remain == 0 {
        st := StHeader;
      }
      r := Notify(Piece(id, sub, total, at, piece));
    }

    /** One byte into the landing zone. */
    method Land(x: Byte)
      requires Shape() && nfp < 8
      modifies this`nfp, fp
      ensures nfp == old(nfp) + 1 && fp[..nfp] == old(fp[..nfp]) + [x]
    {
      fp[nfp] := x;
      nfp := nfp + 1;
    }

    static lemma OneMore(got: Bytes, input: Bytes, start: nat, i: nat)
      requires start <= i < |input|
      ensures got + input[start..i] + [input[i]] == got + input[start..i + 1]
    {
    }

    /** Assemble one fixed-width float across as many chunks as it takes. */
    method FpStep(input: Bytes, start: nat) returns (i: nat, ok: bool, bits: int)
      requires Shape() && start <= |input| && (width == 4 || width == 8) && nfp < width
      modifies this`nfp, fp
      ensures start <= i <= |input| && (start < |input| ==> start < i)
      ensures var got, k := old(fp[..nfp]), width - old(nfp);
              if |input| - start < k then !ok && i == |input| && nfp < width && fp[..nfp] == got + input[start..]
              else ok && i == start + k && nfp == 0 && bits == Le(got + input[start..start + k])
    {
      var w := width;
      ok, bits := false, 0;
      if nfp == 0 && |input| - start >= w {
        assert fp[..0] + input[start..start + w] == input[start..start + w];
        return start + w, true, Le(input[start..start + w]);
      }
      i := start;
      ghost var got := fp[..nfp];
      while nfp < w && i < |input|
        invariant start <= i <= |input| && |got| <= nfp <= w && i - start == nfp - |got|
        invariant fp[..nfp] == got + input[start..i]
      {
        Land(input[i]);
        OneMore(got, input, start, i);
        i := i + 1;
      }
      if nfp == w {
        bits := Le(fp[..w]);
        nfp := 0;
        ok := true;
      }
    }

    /* ----- arrays ----- */

    /** Close an array that has nothing left to read. */
    method FinishArray() returns (r: Option<Error>)
      requires Valid() && err.None? && nb == 0 && remain == 0 && (st.StArrUElem? || st.StArrSElem? || st.StArrFp?)
      modifies this`st, this`err, this`log
      ensures Valid() && r == err && State() == Settle(policy, old(State())) && (err.None? ==> st.StHeader?)
    {
      hide Stacked, Tell;
      st := StHeader;
      r := Notify(ArrayEnd(id));
    }

    /** Announce an array, and close it at once when it is empty. */
    method AnnounceArray() returns (r: Option<Error>)
      requires Valid() && err.None? && nb == 0 && total == remain && (st.StArrUElem? || st.StArrSElem? || st.StArrFp?)
      modifies this`st, this`err, this`log
      ensures Valid() && Settled() && r == err && State() == Announce(policy, old(State()), id, kind, total)
    {
      assert remain >= 0;
      hide Stacked, Accumulator, Field, Tell;
      r := Notify(ArrayBegin(id, kind, total));
      if r.None? && remain == 0 {
        r := FinishArray();
      }
    }

    /** Note an array's count; an integer array's elements follow at once. */
    method BeginArray(n: nat)
      requires Idle() && st.StArrCount? && n <= ARRAY_MAX
      modifies this`st, this`total, this`remain, this`idx
      ensures Valid() && total == n && remain == n
      ensures old(State()).Live?
      ensures wire == T_ARRAY_FIXLEN ==> st.StArrWord? && State() == old(State()).(phase := ArrWord(id, n))
      ensures wire != T_ARRAY_FIXLEN ==> InElements() && kind == if wire == T_ARRAY_UNSIGNED then KUnsigned else KSigned
      ensures wire != T_ARRAY_FIXLEN ==> State() == old(State()).(phase := Elems(id, wire != T_ARRAY_UNSIGNED, n, n))
    {
      hide Stacked, Partial.Fits;
      total, remain, idx := n, n, 0;
      st := if wire == T_ARRAY_FIXLEN then StArrWord else if wire == T_ARRAY_UNSIGNED then StArrUElem else StArrSElem;
    }

    method ArrayCount(n: int) returns (r: Option<Error>)
      requires Idle() && st.StArrCount? && n >= 0
      modifies this`st, this`total, this`remain, this`idx, this`err, this`log
      ensures Valid() && Settled() && r == err && State() == OnCount(policy, old(State()), id, wire, n)
    {
      hide Valid, State, Stacked, Partial.Fits, Announce, Field;
      r := None;
      if n > ARRAY_MAX {
        LiveNow();
        ShapeNow();
        r := Fail(InvalidMsg);
        FailedNow();
      } else {
        BeginArray(n);
        if wire != T_ARRAY_FIXLEN {
          r := AnnounceArray();
        }
      }
    }

    lemma LiveNow()
      requires Valid() && err.None?
      ensures State().Live? && State().log == log
    {
      hide Stacked, Field, Partial.Fits;
    }

    method FixlenArrayWord(w: int) returns (r: Option<Error>)
      requires Idle() && st.StArrWord? && w >= 0
      modifies this`st, this`kind, this`width, this`nfp, this`err, this`log
      ensures Valid() && Settled() && r == err && State() == OnArrWord(policy, old(State()), id, total, w)
    {
      hide Stacked, Partial.Fits, Announce;
      var tag, size := w % 8, w / 8;
      if (tag == 0 && size == 4) || (tag == 1 && size == 8) {
        kind, width := if tag == 0 then KFp32 else KFp64, size;
        nfp := 0;
        st := StArrFp;
        r := AnnounceArray();
      } else {
        r := Fail(InvalidMsg);
      }
    }

    predicate InElements()
      reads this`st
    {
      st.StArrUElem? || st.StArrSElem?
    }

    lemma CurIsTop()
      requires Valid() && err.None?
      ensures State().Cur() == top
    {
    }

    /** What the machine of a live decoder is made of. */
    lemma Look()
      requires Valid() && err.None?
      ensures var m := State();
        && m.Live? && nfp <= 8 && m.phase == PhaseOf() && m.part == Partial(acc, nb) && m.part.Fits() && shift == 7 * nb
        && m.Cur() == top && m.log == log
    {
      hide Field;
    }

    lemma LookArrFloat()
      requires Valid() && err.None? && st.StArrFp?
      ensures Shape() && (width == 4 || width == 8) && nfp < width && nb == 0
      ensures State().Live? && State().phase == ArrFp(id, width, total, remain, fp[..nfp])
    {
      hide Stacked, Partial.Fits;
    }

    method Element(v: U64) returns (r: Option<Error>)
      requires Idle() && InElements() && remain > 0
      modifies this`idx, this`remain, this`err, this`log
      ensures Valid() && r == err && Settle(policy, State()) == OnElement(policy, old(State()), v)
    {
      hide Stacked, Accumulator, Settle, Tell;
      var at := idx;
      idx := idx + 1;
      remain := remain - 1;
      r := None;
      if top == Nil {
        CurIsTop();
        TellNil(policy, State());
      } else {
        r := Notify(if st.StArrSElem? then ArraySigned(id, at, Unzigzag(v)) else ArrayUnsigned(id, at, v));
      }
    }

    /** Step over one integer element of a declined array. */
    method SkipElement(ghost v: U64)
      requires Idle() && InElements() && remain > 0 && top == Nil
      modifies this`remain
      ensures Valid() && Settle(policy, State()) == OnElement(policy, old(State()), v)
    {
      hide Stacked, Accumulator, Settle, Tell;
      remain := remain - 1;
      CurIsTop();
      TellNil(policy, State());
    }

    /** Where a pass over an array's elements stands: it began in `m` at `start`. */
    ghost predicate Reached(m: Machine, input: Bytes, start: nat, i: nat)
      reads this, stack, spDone, fp
    {
      && Valid() && start <= i <= |input|
      && Chunk(policy, Settle(policy, State()), input[i..]) == Chunk(policy, m, input[start..])
    }

    lemma SettledReached(m: Machine, input: Bytes, start: nat)
      requires Valid() && Settled() && m == State() && start <= |input|
      ensures Reached(m, input, start, start) && Settle(policy, m) == m
    {
    }

    /** One element off the chunk; `more` says whether the chunk held all of it. */
    method NextElement(input: Bytes, start: nat) returns (r: Option<Error>, i: nat, more: bool)
      requires Valid() && err.None? && InElements() && remain > 0 && start < |input| + 1
      modifies this`acc, this`shift, this`nb, this`idx, this`remain, this`err, this`log
      ensures Reached(old(State()), input, start, i) && r == err
      ensures err.None? ==> if more then nb == 0 && i > start else i == |input| && remain > 0
    {
      hide Valid, State, Stacked, Accumulator, Field, Partial.Fits, Settle, Chunk, OnElement, ReadVarint;
      ghost var m := State();
      Look();
      VarintChunk(policy, m, input[start..]);
      ReadVarintBounds(m.part, input[start..]);
      var v, ok;
      v, i, ok := FieldVarint(input, start);
      r, more := err, ok;
      assert ok ==> input[start..][i - start..] == input[i..];
      if ok {
        r := Element(v);
      } else {
        StoppedReached(m, input, start, i);
      }
    }

    /** The states that read a varint. */
    predicate InVarint()
      reads this`st
    {
      !st.StFixFp? && !st.StFixBytes? && !st.StArrFp?
    }

    /** `NextVarint` seen on the machine. */
    method FieldVarint(input: Bytes, start: nat) returns (v: int, i: nat, ok: bool)
      requires Valid() && err.None? && InVarint() && start <= |input|
      modifies this`acc, this`shift, this`nb, this`err
      ensures Valid() && start <= i <= |input|
      ensures var m := old(State());
              match ReadVarint(m.part, input[start..])
              case Got(w, used) => ok && err.None? && v == w && i == start + used && nb == 0 && State() == m.(part := FRESH)
              case Suspended(q) => !ok && err.None? && i == |input| && State() == m.(part := q)
              case Malformed => !ok && State() == Rejected(m, InvalidMsg) && err.Some?
    {
      hide Stacked, Field, ReadVarint, Weight;
      ReadVarintBounds(Partial(acc, nb), input[start..]);
      FreshFits();
      v, i, ok := NextVarint(input, start);
    }

    /** A decoder that has failed, or has used up the chunk, is where the chunk leads. */
    lemma StoppedReached(m: Machine, input: Bytes, start: nat, i: nat)
      requires Valid() && start <= i <= |input|
      requires err.None? ==> remain > 0 && i == |input|
      requires Chunk(policy, m, input[start..]) == State()
      ensures Reached(m, input, start, i)
    {
      ChunkStops(policy, State(), input[i..]);
    }

    /** The elements of a declined integer array that lie whole in the chunk: parsed,
        never delivered, `idx` left behind. */
    method SkipElements(input: Bytes, start: nat) returns (r: Option<Error>, i: nat)
      requires Valid() && Settled() && err.None? && InElements() && top == Nil && start <= |input|
      modifies this`remain, this`err
      ensures Reached(old(State()), input, start, i) && r == err
      ensures err.None? && remain == 0 ==> nb == 0 && i > start
    {
      hide Valid, State, Stacked, Accumulator, Field, Partial.Fits, Settle, Chunk, OnElement, ReadVarint,
           Varint.UvarintFast;
      ghost var m0 := State();
      SettledReached(m0, input, start);
      i := start;
      r := None;
      while r.None? && remain > 0 && nb == 0 && |input| - i >= MAX_VARINT_LEN
        invariant Reached(m0, input, start, i) && r == err && InElements() && top == Nil
        invariant err.None? && remain == 0 ==> nb == 0 && i > start
        decreases |input| - i, r.None?
      {
        ghost var m := State();
        SettledReached(m, input, i);
        r, i := SkipWhole(input, i);
      }
    }

    /** One element of a declined array by the unrolled reader. */
    method SkipWhole(input: Bytes, start: nat) returns (r: Option<Error>, i: nat)
      requires Valid() && err.None? && InElements() && top == Nil && remain > 0 && nb == 0
      requires start + MAX_VARINT_LEN <= |input|
      modifies this`remain, this`err
      ensures Reached(old(State()), input, start, i) && r == err
      ensures err.None? ==> i > start && nb == 0
    {
      hide Valid, State, Stacked, Accumulator, Field, Partial.Fits, Settle, Chunk, OnElement, ReadVarint, Varint.UvarintFast;
      ghost var m := State();
      Look();
      ShapeNow();
      OnlyZero(m.part);
      VarintChunk(policy, m, input[start..]);
      Varint.UvarintFastReads(input, start);
      var (v, np, ok) := Varint.UvarintFast(input, start);
      r := None;
      if ok {
        i := np;
        assert input[start..][np - start..] == input[np..];
        SkipElement(v);
      } else {
        i := start;
        r := Fail(InvalidMsg);
        FailedNow();
        StoppedReached(m, input, start, start);
      }
    }

    lemma FailedNow()
      requires Shape() && err.Some?
      ensures Valid() && State() == Failed(log, err.value)
    {
    }

    lemma ShapeNow()
      requires Valid()
      ensures Shape()
    {
    }

    /** The rest of an integer array, as much of it as the chunk holds. */
    method ArrayElements(input: Bytes, start: nat) returns (r: Option<Error>, i: nat)
      requires Valid() && Settled() && err.None? && InElements() && start <= |input|
      modifies this`st, this`acc, this`shift, this`nb, this`idx, this`remain, this`err, this`log
      ensures Valid() && Settled() && r == err && start <= i <= |input|
      ensures err.None? ==> if InElements() then i == |input| else i > start
      ensures Chunk(policy, State(), input[i..]) == Chunk(policy, old(State()), input[start..])
    {
      hide Valid, State, Stacked, Accumulator, Field, Settle, Chunk;
      ghost var m0 := State();
      SettledReached(m0, input, start);
      i := start;
      r := None;
      if top == Nil {
        r, i := SkipElements(input, start);
      }
      var more := true;
      while r.None? && more && remain > 0
        invariant Reached(m0, input, start, i) && r == err && InElements()
        invariant err.None? ==> if more then remain == 0 ==> nb == 0 && i > start else i == |input| && remain > 0
        decreases |input| - i, more, r.None?
      {
        SettledReached(State(), input, i);
        r, i, more := NextElement(input, i);
      }
      if r.None? && more {
        r := FinishArray();
      } else {
        UnsettledOnly(m0, input, start, i);
      }
    }

    /** Short of a finished array, settling does nothing. */
    lemma UnsettledOnly(m: Machine, input: Bytes, start: nat, i: nat)
      requires Reached(m, input, start, i) && (err.None? ==> remain > 0)
      ensures Chunk(policy, State(), input[i..]) == Chunk(policy, m, input[start..]) && Settled()
    {
      assert Settle(policy, State()) == State();
    }

    /** Deliver one float of an array. */
    method ArrayFloatElement(bits: int) returns (r: Option<Error>)
      requires Idle() && st.StArrFp? && nfp == 0 && remain > 0
      modifies this`idx, this`remain, this`err, this`log
      ensures Valid() && r == err && Settle(policy, State()) == OnArrFloat(policy, old(State()), bits)
    {
      hide Stacked, Accumulator, Settle, Tell;
      var at := idx;
      idx := idx + 1;
      remain := remain - 1;
      r := None;
      if top == Nil {
        CurIsTop();
        TellNil(policy, State());
      } else {
        r := Notify(ArrayFloat(id, at, width, bits));
      }
    }

    /** `FpStep` seen on the machine, inside a float array. */
    method StepArrayFloat(input: Bytes, start: nat) returns (i: nat, ok: bool, bits: int)
      requires Valid() && err.None? && st.StArrFp? && start <= |input|
      modifies this`nfp, fp
      ensures Valid() && start <= i <= |input| && (start < |input| ==> start < i)
      ensures var m := old(State());
              var got, k := m.phase.got, width - |m.phase.got|;
              if |input| - start < k then
                !ok && i == |input| && State() == m.(phase := ArrFp(id, width, total, remain, got + input[start..]))
              else
                ok && i == start + k && nfp == 0 && State() == Skip(m, 0) && bits == Le(got + input[start..start + k])
    {
      hide Stacked, Le;
      i, ok, bits := FpStep(input, start);
    }

    /** One float of an array off the chunk; `more` says whether the chunk held all of it. */
    method NextFloat(input: Bytes, start: nat) returns (r: Option<Error>, i: nat, more: bool)
      requires Valid() && err.None? && st.StArrFp? && remain > 0 && start <= |input|
      modifies this`nfp, this`idx, this`remain, this`err, this`log, fp
      ensures Reached(old(State()), input, start, i) && r == err
      ensures err.None? ==> if more then i > start && nfp == 0 else i == |input| && remain > 0
    {
      hide Valid, State, Stacked, Accumulator, Field, Settle, Chunk, OnArrFloat, Le;
      ghost var m := State();
      LookArrFloat();
      ArrFloatChunk(policy, m, input[start..]);
      var bits, ok;
      i, ok, bits := StepArrayFloat(input, start);
      r, more := None, ok;
      if ok {
        assert input[start..][i - start..] == input[i..];
        assert input[start..][..i - start] == input[start..i];
        BytesForgotten(policy, m, bits);
        r := ArrayFloatElement(bits);
      } else {
        StoppedReached(m, input, start, i);
      }
    }

    /** How many whole floats to jump over, and their length. */
    static method Jump(room: nat, w: int, left: int) returns (avail: nat, bytes: nat)
      requires (w == 4 || w == 8) && left > 0
      ensures avail <= left && bytes == avail * w <= room && (avail == left ==> bytes > 0)
    {
      avail := room / w;
      if avail > left {
        avail := left;
      }
      bytes := avail * w;
      if w == 4 {
        assert bytes == 4 * avail;
      } else {
        assert bytes == 8 * avail;
      }
    }

    method DropFloats(n: nat)
      requires Valid() && err.None? && st.StArrFp? && top == Nil && nfp == 0 && n <= remain
      modifies this`remain
      ensures Valid() && State() == Skip(old(State()), n) && remain == old(remain) - n
    {
      hide Stacked, Accumulator, Partial.Fits;
      assert fp[..0] == [];
      remain := remain - n;
    }

    /** The whole floats of a declined array that lie in the chunk: one jump. */
    method SkipFloats(input: Bytes, start: nat) returns (i: nat)
      requires Valid() && Settled() && err.None? && st.StArrFp? && top == Nil && nfp == 0 && start <= |input|
      modifies this`remain
      ensures Reached(old(State()), input, start, i)
      ensures remain == 0 ==> i > start
    {
      hide Valid, State, Stacked, Accumulator, Field, Partial.Fits, Settle, Chunk;
      LookArrFloat();
      var avail, bytes := Jump(|input| - start, width, remain);
      i := start + bytes;
      JumpReached(input, start, avail, bytes);
      DropFloats(avail);
    }

    lemma JumpReached(input: Bytes, start: nat, avail: nat, bytes: nat)
      requires Valid() && Settled() && err.None? && st.StArrFp? && top == Nil && nfp == 0
      requires avail <= remain && bytes == avail * width && start + bytes <= |input|
      ensures Chunk(policy, State(), input[start..]) == Chunk(policy, Settle(policy, Skip(State(), avail)), input[start + bytes..])
    {
      CurIsTop();
      assert fp[..0] == [];
      assert input[start..][bytes..] == input[start + bytes..];
      assert width > 0 && remain > 0;
      hide Stacked, Accumulator, Partial.Fits, Settle, Chunk, Tell, Field, Valid;
      DeclinedFloats(policy, State(), input[start..], avail);
    }

    /** The rest of a float array, as much of it as the chunk holds. */
    method ArrayFloats(input: Bytes, start: nat) returns (r: Option<Error>, i: nat)
      requires Valid() && Settled() && err.None? && st.StArrFp? && start <= |input|
      modifies this`st, this`nfp, this`idx, this`remain, this`err, this`log, fp
      ensures Valid() && Settled() && r == err && start <= i <= |input|
      ensures err.None? ==> if st.StArrFp? then i == |input| else i > start
      ensures Chunk(policy, State(), input[i..]) == Chunk(policy, old(State()), input[start..])
    {
      hide Valid, State, Stacked, Accumulator, Field, Settle, Chunk;
      ghost var m0 := State();
      SettledReached(m0, input, start);
      i := start;
      r := None;
      if top == Nil && nfp == 0 {
        i := SkipFloats(input, start);
      }
      var more := true;
      while r.None? && more && remain > 0
        invariant Reached(m0, input, start, i) && r == err && st.StArrFp?
        invariant err.None? ==> if more then remain == 0 ==> i > start else i == |input| && remain > 0
        decreases |input| - i, more, r.None?
      {
        SettledReached(State(), input, i);
        r, i, more := NextFloat(input, i);
      }
      if r.None? && more {
        NoVarintHere();
        r := FinishArray();
      } else {
        UnsettledOnly(m0, input, start, i);
      }
    }

    lemma NoVarintHere()
      requires Valid() && err.None? && (st.StArrFp? || st.StFixFp? || st.StFixBytes?)
      ensures nb == 0
    {
    }

    /* ----- the state machine ----- */

    /** What a completed varint does outside an integer array. */
    method OnValue(v: U64) returns (r: Option<Error>)
      requires Idle() && InVarint() && !InElements()
      modifies this, stack, spDone
      ensures Valid() && Settled() && r == err && State() == OnVarint(policy, old(State()), v)
    {
      hide Stacked, Partial.Fits, Tell, OnHeader, OnFixWord, OnCount, OnArrWord;
      match st
      case StHeader =>
        r := HeaderValue(v);
      case StScalarU =>
        st := StHeader;
        r := Notify(Unsigned(id, v));
      case StScalarS =>
        st := StHeader;
        r := Notify(Signed(id, Unzigzag(v)));
      case StFixWord =>
        r := FixlenWord(v);
      case StArrCount =>
        r := ArrayCount(v);
      case StArrWord =>
        r := FixlenArrayWord(v);
    }

    /** A header: the id ceiling binds every one, the sequence end included. */
    method HeaderValue(h: U64) returns (r: Option<Error>)
      requires Idle() && st.StHeader?
      modifies this`id, this`st, this`wire, this`kind, this`err, this`log, this`depth, this`skipFrom, this`top, stack, spDone
      ensures Valid() && r == err && State() == OnHeader(policy, old(State()), h)
      ensures err.None? ==> !InElements() && !st.StArrFp?
    {
      hide Stacked, Accumulator, Partial.Fits, Opened, Closed;
      if h / 8 > ID_MAX {
        r := Fail(InvalidMsg);
      } else {
        id := h / 8;
        assert h == 8 * (h / 8) + h % 8;
        r := Header(h % 8);
      }
    }

    /** One field varint and what it does, or as much of it as the chunk holds. */
    method VarintField(input: Bytes, start: nat) returns (r: Option<Error>, i: nat, more: bool)
      requires Valid() && Settled() && err.None? && InVarint() && !InElements() && start <= |input|
      modifies this, stack, spDone
      ensures Valid() && Settled() && r == err && start <= i <= |input|
      ensures err.None? ==> if more then i > start else i == |input|
      ensures Chunk(policy, State(), input[i..]) == Chunk(policy, old(State()), input[start..])
    {
      hide Valid, State, Stacked, Accumulator, Field, Partial.Fits, Chunk, OnVarint, ReadVarint;
      ghost var m := State();
      Look();
      VarintChunk(policy, m, input[start..]);
      ReadVarintBounds(m.part, input[start..]);
      var v, ok;
      v, i, ok := FieldVarint(input, start);
      r, more := err, ok;
      if ok {
        assert input[start..][i - start..] == input[i..];
        r := OnValue(v);
      } else {
        ChunkStops(policy, State(), input[i..]);
      }
    }

    /** `FpStep` seen on the machine, inside a float scalar. */
    method StepFloat(input: Bytes, start: nat) returns (i: nat, ok: bool, bits: int)
      requires Valid() && err.None? && st.StFixFp? && start <= |input|
      modifies this`nfp, this`st, fp
      ensures start <= i <= |input| && (start < |input| ==> start < i) && Valid()
      ensures var m := old(State());
              var got, k := m.phase.got, width - |m.phase.got|;
              if |input| - start < k then
                !ok && i == |input| && st.StFixFp? && State() == m.(phase := Fp(id, width, got + input[start..]))
              else
                ok && i == start + k && st.StHeader? && State() == m.(phase := Phase.Header)
                && bits == Le(got + input[start..start + k])
    {
      hide Stacked, Partial.Fits, Le;
      i, ok, bits := FpStep(input, start);
      if ok {
        st := StHeader;
      }
    }

    lemma LookFloat()
      requires Valid() && err.None? && st.StFixFp?
      ensures Shape() && (width == 4 || width == 8) && nfp < width && nb == 0
      ensures State().Live? && State().phase == Fp(id, width, fp[..nfp])
    {
      hide Stacked, Partial.Fits;
    }

    /** A float scalar, or as much of it as the chunk holds. */
    method FloatField(input: Bytes, start: nat) returns (r: Option<Error>, i: nat, more: bool)
      requires Valid() && err.None? && st.StFixFp? && start <= |input|
      modifies this`st, this`nfp, this`err, this`log, fp
      ensures Valid() && Settled() && r == err && start <= i <= |input|
      ensures err.None? ==> if more then i > start else i == |input|
      ensures Chunk(policy, State(), input[i..]) == Chunk(policy, old(State()), input[start..])
    {
      hide Valid, State, Stacked, Accumulator, Field, Partial.Fits, Chunk, Tell, Le;
      ghost var m := State();
      LookFloat();
      FloatChunk(policy, m, input[start..]);
      var bits, ok;
      i, ok, bits := StepFloat(input, start);
      r, more := None, ok;
      if ok {
        assert input[start..][i - start..] == input[i..];
        assert input[start..][..i - start] == input[start..i];
        r := Notify(Float(id, width, bits));
      } else {
        ChunkStops(policy, State(), input[i..]);
      }
    }

    lemma LookPayload()
      requires Valid() && err.None? && st.StFixBytes?
      ensures nb == 0 && State().Live? && State().phase == Payload(id, sub, total, off) && off + remain == total && remain > 0
    {
      hide Stacked, Partial.Fits;
    }

    /** One piece of a payload, or nothing when the chunk is used up. */
    method PayloadField(input: Bytes, start: nat) returns (r: Option<Error>, i: nat, more: bool)
      requires Valid() && err.None? && st.StFixBytes? && start <= |input|
      modifies this`st, this`off, this`remain, this`err, this`log
      ensures Valid() && Settled() && r == err && start <= i <= |input|
      ensures err.None? ==> if more then i > start else i == |input|
      ensures Chunk(policy, State(), input[i..]) == Chunk(policy, old(State()), input[start..])
    {
      hide Valid, State, Stacked, Accumulator, Field, Partial.Fits, TakePiece;
      r, i, more := None, start, false;
      if start < |input| {
        ghost var s := input[start..];
        LookPayload();
        r, i := PayloadPiece(input, start);
        more := true;
        assert s[..i - start] == input[start..i] && s[i - start..] == input[i..];
      }
    }

    /** One turn of the state machine. `more` is false when the chunk is used up. */
    method Advance(input: Bytes, start: nat) returns (r: Option<Error>, i: nat, more: bool)
      requires Valid() && Settled() && err.None? && start <= |input|
      modifies this, stack, spDone, fp
      ensures Valid() && Settled() && r == err && start <= i <= |input|
      ensures err.None? ==> if more then i > start else i == |input|
      ensures Chunk(policy, State(), input[i..]) == Chunk(policy, old(State()), input[start..])
    {
      hide Valid, State, Settled, Chunk;
      if st.StFixFp? {
        r, i, more := FloatField(input, start);
      } else if st.StFixBytes? {
        r, i, more := PayloadField(input, start);
      } else if InElements() {
        r, i := ArrayElements(input, start);
        more := !InElements();
      } else if st.StArrFp? {
        r, i := ArrayFloats(input, start);
        more := !st.StArrFp?;
      } else {
        r, i, more := VarintField(input, start);
      }
    }

    /** The state machine over one chunk. */
    method RunChunk(input: Bytes) returns (r: Option<Error>)
      requires Valid() && Settled() && err.None?
      modifies this, stack, spDone, fp
      ensures Valid() && Settled() && r == err
      ensures State() == Chunk(policy, old(State()), input)
    {
      hide Valid, State, Settled, Chunk;
      ghost var goal := Chunk(policy, State(), input);
      assert input[0..] == input;
      var i, more := 0, true;
      r := None;
      while r.None? && more
        invariant Valid() && Settled() && r == err && i <= |input|
        invariant Chunk(policy, State(), input[i..]) == goal
        invariant !more && err.None? ==> i == |input|
        decreases |input| - i, more, r.None?
      {
        r, i, more := Advance(input, i);
      }
      StoppedHere(input, i);
    }

    lemma StoppedHere(input: Bytes, i: nat)
      requires Valid() && i <= |input| && (err.None? ==> i == |input|)
      ensures Chunk(policy, State(), input[i..]) == State()
    {
      ChunkStops(policy, State(), input[i..]);
    }

    /** The verdict for the bytes consumed so far, from the decoder's own state. */
    function Verdict(): Outcome
      reads this
    {
      if err.Some? then Invalid
      else if st.StHeader? && nb == 0 && depth == 0 then Complete
      else Incomplete
    }

    /** The next chunk of the stream: the decoder moves exactly as the machine does,
        callback by callback, whatever the chunk's size. */
    method Feed(chunk: Bytes) returns (out: Outcome, e: Option<Error>)
      requires Valid() && Settled()
      modifies this, stack, spDone, fp
      ensures Valid() && Settled()
      ensures State() == Chunk(policy, old(State()), chunk)
      ensures out == OutcomeOf(State()) && (out.Invalid? <==> e.Some?) && (e.Some? ==> e == Some(State().why))
    {
      hide Chunk;
      if err.Some? {
        ChunkStops(policy, State(), chunk);
        return Invalid, err;
      }
      var r := RunChunk(chunk);
      if r.Some? {
        return Invalid, r;
      }
      return Verdict(), None;
    }
  }
}
