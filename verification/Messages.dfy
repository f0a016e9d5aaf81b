/** Whole encodes: any calls, through any buffer, against the endless one of `Serializer`. */
module Messages {
  import opened Wire
  import opened Serializer
  import opened Machine
  import opened Chunking
  import opened EndToEnd
  import Spelled
  import D = Decoder
  import E = Encoder
  import S = Spelling

  method Perform(e: E.Encoder, op: Op)
    requires e.Valid() && (op.Put? ==> op.value.Typed())
    modifies e, e.Repr()
    ensures e.Valid() && fresh(e.Repr() - old(e.Repr()))
    ensures e.Obeyed(op)
  {
    hide Apply, E.Encoder.Untouched, E.Encoder.Framing, E.Encoder.Emitted, E.Encoder.Out;
    match op
    case Begin(id) => var _ := e.WriteSequenceBeginLazy(id);
    case End => var _ := e.WriteSequenceEnd();
    case EndKeep => var _ := e.WriteSequenceEndKeep();
    case Put(id, value) =>
      match value
      case VUnsigned(v) => var _ := e.WriteUnsigned(id, v);
      case VSigned(v) => var _ := e.WriteSigned(id, v);
      case VFloat(w, bits) => var _ := e.WriteFloat(id, w, bits);
      case VText(bs) => var _ := e.WriteString(id, bs);
      case VBlob(bs) => var _ := e.WriteBytes(id, bs);
      case VUnsignedArray(a) => var _ := e.WriteUnsignedArray(id, a);
      case VSignedArray(a) => var _ := e.WriteSignedArray(id, a);
      case VFloatArray(w, words) => var _ := e.WriteFloatArray(id, w, words);
  }

  /** The encoder is where the endless one is; or it stopped with a prefix of its output, for
      the same argument error, or because the buffer is too small or downstream refused. */
  ghost predicate Follows(now: E.View, ideal: Encoding, ref: Encoding) {
    if now.err.None? then ideal == ref
    else
      && now.out <= ref.out
      && (now.err == ref.err || (now.err == now.blame && now.home.MayStop(|ref.out|)))
  }

  lemma OutGrows(lim: Limits, e: Encoding, op: Op)
    ensures var g := Apply(lim, e, op);
            e.out <= g.out && (if e.err.Some? then g == e else g.err.None? || g.err == Some(Argument))
  {
    hide Heads, FieldBytes, Refused;
  }

  /** One call on both. */
  method Call(e: E.Encoder, op: Op, ghost ref: Encoding)
    requires e.Valid() && (op.Put? ==> op.value.Typed())
    requires Follows(e.Now(), e.Ideal(), ref)
    modifies e, e.Repr()
    ensures e.Valid() && fresh(e.Repr() - old(e.Repr())) && e.Home() == old(e.Home())
    ensures Follows(e.Now(), e.Ideal(), Apply(e.Lim(), ref, op))
  {
    hide Apply, E.Encoder.Untouched, E.Encoder.Framing;
    OutGrows(e.Lim(), ref, op);
    Perform(e, op);
    e.OutWithin();
  }

  /** Any calls at all, at every call boundary. */
  method WriteAll(e: E.Encoder, ops: seq<Op>)
    requires e.Valid() && TypedOps(ops)
    modifies e, e.Repr()
    ensures e.Valid() && fresh(e.Repr() - old(e.Repr())) && e.Home() == old(e.Home())
    ensures Follows(e.Now(), e.Ideal(), ApplyAll(e.Lim(), old(e.Ideal()), ops))
  {
    hide Apply, E.Encoder.Untouched, E.Encoder.Framing, E.Encoder.Emitted;
    ghost var start := e.Ideal();
    for i := 0 to |ops|
      invariant e.Valid() && fresh(e.Repr() - old(e.Repr())) && e.Home() == old(e.Home())
      invariant Follows(e.Now(), e.Ideal(), ApplyAll(e.Lim(), start, ops[..i]))
    {
      assert ops[..i + 1][..i] == ops[..i];
      Call(e, ops[i], ApplyAll(e.Lim(), start, ops[..i]));
    }
    assert ops[..|ops|] == ops;
  }

  /** A sink-less encode is exact: it succeeds just when the message fits behind the offset,
      and touches nothing else of the caller's buffer either way. */
  method EncodeInto(b: array<Byte>, offset: int, maxDepth: int, admits: Bytes -> bool, ops: seq<Op>)
    returns (out: Bytes, err: Option<Error>)
    requires TypedOps(ops)
    modifies b
    ensures !(0 <= offset <= b.Length) ==> err == Some(Argument) && unchanged(b)
    ensures 0 <= offset <= b.Length ==>
              var lim := Limits(if 1 <= maxDepth <= 255 then maxDepth else 255, admits);
              var ref := ApplyAll(lim, EMPTY, ops);
              && offset + |out| <= b.Length
              && b[..] == old(b[..])[..offset] + out + old(b[..])[offset + |out|..]
              && out <= ref.out
              && (err.None? <==> Acceptable(lim, ops) && offset + |ref.out| <= b.Length)
              && (err.None? ==> out == ref.out)
              && (Acceptable(lim, ops) && err.Some? ==> err == Some(BufferFull))
  {
    hide Acceptable, ApplyAll, E.Encoder.Untouched, E.Encoder.Framing, E.Encoder.Emitted;
    var e;
    e, err := E.NewEncoderBuffer(b, offset, maxDepth, admits);
    if e == null { return [], err; }
    AcceptedExactly(e.Lim(), ops);
    WriteAll(e, ops);
    err := e.Flush();
    out := e.GetBytes();
  }

  /** The first error does not survive `GetBytes` on a staged tail that does not fit: a field
      written into an empty buffer, an argument error from the next call, and then the bytes
      are asked for. `GetBytes` says exactly when this happens. */
  method BytesOverwritesAnError(admits: Bytes -> bool) returns (first: Option<Error>, last: Option<Error>)
    ensures first == Some(Argument) && last == Some(BufferFull)
  {
    hide E.Encoder.Framing, E.Encoder.Ledger, Leb;
    var b := new Byte[0];
    var e, err := E.NewEncoderBuffer(b, 0, 1, admits);
    first := e.WriteUnsigned(0, 1);
    first := e.WriteUnsigned(ID_MAX + 1, 0);
    var _ := e.GetBytes();
    last := e.err;
  }

  /** A whole message through a writer or a sink: unless it stops with an error, downstream
      has been handed exactly the endless encoder's bytes, however the buffers cut them. With
      a willing downstream the only error is the endless encoder's own. */
  method Send(e: E.Encoder, ops: seq<Op>) returns (err: Option<Error>)
    requires e.Valid() && TypedOps(ops) && !e.form.NoSink? && e.Ideal() == EMPTY
    modifies e, e.Repr()
    ensures e.Valid() && err == e.err
    ensures var ref := ApplyAll(e.Lim(), EMPTY, ops);
      && (err.None? ==> e.Ideal() == ref && e.down == ref.out)
      && (err.Some? ==> e.down <= ref.out && (err == ref.err || (err == e.refusal && !E.Willing(e.form))))
      && (err.None? ==> Acceptable(e.Lim(), ops))
      && (E.Willing(e.form) ==> err == if Acceptable(e.Lim(), ops) then None else Some(Argument))
    ensures err.None? && Balance(ops) == 0 ==>
              |Build(ops)| == 1 && S.Message(e.down) == S.Read(Spelled.Plain(Prune(Build(ops)[0].kids)), [])
  {
    hide Acceptable, Balance, Build, Prune, Spelled.Plain, S.Message, ApplyAll, E.Encoder.Untouched, E.Encoder.Framing, E.Encoder.Emitted;
    AcceptedExactly(e.Lim(), ops);
    WriteAll(e, ops);
    err := e.Flush();
    e.NestingBound();
    if err.None? && Balance(ops) == 0 { Spelled.MessageIsSpelled(e.Lim(), ops); }
  }

  /** Feed `s` in pieces of the asked sizes, and then what is left. */
  method FeedAll(d: D.Decoder, s: Bytes, sizes: seq<nat>) returns (out: Outcome, ghost cs: seq<Bytes>)
    requires d.Valid() && d.Settled()
    modifies d, d.stack, d.spDone, d.fp
    ensures d.Valid() && d.Settled() && Flatten(cs) == s
    ensures d.State() == Feeds(d.policy, old(d.State()), cs) && out == OutcomeOf(d.State())
  {
    hide Feeds, Chunk, OutcomeOf, Flatten;
    cs := [];
    ghost var m := d.State();
    NoChunks(d.policy, m);
    var i: nat, e := 0, None;
    for k := 0 to |sizes|
      invariant i <= |s| && d.Valid() && d.Settled()
      invariant Flatten(cs) == s[..i] && d.State() == Feeds(d.policy, m, cs)
    {
      var n := if sizes[k] <= |s| - i then sizes[k] else |s| - i;
      out, e := d.Feed(s[i..i + n]);
      FeedsMore(d.policy, m, cs, s[i..i + n]);
      assert s[..i] + s[i..i + n] == s[..i + n];
      cs := cs + [s[i..i + n]];
      i := i + n;
    }
    out, e := d.Feed(s[i..]);
    FeedsMore(d.policy, m, cs, s[i..]);
    assert s[..i] + s[i..] == s;
    cs := cs + [s[i..]];
  }

  lemma NoChunks(pol: Policy, m: Machine)
    ensures Feeds(pol, m, []) == m && Flatten([]) == []
  {
  }

  /** End to end, on the encoder and the decoder themselves: any balanced calls, any sink
      and buffers it accepts, any offset, any cutting of the bytes on the way. With a willing
      downstream it succeeds for all calls without an argument error. */
  method Transfer(e: E.Encoder, root: Visitor, ops: seq<Op>, sizes: seq<nat>) returns (out: Outcome, d: D.Decoder, err: Option<Error>)
    requires e.Valid() && TypedOps(ops) && !e.form.NoSink? && e.Ideal() == EMPTY && root != Nil
    modifies e, e.Repr()
    ensures d.Valid() && d.policy == AcceptAll()
    ensures err.None? ==> Acceptable(e.Lim(), ops)
    ensures E.Willing(e.form) && Acceptable(e.Lim(), ops) ==> err.None?
    ensures err.None? && Balance(ops) == 0 ==>
              && out == Complete && |Build(ops)| == 1
              && Join(d.State().All()) == Report(root, Prune(Build(ops)[0].kids))
  {
    hide Acceptable, Balance, ApplyAll, Feeds, Chunk, OutcomeOf, Flatten, Join, Report, Prune, Build, AcceptAll, E.Encoder.Untouched, E.Encoder.Emitted;
    err := Send(e, ops);
    d := new D.Decoder(AcceptAll(), root);
    ghost var cs;
    out, cs := FeedAll(d, e.down, sizes);
    if err.None? && Balance(ops) == 0 {
      AcceptedExactly(e.Lim(), ops);
      MessageRoundTrip(e.Lim(), ops, root, cs);
    }
  }
}
