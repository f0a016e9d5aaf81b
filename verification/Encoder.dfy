/** encoder.go: the encoder over a bounded buffer, in its three forms. Every write is
    proved against `Serializer.Apply`, the same call with nowhere to run out of room. */
module Encoder {
  import opened Wire
  import opened Serializer
  import Varint

  const MIN_OUTPUT_BUFFER: nat := 20
  const ENC_WINDOW: nat := 512

  /** What a sink does about the buffer it was handed: it copied the bytes, it installs
      the same buffer again, or it took the buffer and installs one of `size` bytes. */
  datatype Handover = Copied | Rearmed(offset: int) | Took(size: nat, offset: int)

  /** Where the bytes go. Each flush is answered as a writer or a sink pleases: by its number
      and its bytes, and for a sink by the size of the buffer they are in. */
  datatype Form =
    | ToWriter(writer: (nat, Bytes) -> Option<Error>)
    | ToSink(sink: (nat, Bytes, nat) -> (Handover, Option<Error>))
    | NoSink

  /** A buffer a sink may leave behind when it was handed one of `size` bytes. */
  predicate Welcome(handover: Handover, size: nat) {
    match handover
    case Copied => true
    case Rearmed(offset) => 0 <= offset && size - offset >= MIN_OUTPUT_BUFFER
    case Took(next, offset) => 0 <= offset && next - offset >= MIN_OUTPUT_BUFFER
  }

  /** The error the `k`-th flush ends with, of `b` out of a buffer of `size` bytes: downstream's
      own, or an argument error for a buffer that cannot be installed. */
  function Answer(form: Form, k: nat, b: Bytes, size: nat): Option<Error> {
    match form
    case ToWriter(writer) => writer(k, b)
    case ToSink(sink) =>
      var (handover, verdict) := sink(k, b, size);
      if Welcome(handover, size) then verdict else Some(Argument)
    case NoSink => None
  }

  /** Downstream that never refuses and installs only acceptable buffers. */
  ghost predicate Willing(form: Form) {
    forall k: nat, b: Bytes, size: nat :: size >= MIN_OUTPUT_BUFFER ==> Answer(form, k, b, size).None?
  }

  /** Where the bytes end up: downstream, or in a buffer the caller installed at an offset. */
  datatype Home = Downstream(willing: bool) | Held(b: array<Byte>, before: Bytes, origin: nat) {
    /** What may stop an encode of `size` bytes: a refusal downstream, or a buffer too small. */
    predicate MayStop(size: nat) { if Held? then size > Cap() else !willing }

    /** How many bytes it can hold. */
    function Cap(): int { if Held? then |before| - origin else 0 }

    /** It holds `x` at the offset, and is otherwise as it was installed. */
    ghost predicate InPlace(x: Bytes)
      reads if Held? then {b} else {}
    {
      Held? && origin + |x| <= |before| && b[..] == before[..origin] + x + before[origin + |x|..]
    }
  }

  /** What a caller can rely on: the bytes taken downstream or held for it, the error, and
      who is to blame when a write fails: the full buffer, or downstream's own refusal. */
  datatype View = View(home: Home, out: Bytes, err: Option<Error>, blame: Option<Error>)

  /** What a write of `x` does: nothing once an error is held; all of it; or a prefix of
      it and the error, which a sink-less buffer gives only when the bytes do not fit, and
      the other forms only when downstream is not willing. */
  ghost predicate Wrote(a: View, x: Bytes, b: View) {
    && b.home == a.home
    && if a.err.Some? then b == a
       else if b.err.None? then b.out == a.out + x
       else b.out <= a.out + x && b.err == b.blame && a.home.MayStop(|a.out| + |x|)
  }

  lemma WroteThen(a: View, x: Bytes, b: View, y: Bytes, c: View)
    requires Wrote(a, x, b) && Wrote(b, y, c)
    ensures Wrote(a, x + y, c)
  {
    assert a.out + (x + y) == a.out + x + y;
  }

  lemma WroteNothing(a: View)
    ensures a.err.Some? || a.out == a.out + []
    ensures Wrote(a, [], a)
  {
  }

  /** The bounds the buffer rules come to: 20 bytes behind the offset. */
  lemma WelcomeExactly(size: nat, next: nat, offset: int)
    ensures Welcome(Copied, size)
    ensures Welcome(Rearmed(offset), size) <==> 0 <= offset && offset + 20 <= size
    ensures Welcome(Took(next, offset), size) <==> 0 <= offset && offset + 20 <= next
  {
  }

  /** The nesting bound an option asks for, or the format's. */
  function DepthBound(d: int): (b: nat)
    ensures 1 <= b <= MAX_DEPTH
  {
    if d <= 0 || d > MAX_DEPTH then MAX_DEPTH else d
  }

  /** Bytes copied into an array, nothing else touched. */
  method Store(b: array<Byte>, at: nat, x: Bytes)
    requires at + |x| <= b.Length
    modifies b
    ensures b[..] == old(b[..])[..at] + x + old(b[..])[at + |x|..]
  {
    forall k | 0 <= k < |x| { b[at + k] := x[k]; }
  }

  /** Writing a header behind the held ones and a body behind both is writing a field. */
  lemma FieldThen(a: View, heads: Bytes, head: Bytes, b: View, body: Bytes, c: View)
    requires Wrote(a, heads + head, b) && Wrote(b, body, c)
    ensures Wrote(a, heads + (head + body), c)
  {
    hide Wrote;
    WroteThen(a, heads + head, b, body, c);
    assert heads + (head + body) == heads + head + body;
  }

  lemma Appended(a: View, x: Bytes, b: View)
    requires a.err.None? && b == a.(out := a.out + x)
    ensures Wrote(a, x, b)
  {
  }

  /** Nothing is left to write, or an error makes the rest a no-op. */
  lemma RestUnwritten(a: View, x: Bytes)
    requires a.err.Some? || x == []
    ensures Wrote(a, x, a)
  {
    WroteNothing(a);
  }

  lemma FieldApplied(lim: Limits, e: Encoding, id: nat, value: Value)
    ensures var g := Apply(lim, e, Put(id, value));
            e.err.None? ==> if Refused(lim, e, Put(id, value)) then g == e.(err := Some(Argument))
                            else g == e.(out := e.out + (Heads(e.pending) + FieldBytes(id, value)), pending := [])
  {
    hide Heads, FieldBytes, Refused;
    assert e.out + (Heads(e.pending) + FieldBytes(id, value)) == e.out + Heads(e.pending) + FieldBytes(id, value);
  }

  /* ----- runs of array elements ----- */

  function Words<T>(a: seq<T>, word: T -> U64): (ws: seq<U64>)
    ensures |ws| == |a| && forall i :: 0 <= i < |a| ==> ws[i] == word(a[i])
  {
    seq(|a|, i requires 0 <= i < |a| => word(a[i]))
  }

  lemma {:induction false} LebRunMore(ws: seq<U64>, w: U64)
    ensures LebRun(ws + [w]) == LebRun(ws) + Leb(w)
    decreases |ws|
  {
    hide Leb;
    if ws == [] {
      assert [w][1..] == [] && ws + [w] == [w];
      assert LebRun([]) == [];
    } else {
      assert (ws + [w])[1..] == ws[1..] + [w];
      LebRunMore(ws[1..], w);
    }
  }

  lemma {:induction false} LeRunMore(width: nat, ws: seq<nat>, w: nat)
    ensures LeRun(width, ws + [w]) == LeRun(width, ws) + LeBytes(w, width)
    decreases |ws|
  {
    hide LeBytes;
    if ws == [] {
      assert [w][1..] == [] && ws + [w] == [w];
      assert LeRun(width, []) == [];
    } else {
      assert (ws + [w])[1..] == ws[1..] + [w];
      LeRunMore(width, ws[1..], w);
    }
  }

  lemma {:induction false} LebRunThen(a: seq<U64>, b: seq<U64>)
    ensures LebRun(a + b) == LebRun(a) + LebRun(b)
    decreases |b|
  {
    hide Leb;
    if b == [] {
      assert a + b == a;
    } else {
      var init, w := b[..|b| - 1], b[|b| - 1];
      assert a + b == (a + init) + [w] && b == init + [w];
      LebRunThen(a, init);
      LebRunMore(a + init, w);
      LebRunMore(init, w);
    }
  }

  lemma {:induction false} LeRunThen(width: nat, a: seq<nat>, b: seq<nat>)
    ensures LeRun(width, a + b) == LeRun(width, a) + LeRun(width, b)
    decreases |b|
  {
    hide LeBytes;
    if b == [] {
      assert a + b == a;
    } else {
      var init, w := b[..|b| - 1], b[|b| - 1];
      assert a + b == (a + init) + [w] && b == init + [w];
      LeRunThen(width, a, init);
      LeRunMore(width, a + init, w);
      LeRunMore(width, init, w);
    }
  }

  /** A splice behind a splice. */
  lemma Spliced(was: Bytes, at: nat, run: Bytes, mid: Bytes, x: Bytes, now: Bytes)
    requires at + |run| + |x| <= |was| == |mid|
    requires mid == was[..at] + run + was[at + |run|..]
    requires now == mid[..at + |run|] + x + mid[at + |run| + |x|..]
    ensures now == was[..at] + (run + x) + was[at + |run| + |x|..]
  {
    assert mid[..at + |run|] == was[..at] + run;
    assert mid[at + |run| + |x|..] == was[at + |run| + |x|..];
  }

  lemma NoWords()
    ensures LebRun([]) == [] && forall w: nat :: LeRun(w, []) == []
  {
  }

  method PutElement(b: array<Byte>, w: nat, v: U64, ghost was: Bytes, ghost at: nat, ghost run: Bytes) returns (nw: nat)
    requires w == at + |run| && w + MAX_VARINT_LEN <= b.Length == |was| && b[..] == was[..at] + run + was[w..]
    modifies b
    ensures nw == w + |Leb(v)| <= b.Length && b[..] == was[..at] + (run + Leb(v)) + was[nw..]
  {
    hide Leb;
    ghost var mid := b[..];
    nw := Varint.PutUvarint(b, w, v);
    Spliced(was, at, run, mid, Leb(v), b[..]);
  }

  /** Elements written through an advancing window until it can no longer hold a whole
      varint; `w` is where the window now begins. */
  method FillWords<T>(b: array<Byte>, at: nat, a: seq<T>, word: T -> U64, i: nat) returns (j: nat, w: nat)
    requires i < |a| && at + MAX_VARINT_LEN <= b.Length
    modifies b
    ensures i < j <= |a| && w == at + |LebRun(Words(a, word)[i..j])| <= b.Length
    ensures j == |a| || b.Length - w < MAX_VARINT_LEN
    ensures b[..] == old(b[..])[..at] + LebRun(Words(a, word)[i..j]) + old(b[..])[w..]
  {
    hide Leb, LebRun, Words;
    ghost var was, ws, run: Bytes := b[..], Words(a, word), [];
    NoWords();
    assert ws[i..i] == [];
    assert was == was[..at] + [] + was[at..];
    j, w := i, at;
    while j < |a| && b.Length - w >= MAX_VARINT_LEN
      invariant i <= j <= |a| && (j == i ==> w == at)
      invariant run == LebRun(ws[i..j]) && w == at + |run| <= b.Length
      invariant b[..] == was[..at] + run + was[w..]
    {
      w := PutElement(b, w, word(a[j]), was, at, run);
      LebRunMore(ws[i..j], ws[j]);
      assert ws[i..j] + [ws[j]] == ws[i..j + 1];
      run := run + Leb(ws[j]);
      j := j + 1;
    }
  }

  /** The same for elements of a fixed width. */
  method FillFloats(b: array<Byte>, at: nat, width: nat, a: seq<nat>, i: nat) returns (j: nat, w: nat)
    requires i < |a| && width > 0 && at + width <= b.Length
    modifies b
    ensures i < j <= |a| && w == at + |LeRun(width, a[i..j])| <= b.Length
    ensures j == |a| || b.Length - w < width
    ensures b[..] == old(b[..])[..at] + LeRun(width, a[i..j]) + old(b[..])[w..]
  {
    hide LeBytes, LeRun;
    ghost var was, run: Bytes := b[..], [];
    NoWords();
    assert a[i..i] == [];
    assert was == was[..at] + [] + was[at..];
    j, w := i, at;
    while j < |a| && b.Length - w >= width
      invariant i <= j <= |a| && (j == i ==> w == at)
      invariant run == LeRun(width, a[i..j]) && w == at + |run| <= b.Length
      invariant b[..] == was[..at] + run + was[w..]
    {
      ghost var mid := b[..];
      var x := LeBytes(a[j], width);
      Store(b, w, x);
      w := w + width;
      Spliced(was, at, run, mid, x, b[..]);
      LeRunMore(width, a[i..j], a[j]);
      assert a[i..j] + [a[j]] == a[i..j + 1];
      run := run + x;
      j := j + 1;
    }
  }

  class Encoder {
    const form: Form
    const maxDepth: nat
    const admits: Bytes -> bool
    const scratch: array<Byte>

    var buf: array<Byte>
    var n: nat
    var start: nat
    var err: Option<Error>
    var depth: nat
    var installed: bool
    var pending: seq<nat>
    /** The caller's buffer once its tail is staged, with the cursor it had. */
    var staging: bool
    var dst: array<Byte>
    var dstN: nat
    var dstStart: nat

    /** Downstream: all bytes it took, how many times it was called, its last refusal. */
    var down: Bytes
    var flushes: nat
    var refusal: Option<Error>

    /** The bytes of the last flush, and the size of the buffer they were in. */
    ghost var handed: Bytes
    ghost var span: nat

    /** The caller's sink-less buffer as it was installed, and the offset it was given. */
    ghost var before: Bytes
    ghost var origin: nat

    ghost function Repr(): set<object>
      reads this`buf, this`dst
    {
      {buf, dst, scratch}
    }

    /** The cursors and the buffer each form works in. */
    ghost predicate Window()
      reads this`buf, this`n, this`start, this`staging, this`dst, this`dstN, this`dstStart, this`down
    {
      && scratch.Length == MIN_OUTPUT_BUFFER && start <= n <= buf.Length
      && (form.ToWriter? ==> buf.Length == ENC_WINDOW && !staging && start == 0)
      && (form.ToSink? ==> buf.Length - start >= MIN_OUTPUT_BUFFER && !staging)
      && (form.NoSink? ==> down == [])
      && (staging ==> buf == scratch && start == 0 && dstStart <= dstN <= dst.Length && dst != scratch)
      && (!staging ==> buf != scratch)
    }

    /** The caller's sink-less buffer outside what has been written into it. */
    ghost predicate Untouched()
      reads this`buf, this`n, this`start, this`staging, this`dst, this`dstN, this`dstStart, this`before, this`origin, buf, dst
    {
      form.NoSink? ==>
        if staging then
          && origin == dstStart <= dstN <= dst.Length == |before|
          && dst[..origin] == before[..origin] && dst[dstN..] == before[dstN..]
        else
          && origin == start <= n <= buf.Length == |before|
          && buf[..origin] == before[..origin] && buf[n..] == before[n..]
    }

    ghost predicate Framing()
      reads this`depth, this`pending
    {
      |pending| <= depth <= maxDepth <= MAX_DEPTH && forall i :: 0 <= i < |pending| ==> pending[i] <= ID_MAX
    }

    /** The last refusal is what downstream answered to the last flush, and ends the encode. */
    ghost predicate Ledger()
      reads this`err, this`flushes, this`refusal, this`handed, this`span
    {
      && refusal == (if flushes == 0 then None else Answer(form, flushes, handed, span))
      && (err.None? ==> refusal.None?)
    }

    ghost predicate Valid()
      reads this, buf, dst
    {
      Window() && Untouched() && Framing() && Ledger()
    }

    /** Everything emitted: taken downstream or waiting in the buffer. */
    ghost function Emitted(): Bytes
      reads this`buf, this`n, this`start, this`staging, this`dst, this`dstN, this`dstStart, this`down, buf, dst
      requires Window()
    {
      if staging then dst[dstStart..dstN] + buf[..n] else down + buf[start..n]
    }

    /** With an error, only what downstream took counts. */
    ghost function Out(): Bytes
      reads this`buf, this`n, this`start, this`staging, this`dst, this`dstN, this`dstStart, this`down, this`err, buf, dst
      requires Window()
    {
      if err.Some? && !form.NoSink? then down else Emitted()
    }

    lemma OutWithin()
      requires Window()
      ensures Out() <= Emitted() && (err.None? || form.NoSink? ==> Out() == Emitted())
    {
    }

    ghost function Home(): Home
      reads this`buf, this`staging, this`dst, this`before, this`origin
    {
      if form.NoSink? then Held(if staging then dst else buf, before, origin) else Downstream(Willing(form))
    }

    ghost function Cap(): int
      reads this`buf, this`staging, this`dst, this`before, this`origin
    {
      Home().Cap()
    }

    ghost function Now(): View
      reads this, buf, dst
      requires Window()
    {
      View(Home(), Out(), err, if form.NoSink? then Some(BufferFull) else refusal)
    }

    /* ----- into the buffer ----- */

    /** Emitting bytes is moving the cursor over them. */
    lemma Advanced(was: Bytes, at: nat, x: Bytes, e0: Bytes)
      requires Window() && at + |x| == n && start <= at && |was| == buf.Length && n <= buf.Length
      requires buf[..] == was[..at] + x + was[n..]
      requires e0 == if staging then dst[dstStart..dstN] + was[..at] else down + was[start..at]
      ensures Emitted() == e0 + x
      ensures buf[..start] == was[..start] && buf[n..] == was[n..]
    {
      var now := buf[..];
      assert now[start..n] == was[start..at] + x;
      assert now[..n] == was[..at] + x;
      assert buf[start..n] == now[start..n] && buf[..n] == now[..n];
      assert buf[..start] == now[..start] && buf[n..] == now[n..];
      if staging {
        assert dst[dstStart..dstN] + (was[..at] + x) == dst[dstStart..dstN] + was[..at] + x;
      } else {
        assert down + (was[start..at] + x) == down + was[start..at] + x;
      }
    }

    /** Bytes copied into room that is there. */
    method Append(x: Bytes)
      requires Valid() && err.None? && n + |x| <= buf.Length
      modifies this`n, buf
      ensures Valid() && n == old(n) + |x| && Out() == old(Out()) + x
    {
      hide Ledger, Framing;
      ghost var was, at, e0 := buf[..], n, Emitted();
      Store(buf, n, x);
      n := n + |x|;
      Advanced(was, at, x, e0);
      assert Untouched() by {
        if form.NoSink? && !staging { assert was[n..] == was[at..][|x|..] && before[n..] == before[at..][|x|..]; }
      }
    }

    /** A varint into room the caller has reserved. */
    method PutVarintFit(v: U64)
      requires Valid() && err.None? && n + (if v < 0x80 then 1 else MAX_VARINT_LEN) <= buf.Length
      modifies this`n, buf
      ensures Valid() && n == old(n) + |Leb(v)| && Out() == old(Out()) + Leb(v)
    {
      hide Leb, Valid, Out;
      if v < 0x80 {
        ByteLeb(v);
        Append([v]);
      } else {
        PutVarintFitSlow(v);
      }
    }

    method PutVarintFitSlow(v: U64)
      requires Valid() && err.None? && n + MAX_VARINT_LEN <= buf.Length
      modifies this`n, buf
      ensures Valid() && n == old(n) + |Leb(v)| && Out() == old(Out()) + Leb(v)
    {
      hide Leb, Framing, Ledger;
      ghost var was, at, e0 := buf[..], n, Emitted();
      n := Varint.PutUvarint(buf, n, v);
      Advanced(was, at, Leb(v), e0);
    }

    static lemma ByteLeb(v: U64)
      requires v < 0x80
      ensures Leb(v) == [v]
    {
    }

    /* ----- draining ----- */

    /** An argument refusal, keeping an earlier error. */
    method RejectArgument() returns (e: Option<Error>)
      modifies this`err
      ensures err == (if old(err).None? then Some(Argument) else old(err)) && e == err
    {
      if err.None? { err := Some(Argument); }
      e := err;
    }

    predicate Installable(size: nat, offset: int) {
      !form.ToWriter? && 0 <= offset <= size && (form.ToSink? ==> size - offset >= MIN_OUTPUT_BUFFER)
    }

    /** Install a new output buffer mid-stream. Bytes not flushed or fetched before stay
        in the old buffer. */
    method SetBuffer(b: array<Byte>, offset: int) returns (e: Option<Error>)
      requires Valid() && b != scratch
      modifies this`buf, this`n, this`start, this`staging, this`installed, this`err, this`before, this`origin
      ensures Valid() && e == err
      ensures var accepted := !form.ToWriter? && 0 <= offset && offset + (if form.ToSink? then 20 else 0) <= b.Length;
        && (if accepted && old(err).None?
            then err.None? && Fresh(b, offset) && installed
            else unchanged(this`buf, this`n, this`start, this`staging, this`installed, this`before, this`origin))
        && err == if accepted || old(err).Some? then old(err) else Some(Argument)
    {
      hide Framing;
      if !Installable(b.Length, offset) {
        e := RejectArgument();
      } else {
        if err.None? { Install(b, offset); }
        e := err;
      }
    }

    /** A newly installed buffer with nothing in it yet. */
    ghost predicate Fresh(b: array<Byte>, offset: int)
      reads this`buf, this`n, this`start, this`staging, this`before, this`origin, b
    {
      buf == b && n == start == origin == offset && !staging && before == b[..]
    }

    method Install(b: array<Byte>, offset: nat)
      requires Framing() && Ledger() && scratch.Length == MIN_OUTPUT_BUFFER && (form.NoSink? ==> down == [])
      requires b != scratch && Installable(b.Length, offset)
      modifies this`buf, this`n, this`start, this`staging, this`installed, this`before, this`origin
      ensures Valid() && Fresh(b, offset) && installed
    {
      hide Ledger, Framing, Valid;
      buf := b;
      n := offset;
      start := offset;
      staging := false; // a new buffer ends any staged tail
      installed := true;
      before := b[..];
      origin := offset;
      FreshIsValid(b, offset);
    }

    lemma FreshIsValid(b: array<Byte>, offset: nat)
      requires Framing() && Ledger() && scratch.Length == MIN_OUTPUT_BUFFER && (form.NoSink? ==> down == [])
      requires b != scratch && Installable(b.Length, offset) && Fresh(b, offset)
      ensures Valid()
    {
      hide Ledger, Framing;
    }

    /** Where a flush that succeeded leaves the cursor: the start offset belongs to the
        installation, so a buffer that stays is resumed at 0. */
    twostate predicate Resumed(handover: Handover)
      reads this`buf, this`n, this`start
    {
      match handover
      case Copied => buf == old(buf) && n == start == 0
      case Rearmed(offset) => buf == old(buf) && n == start == offset
      case Took(size, offset) => fresh(buf) && buf.Length == size && n == start == offset
    }

    /** Hand the accumulated bytes downstream; true when the encoder may go on, which is
        downstream's answer to these bytes and nothing else. */
    method Drain() returns (ok: bool)
      requires Valid() && err.None? && !form.NoSink?
      modifies this`buf, this`n, this`start, this`err, this`installed, this`staging, this`down, this`flushes, this`refusal
      modifies this`before, this`origin, this`handed, this`span
      ensures Valid() && (buf == old(buf) || fresh(buf)) && ok == err.None?
      ensures Wrote(old(Now()), [], Now())
      ensures ok ==> n == start && down == old(Emitted())
      ensures flushes == old(flushes) + if old(n > start) then 1 else 0
      ensures err == if old(n > start) then Answer(form, flushes, old(buf[start..n]), old(buf.Length)) else None
      ensures ok && old(n > start) ==>
                Resumed(if form.ToSink? then form.sink(flushes, old(buf[start..n]), old(buf.Length)).0 else Copied)
    {
      hide Framing, Welcome;
      ok := true;
      assert Emitted() == Emitted() + [];
      if n > start {
        var b := buf[start..n];
        match form
        case ToWriter(_) => ok := CallWriter(b);
        case ToSink(_) => ok := CallSink(b);
      }
    }

    method CallWriter(b: Bytes) returns (ok: bool)
      requires Valid() && err.None? && form.ToWriter? && b == buf[start..n]
      modifies this`n, this`start, this`err, this`down, this`flushes, this`refusal, this`handed, this`span
      ensures Valid() && ok == err.None? && flushes == old(flushes) + 1
      ensures err == refusal == Answer(form, flushes, b, buf.Length) == form.writer(flushes, b)
      ensures if ok then n == start == 0 && down == old(down) + b else unchanged(this`n, this`start, this`down)
    {
      hide Framing, Untouched;
      var verdict := form.writer(flushes + 1, b);
      if verdict.None? { down := down + b; }
      Record(verdict, b, buf.Length);
      ok := err.None?;
      if ok { Rewind(); }
    }

    /** One call of the sink, with whatever it leaves behind in the buffer. */
    method CallSink(b: Bytes) returns (ok: bool)
      requires Valid() && err.None? && form.ToSink? && b == buf[start..n]
      modifies this`buf, this`n, this`start, this`err, this`installed, this`staging, this`down, this`flushes, this`refusal
      modifies this`before, this`origin, this`handed, this`span
      ensures Valid() && (buf == old(buf) || fresh(buf)) && ok == err.None? && flushes == old(flushes) + 1
      ensures err == refusal == Answer(form, flushes, b, old(buf.Length))
      ensures var (handover, verdict) := form.sink(flushes, b, old(buf.Length));
        err == match handover
          case Copied => verdict
          case Rearmed(offset) => if 0 <= offset && offset + 20 <= old(buf.Length) then verdict else Some(Argument)
          case Took(next, offset) => if 0 <= offset && offset + 20 <= next then verdict else Some(Argument)
      ensures ok ==> n == start && down == old(down) + b && Resumed(form.sink(flushes, b, old(buf.Length)).0)
      ensures !ok ==> down == old(down) || down == old(down) + b
    {
      hide Framing, Welcome, Untouched;
      ghost var size := buf.Length;
      var (handover, verdict) := form.sink(flushes + 1, b, buf.Length);
      match handover
      {
        case Copied => WelcomeExactly(size, 0, 0);
        case Rearmed(offset) => WelcomeExactly(size, 0, offset);
        case Took(next, offset) => WelcomeExactly(size, next, offset);
      }
      Receive(handover);
      if verdict.None? { down := down + b; }
      Record(verdict, b, size);
      ok := err.None?;
      if ok && !installed { Rewind(); }
    }

    /** Downstream's own error, unless installing its buffer failed before. */
    method Record(verdict: Option<Error>, b: Bytes, ghost size: nat)
      requires err.None? ==> refusal.None?
      modifies this`err, this`flushes, this`refusal, this`handed, this`span
      ensures err == refusal == (if old(err).Some? then old(err) else verdict)
      ensures flushes == old(flushes) + 1 && handed == b && span == size
    {
      if err.None? { err := verdict; }
      flushes := flushes + 1;
      refusal := err;
      handed, span := b, size;
    }

    /** The buffer that stays is written from its beginning. */
    method Rewind()
      requires Valid() && !form.NoSink?
      modifies this`n, this`start
      ensures Valid() && n == start == 0
    {
      hide Framing, Ledger;
      n := 0;
      start := 0;
    }

    /** The buffer installed from inside the sink, if any. */
    method Receive(handover: Handover)
      requires Valid() && err.None? && form.ToSink?
      modifies this`buf, this`n, this`start, this`err, this`installed, this`before, this`origin, this`staging
      ensures Valid() && (buf == old(buf) || fresh(buf))
      ensures err == if Welcome(handover, old(buf.Length)) then None else Some(Argument)
      ensures err.None? ==> installed == !handover.Copied? && (installed ==> Resumed(handover))
      ensures !installed ==> buf == old(buf)
    {
      hide Framing, Ledger;
      installed := false;
      match handover
      case Copied =>
      case Rearmed(offset) =>
        var _ := SetBuffer(buf, offset);
      case Took(size, offset) =>
        var next := new Byte[size];
        var _ := SetBuffer(next, offset);
    }

    /* ----- the sink-less tail ----- */

    /** Switch to the scratch: the last stretch of a sink-less buffer is produced there and
        copied out exactly as far as it reaches, so a reservation is not taken for a need. */
    method SwitchToScratch()
      requires Valid() && form.NoSink? && !staging
      modifies this`buf, this`n, this`start, this`staging, this`dst, this`dstN, this`dstStart
      ensures Valid() && staging && n == 0 && dst == old(buf) && Emitted() == old(Emitted())
    {
      hide Ledger, Framing;
      ghost var e0 := Emitted();
      dst := buf;
      dstN := n;
      dstStart := start;
      staging := true;
      buf := scratch;
      n := 0;
      start := 0;
      assert e0 == dst[dstStart..dstN] + buf[..n];
    }

    /** Copy the staged bytes into the caller's buffer, or find that they do not fit,
        whatever error was held before. */
    method Spill() returns (ok: bool)
      requires Valid() && form.NoSink? && staging
      modifies this`n, this`dstN, this`err, dst
      ensures Valid() && Emitted() == old(Emitted())
      ensures ok <==> |Emitted()| <= Cap()
      ensures ok ==> n == 0 && err == old(err) && dst[dstStart..dstN] == Emitted()
      ensures !ok ==> unchanged(this`n, this`dstN, dst) && err == Some(BufferFull)
    {
      hide Framing;
      if n > dst.Length - dstN {
        err := Some(BufferFull);
        ok := false;
      } else {
        Unstage();
        ok := true;
      }
    }

    method Unstage()
      requires Valid() && form.NoSink? && staging && n <= dst.Length - dstN
      modifies this`n, this`dstN, dst
      ensures Valid() && Emitted() == old(Emitted()) && n == 0 && dst[dstStart..dstN] == Emitted()
    {
      hide Ledger, Framing;
      ghost var was, at, x := dst[..], dstN, buf[..n];
      Store(dst, dstN, buf[..n]);
      dstN := dstN + n;
      n := 0;
      ghost var now := dst[..];
      assert now == was[..at] + x + was[dstN..];
      assert now[dstStart..dstN] == was[dstStart..at] + x;
      assert dst[dstStart..dstN] == now[dstStart..dstN] && dst[..origin] == now[..origin] && dst[dstN..] == now[dstN..];
      assert was[dstN..] == was[at..][dstN - at..] && before[dstN..] == before[at..][dstN - at..];
    }

    /** Room in a sink-less buffer: the first request that no longer fits switches over,
        the later ones copy out. */
    method Stage() returns (ok: bool)
      requires Valid() && form.NoSink? && err.None?
      modifies this`buf, this`n, this`start, this`err, this`staging, this`dst, this`dstN, this`dstStart, dst
      ensures Valid() && Repr() <= old(Repr())
      ensures Wrote(old(Now()), [], Now())
      ensures ok == err.None? && (ok ==> buf.Length - n >= MIN_OUTPUT_BUFFER)
      ensures !old(staging) ==> ok
    {
      hide Framing, Untouched, Emitted, Ledger;
      WroteNothing(Now());
      ok := true;
      if staging {
        ok := Spill();
      } else {
        SwitchToScratch();
      }
    }

    /* ----- reservations ----- */

    /** Room for `k` bytes at the cursor, making it if need be. It is refused only when the
        encoder holds an error: after a drain there is always room for the minimum. */
    method Room(k: nat) returns (ok: bool)
      requires Valid() && k <= MIN_OUTPUT_BUFFER
      modifies this, Repr()
      ensures Valid() && unchanged(this`depth, this`pending) && fresh(Repr() - old(Repr()))
      ensures Wrote(old(Now()), [], Now())
      ensures ok <==> err.None?
      ensures ok ==> buf.Length - n >= k
      ensures old(err).None? && form.NoSink? && !old(staging) ==> ok
      ensures old(err).None? && !ok && !form.NoSink? ==>
                flushes == old(flushes) + 1 && err == Answer(form, flushes, old(buf[start..n]), old(buf.Length))
    {
      WroteNothing(Now());
      ok := err.None?;
      if buf.Length - n < k { ok := MakeRoom(k); }
    }

    method MakeRoom(k: nat) returns (ok: bool)
      requires Valid() && k <= MIN_OUTPUT_BUFFER
      modifies this, Repr()
      ensures Valid() && unchanged(this`depth, this`pending) && fresh(Repr() - old(Repr()))
      ensures Wrote(old(Now()), [], Now())
      ensures ok <==> err.None?
      ensures ok ==> buf.Length - n >= k
      ensures old(err).None? && form.NoSink? && !old(staging) ==> ok
      ensures old(err).None? && !ok && !form.NoSink? ==>
                flushes == old(flushes) + 1 && err == Answer(form, flushes, old(buf[start..n]), old(buf.Length))
    {
      hide Framing, Untouched;
      WroteNothing(Now());
      ok := err.None?;
      if ok {
        if form.NoSink? {
          ok := Stage();
        } else {
          ok := Drain();
          // The source's ErrBufferFull after a drain is never reached.
          if ok && buf.Length - n < k { assert false; }
        }
      }
    }

    /** A varint behind a reservation of its own. */
    method PutVarint(v: U64)
      requires Valid()
      modifies this, Repr()
      ensures Valid() && unchanged(this`depth, this`pending) && fresh(Repr() - old(Repr()))
      ensures Wrote(old(Now()), Leb(v), Now())
    {
      hide Leb, Untouched, Framing, Emitted, Wrote;
      ghost var a := Now();
      var ok := Room(MAX_VARINT_LEN);
      ghost var b := Now();
      if ok {
        PutVarintFit(v);
        Appended(b, Leb(v), Now());
      } else {
        RestUnwritten(b, Leb(v));
      }
      WroteThen(a, [], b, Leb(v), Now());
      assert [] + Leb(v) == Leb(v);
    }

    /** A payload, split across as many flushes as it takes. */
    method PutRaw(data: Bytes)
      requires Valid()
      modifies this, Repr()
      ensures Valid() && unchanged(this`depth, this`pending) && fresh(Repr() - old(Repr()))
      ensures Wrote(old(Now()), data, Now())
    {
      hide Untouched, Framing, Emitted, Wrote;
      if err.None? && |data| <= buf.Length - n {
        ghost var a := Now();
        Append(data);
        Appended(a, data, Now());
      } else {
        PutRawSlow(data);
      }
    }

    /** As much of `data` as the buffer still holds. */
    method CopyIn(data: Bytes) returns (c: nat)
      requires Valid() && err.None?
      modifies this`n, buf
      ensures Valid() && n == old(n) + c && c <= |data| && (c == |data| || n == buf.Length)
      ensures Wrote(old(Now()), data[..c], Now())
    {
      hide Untouched, Framing, Emitted, Wrote;
      ghost var a := Now();
      c := if buf.Length - n < |data| then buf.Length - n else |data|;
      Append(data[..c]);
      Appended(a, data[..c], Now());
    }

    method PutRawSlow(data: Bytes)
      requires Valid()
      modifies this, Repr()
      ensures Valid() && unchanged(this`depth, this`pending) && fresh(Repr() - old(Repr()))
      ensures Wrote(old(Now()), data, Now())
    {
      hide Untouched, Framing, Emitted, Wrote;
      ghost var a := Now();
      WroteNothing(a);
      var i: nat, more := 0, err.None?;
      while more
        invariant i <= |data|
        invariant Valid() && unchanged(this`depth, this`pending) && fresh(Repr() - old(Repr()))
        invariant more ==> err.None?
        invariant Wrote(a, data[..i], Now()) && (!more ==> err.Some? || i == |data|)
        decreases more, |data| - i, if buf.Length == n then 1 else 0
      {
        ghost var b := Now();
        var c := CopyIn(data[i..]);
        WroteThen(a, data[..i], b, data[i..][..c], Now());
        assert data[..i] + data[i..][..c] == data[..i + c];
        i := i + c;
        more := i < |data|;
        if more {
          b := Now();
          more := MakeRoom(1);
          WroteThen(a, data[..i], b, [], Now());
          assert data[..i] + [] == data[..i];
        }
      }
      RestUnwritten(Now(), data[i..]);
      WroteThen(a, data[..i], Now(), data[i..], Now());
      assert data[..i] + data[i..] == data;
    }

    /* ----- headers ----- */

    /** The held-back headers written out, outermost first. */
    method CommitPending()
      requires Valid()
      modifies this, Repr()
      ensures Valid() && depth == old(depth) && pending == [] && fresh(Repr() - old(Repr()))
      ensures Wrote(old(Now()), Heads(old(pending)), Now())
    {
      hide Untouched, Emitted, Wrote, Heads;
      ghost var a := Now();
      WroteNothing(a);
      NoHeads();
      for i := 0 to |pending|
        invariant Valid() && unchanged(this`depth, this`pending) && fresh(Repr() - old(Repr()))
        invariant Wrote(a, Heads(pending[..i]), Now())
      {
        ghost var b := Now();
        PutVarint(8 * pending[i] + T_SEQUENCE_START);
        WroteThen(a, Heads(pending[..i]), b, Head(pending[i], T_SEQUENCE_START), Now());
        HeadsAppend(pending[..i], pending[i]);
        assert pending[..i] + [pending[i]] == pending[..i + 1];
      }
      assert pending[..|pending|] == pending;
      pending := [];
    }

    static lemma NoHeads()
      ensures Heads([]) == []
    {
    }

    /** What a field write does: nothing once an error is held, an argument error and not a
        byte when it is refused, and otherwise the held headers and then `x`. */
    twostate predicate Wrought(refused: bool, x: Bytes)
      requires old(Window()) && Window()
      reads this, buf, dst
    {
      && depth == old(depth)
      && if old(err).Some? then Now() == old(Now()) && pending == old(pending)
         else if refused then Rejected()
         else Wrote(old(Now()), Heads(old(pending)) + x, Now()) && (err.None? ==> pending == [])
    }

    /** An argument refusal with not a byte written. */
    twostate predicate Rejected()
      requires old(Window()) && Window()
      reads this, buf, dst
    {
      && err == Some(Argument) && Emitted() == old(Emitted()) && Home() == old(Home())
      && depth == old(depth) && pending == old(pending)
    }

    /** A field header behind any held ones, with room for `extra` more bytes. */
    method WriteHeaderRoom(id: nat, t: nat, extra: nat) returns (ok: bool)
      requires Valid() && t < 8 && MAX_VARINT_LEN + extra <= MIN_OUTPUT_BUFFER
      modifies this, Repr()
      ensures Valid() && fresh(Repr() - old(Repr()))
      ensures Wrought(id > ID_MAX, Head(id, t))
      ensures form.NoSink? && !old(staging) && old(err).None? && old(pending) == [] && id <= ID_MAX ==> err.None?
      ensures ok <==> err.None?
      ensures ok ==> buf.Length - n >= extra + 5
    {
      hide Untouched, Emitted, Wrote, Heads;
      if err.Some? || id > ID_MAX || pending != [] {
        ok := WriteHeaderSlow(id, t, extra);
      } else {
        ghost var a := Now();
        NoHeads();
        ok := Room(MAX_VARINT_LEN + extra);
        ghost var b := Now();
        if ok {
          HeadFits(id, t);
          PutVarintFit(8 * id + t);
          Appended(b, Head(id, t), Now());
        } else {
          RestUnwritten(b, Head(id, t));
        }
        WroteThen(a, [], b, Head(id, t), Now());
      }
    }

    static lemma LebFits(v: U64)
      ensures |Leb(v)| <= MAX_VARINT_LEN && (v < 0x80 ==> |Leb(v)| == 1)
    {
      Varint.LebLength64(v);
    }

    /** A header in range takes at most five of the ten bytes reserved for it. */
    static lemma HeadFits(id: nat, t: nat)
      requires id <= ID_MAX && t < 8
      ensures |Head(id, t)| <= 5
    {
      Weights();
      Varint.LebLength(8 * id + t, 5);
    }

    /** A held error, an id out of range, or a run of held headers. */
    method WriteHeaderSlow(id: nat, t: nat, extra: nat) returns (ok: bool)
      requires Valid() && t < 8 && MAX_VARINT_LEN + extra <= MIN_OUTPUT_BUFFER
      modifies this, Repr()
      ensures Valid() && fresh(Repr() - old(Repr()))
      ensures Wrought(id > ID_MAX, Head(id, t))
      ensures ok <==> err.None?
      ensures ok ==> buf.Length - n >= extra + 5
    {
      hide Untouched, Emitted, Wrote, Heads, Leb;
      ok := false;
      if err.None? {
        if id > ID_MAX {
          err := Some(Argument);
        } else {
          ghost var a, heads := Now(), Heads(pending);
          CommitPending();
          ghost var b := Now();
          ok := Room(MAX_VARINT_LEN + extra);
          ghost var c := Now();
          WroteThen(a, heads, b, [], c);
          if ok {
            HeadFits(id, t);
            PutVarintFit(8 * id + t);
            Appended(c, Head(id, t), Now());
          } else {
            RestUnwritten(c, Head(id, t));
          }
          WroteThen(a, heads + [], c, Head(id, t), Now());
          assert heads + [] == heads;
        }
      }
    }

    /* ----- fields ----- */

    ghost function Lim(): Limits { Limits(maxDepth, admits) }

    lemma NestingBound()
      requires Valid()
      ensures Lim().maxDepth <= MAX_DEPTH
    {
    }

    /** The encoder as `Serializer.Apply` sees it. */
    ghost function Ideal(): Encoding
      reads this, buf, dst
      requires Window()
    {
      Encoding(Out(), depth, pending, err)
    }

    /** What every call owes `Apply`: its result, or with an error that only this buffer or
        this downstream causes, a prefix of its output. */
    twostate predicate Obeyed(op: Op)
      requires old(Window()) && Window()
      reads this, buf, dst
    {
      var g := Apply(Lim(), old(Ideal()), op);
      && Home() == old(Home())
      && if old(err).Some? then Now() == old(Now()) && Ideal() == old(Ideal())
         else if g.err.Some? then Rejected()
         else if err.None? then Ideal() == g
         else Out() <= g.out && err == Now().blame && Home().MayStop(|g.out|)
    }

    /** A header and a scalar in one reservation. */
    method WriteScalar(id: nat, t: nat, word: U64)
      requires Valid() && t < 8
      modifies this, Repr()
      ensures Valid() && fresh(Repr() - old(Repr()))
      ensures Wrought(id > ID_MAX, Head(id, t) + Leb(word))
      ensures form.NoSink? && !old(staging) && old(err).None? && old(pending) == [] && id <= ID_MAX ==> err.None?
    {
      hide Untouched, Emitted, Wrote, Heads, Leb;
      ghost var a, heads := Now(), Heads(pending);
      var ok := WriteHeaderRoom(id, t, MAX_VARINT_LEN);
      ghost var b := Now();
      if ok {
        PutVarintFit(word);
        Appended(b, Leb(word), Now());
      } else {
        RestUnwritten(b, Leb(word));
      }
      if a.err.None? && id <= ID_MAX { FieldThen(a, heads, Head(id, t), b, Leb(word), Now()); }
    }

    method WriteUnsigned(id: nat, v: U64) returns (e: Option<Error>)
      requires Valid()
      modifies this, Repr()
      ensures Valid() && fresh(Repr() - old(Repr())) && e == err
      ensures Obeyed(Put(id, VUnsigned(v)))
      ensures form.NoSink? && !old(staging) && old(err).None? && old(pending) == [] && id <= ID_MAX ==> err.None?
    {
      hide Untouched, Framing, Emitted, Out, Heads, Leb, Apply;
      FieldApplied(Lim(), Ideal(), id, VUnsigned(v));
      WriteScalar(id, T_UNSIGNED, v);
      e := err;
    }

    method WriteSigned(id: nat, v: I64) returns (e: Option<Error>)
      requires Valid()
      modifies this, Repr()
      ensures Valid() && fresh(Repr() - old(Repr())) && e == err
      ensures Obeyed(Put(id, VSigned(v)))
    {
      hide Untouched, Framing, Emitted, Out, Heads, Leb, Apply, Zigzag;
      FieldApplied(Lim(), Ideal(), id, VSigned(v));
      WriteScalar(id, T_SIGNED, Zigzag(v));
      e := err;
    }

    method WriteBool(id: nat, b: bool) returns (e: Option<Error>)
      requires Valid()
      modifies this, Repr()
      ensures Valid() && fresh(Repr() - old(Repr())) && e == err
      ensures Obeyed(Put(id, VUnsigned(if b then 1 else 0)))
    {
      if b {
        e := WriteUnsigned(id, 1);
      } else {
        e := WriteUnsigned(id, 0);
      }
    }

    /** A length-and-subtype word and a payload, refused past the ceiling. */
    method WriteFixlen(id: nat, data: Bytes, sub: nat)
      requires Valid() && sub < 8
      modifies this, Repr()
      ensures Valid() && fresh(Repr() - old(Repr()))
      ensures Wrought(id > ID_MAX || |data| > ARRAY_MAX, Head(id, T_FIXLEN) + (Leb(8 * |data| + sub) + data))
    {
      hide Untouched, Emitted, Wrote, Heads, Leb;
      if |data| > ARRAY_MAX {
        var _ := RejectArgument();
      } else {
        ghost var a, heads, word := Now(), Heads(pending), Leb(8 * |data| + sub);
        var ok := WriteHeaderRoom(id, T_FIXLEN, MAX_VARINT_LEN);
        ghost var b := Now();
        if ok {
          PutVarintFit(8 * |data| + sub);
          Appended(b, word, Now());
          ghost var c := Now();
          PutRaw(data);
          WroteThen(b, word, c, data, Now());
        } else {
          RestUnwritten(b, word + data);
        }
        if a.err.None? && id <= ID_MAX { FieldThen(a, heads, Head(id, T_FIXLEN), b, word + data, Now()); }
      }
    }

    /** The ceiling is compared before the string policy is asked. */
    method WriteString(id: nat, s: Bytes) returns (e: Option<Error>)
      requires Valid()
      modifies this, Repr()
      ensures Valid() && fresh(Repr() - old(Repr())) && e == err
      ensures Obeyed(Put(id, VText(s)))
    {
      hide Untouched, Framing, Emitted, Out, Heads, Leb, Apply;
      FieldApplied(Lim(), Ideal(), id, VText(s));
      if err.None? && |s| <= ARRAY_MAX && !admits(s) {
        err := Some(Argument);
      } else {
        WriteFixlen(id, s, 2);
      }
      e := err;
    }

    method WriteBytes(id: nat, data: Bytes) returns (e: Option<Error>)
      requires Valid()
      modifies this, Repr()
      ensures Valid() && fresh(Repr() - old(Repr())) && e == err
      ensures Obeyed(Put(id, VBlob(data)))
    {
      hide Untouched, Framing, Emitted, Out, Heads, Leb, Apply;
      FieldApplied(Lim(), Ideal(), id, VBlob(data));
      WriteFixlen(id, data, 3);
      e := err;
    }

    /** A float's word is one byte, so header, word and bits are one reservation of at most 19. */
    method WriteFloat(id: nat, width: nat, bits: nat) returns (e: Option<Error>)
      requires Valid() && (width == 4 || width == 8)
      modifies this, Repr()
      ensures Valid() && fresh(Repr() - old(Repr())) && e == err
      ensures Obeyed(Put(id, VFloat(width, bits)))
    {
      hide Untouched, Framing, Emitted, Out, Heads, Leb, Apply, LeBytes;
      FieldApplied(Lim(), Ideal(), id, VFloat(width, bits));
      PutFloat(id, width, bits);
      e := err;
    }

    method PutFloat(id: nat, width: nat, bits: nat)
      requires Valid() && (width == 4 || width == 8)
      modifies this, Repr()
      ensures Valid() && fresh(Repr() - old(Repr()))
      ensures Wrought(id > ID_MAX, Head(id, T_FIXLEN) + (Leb(FloatWord(width)) + LeBytes(bits, width)))
    {
      hide Untouched, Emitted, Wrote, Heads, Leb, LeBytes;
      ghost var a, heads, word, body := Now(), Heads(pending), Leb(FloatWord(width)), LeBytes(bits, width);
      var ok := WriteHeaderRoom(id, T_FIXLEN, 1 + width);
      ghost var b := Now();
      if ok {
        LebFits(FloatWord(width));
        PutVarintFit(FloatWord(width));
        Appended(b, word, Now());
        ghost var c := Now();
        Append(LeBytes(bits, width));
        Appended(c, body, Now());
        WroteThen(b, word, c, body, Now());
      } else {
        RestUnwritten(b, word + body);
      }
      if a.err.None? && id <= ID_MAX { FieldThen(a, heads, Head(id, T_FIXLEN), b, word + body, Now()); }
    }

    /* ----- arrays ----- */

    method FillRun<T>(a: seq<T>, word: T -> U64, i: nat) returns (j: nat)
      requires Valid() && err.None? && i < |a| && buf.Length - n >= MAX_VARINT_LEN
      modifies this`n, buf
      ensures Valid() && i < j <= |a| && Out() == old(Out()) + LebRun(Words(a, word)[i..j])
    {
      hide Ledger, Framing, Leb, LebRun, Words;
      ghost var was, at, e0 := buf[..], n, Emitted();
      var w: nat;
      j, w := FillWords(buf, n, a, word, i);
      n := w;
      Advanced(was, at, LebRun(Words(a, word)[i..j]), e0);
    }

    /** Drain and fill until every element is written. */
    method PutRun<T>(a: seq<T>, word: T -> U64)
      requires Valid()
      modifies this, Repr()
      ensures Valid() && unchanged(this`depth, this`pending) && fresh(Repr() - old(Repr()))
      ensures Wrote(old(Now()), LebRun(Words(a, word)), Now())
    {
      hide Untouched, Framing, Emitted, Wrote, LebRun, Words;
      ghost var v, ws := Now(), Words(a, word);
      NoWords();
      WroteNothing(v);
      assert ws[..0] == [];
      var i: nat, ok := 0, true;
      while i < |a| && ok
        invariant i <= |a| && (ok || err.Some?)
        invariant Valid() && unchanged(this`depth, this`pending) && fresh(Repr() - old(Repr()))
        invariant Wrote(v, LebRun(ws[..i]), Now())
        decreases |a| - i, ok
      {
        ghost var b := Now();
        ok := Room(MAX_VARINT_LEN);
        ghost var c := Now();
        WroteThen(v, LebRun(ws[..i]), b, [], c);
        assert LebRun(ws[..i]) + [] == LebRun(ws[..i]);
        if ok {
          var j := FillRun(a, word, i);
          Appended(c, LebRun(ws[i..j]), Now());
          WroteThen(v, LebRun(ws[..i]), c, LebRun(ws[i..j]), Now());
          assert ws[..i] + ws[i..j] == ws[..j];
          LebRunThen(ws[..i], ws[i..j]);
          i := j;
        }
      }
      if i == |a| { assert ws[i..] == []; }
      RestUnwritten(Now(), LebRun(ws[i..]));
      WroteThen(v, LebRun(ws[..i]), Now(), LebRun(ws[i..]), Now());
      assert ws[..i] + ws[i..] == ws;
      LebRunThen(ws[..i], ws[i..]);
    }

    /** An integer array: header, count, elements. */
    method WriteArray<T>(id: nat, t: nat, a: seq<T>, word: T -> U64)
      requires Valid() && t < 8
      modifies this, Repr()
      ensures Valid() && fresh(Repr() - old(Repr()))
      ensures Wrought(id > ID_MAX || |a| > ARRAY_MAX, Head(id, t) + (Leb(|a|) + LebRun(Words(a, word))))
    {
      hide Untouched, Emitted, Wrote, Heads, Leb, LebRun, Words;
      if |a| > ARRAY_MAX {
        var _ := RejectArgument();
      } else {
        ghost var v, heads, count, run := Now(), Heads(pending), Leb(|a|), LebRun(Words(a, word));
        var ok := WriteHeaderRoom(id, t, MAX_VARINT_LEN);
        ghost var b := Now();
        if ok {
          PutVarintFit(|a|);
          Appended(b, count, Now());
          ghost var c := Now();
          PutRun(a, word);
          WroteThen(b, count, c, run, Now());
        } else {
          RestUnwritten(b, count + run);
        }
        if v.err.None? && id <= ID_MAX { FieldThen(v, heads, Head(id, t), b, count + run, Now()); }
      }
    }

    method WriteUnsignedArray(id: nat, a: seq<U64>) returns (e: Option<Error>)
      requires Valid()
      modifies this, Repr()
      ensures Valid() && fresh(Repr() - old(Repr())) && e == err
      ensures Obeyed(Put(id, VUnsignedArray(a)))
    {
      hide Untouched, Framing, Emitted, Out, Heads, Leb, Apply, LebRun;
      FieldApplied(Lim(), Ideal(), id, VUnsignedArray(a));
      assert Words(a, (u: U64) => u) == a;
      WriteArray(id, T_ARRAY_UNSIGNED, a, (u: U64) => u);
      e := err;
    }

    method WriteSignedArray(id: nat, a: seq<I64>) returns (e: Option<Error>)
      requires Valid()
      modifies this, Repr()
      ensures Valid() && fresh(Repr() - old(Repr())) && e == err
      ensures Obeyed(Put(id, VSignedArray(a)))
    {
      hide Untouched, Framing, Emitted, Out, Heads, Leb, Apply, LebRun, Zigzag;
      FieldApplied(Lim(), Ideal(), id, VSignedArray(a));
      assert Words(a, Zigzag) == ZigzagRun(a);
      WriteArray(id, T_ARRAY_SIGNED, a, Zigzag);
      e := err;
    }

    method FillFloatRun(width: nat, a: seq<nat>, i: nat) returns (j: nat)
      requires Valid() && err.None? && i < |a| && width > 0 && buf.Length - n >= width
      modifies this`n, buf
      ensures Valid() && i < j <= |a| && Out() == old(Out()) + LeRun(width, a[i..j])
    {
      hide Ledger, Framing, LeBytes, LeRun;
      ghost var was, at, e0 := buf[..], n, Emitted();
      var w: nat;
      j, w := FillFloats(buf, n, width, a, i);
      n := w;
      Advanced(was, at, LeRun(width, a[i..j]), e0);
    }

    method PutFloatRun(width: nat, a: seq<nat>)
      requires Valid() && (width == 4 || width == 8)
      modifies this, Repr()
      ensures Valid() && unchanged(this`depth, this`pending) && fresh(Repr() - old(Repr()))
      ensures Wrote(old(Now()), LeRun(width, a), Now())
    {
      hide Untouched, Framing, Emitted, Wrote, LeRun, LeBytes;
      ghost var v := Now();
      NoWords();
      WroteNothing(v);
      assert a[..0] == [];
      var i: nat, ok := 0, true;
      while i < |a| && ok
        invariant i <= |a| && (ok || err.Some?)
        invariant Valid() && unchanged(this`depth, this`pending) && fresh(Repr() - old(Repr()))
        invariant Wrote(v, LeRun(width, a[..i]), Now())
        decreases |a| - i, ok
      {
        ghost var b := Now();
        ok := Room(width);
        ghost var c := Now();
        WroteThen(v, LeRun(width, a[..i]), b, [], c);
        assert LeRun(width, a[..i]) + [] == LeRun(width, a[..i]);
        if ok {
          var j := FillFloatRun(width, a, i);
          Appended(c, LeRun(width, a[i..j]), Now());
          WroteThen(v, LeRun(width, a[..i]), c, LeRun(width, a[i..j]), Now());
          assert a[..i] + a[i..j] == a[..j];
          LeRunThen(width, a[..i], a[i..j]);
          i := j;
        }
      }
      if i == |a| { assert a[i..] == []; }
      RestUnwritten(Now(), LeRun(width, a[i..]));
      WroteThen(v, LeRun(width, a[..i]), Now(), LeRun(width, a[i..]), Now());
      assert a[..i] + a[i..] == a;
      LeRunThen(width, a[..i], a[i..]);
    }

    /** A float array. The reservation is 16 bytes: its header takes at most five of them, so
        the ten the count's store may touch are there, and so is the one for the word. */
    method PutFloatArray(id: nat, width: nat, a: seq<nat>)
      requires Valid() && (width == 4 || width == 8)
      modifies this, Repr()
      ensures Valid() && fresh(Repr() - old(Repr()))
      ensures Wrought(id > ID_MAX || |a| > ARRAY_MAX, Head(id, T_ARRAY_FIXLEN) + (Leb(|a|) + Leb(FloatWord(width)) + LeRun(width, a)))
    {
      hide Untouched, Emitted, Wrote, Heads, Leb, LeRun;
      if |a| > ARRAY_MAX {
        var _ := RejectArgument();
      } else {
        ghost var v, heads, count, word, run := Now(), Heads(pending), Leb(|a|), Leb(FloatWord(width)), LeRun(width, a);
        var ok := WriteHeaderRoom(id, T_ARRAY_FIXLEN, 6);
        ghost var b := Now();
        if ok {
          CountFits(|a|);
          LebFits(FloatWord(width));
          PutVarintFit(|a|);
          Appended(b, count, Now());
          ghost var c := Now();
          PutVarintFit(FloatWord(width));
          Appended(c, word, Now());
          WroteThen(b, count, c, word, Now());
          c := Now();
          PutFloatRun(width, a);
          WroteThen(b, count + word, c, run, Now());
        } else {
          RestUnwritten(b, count + word + run);
        }
        if v.err.None? && id <= ID_MAX { FieldThen(v, heads, Head(id, T_ARRAY_FIXLEN), b, count + word + run, Now()); }
      }
    }

    static lemma CountFits(v: nat)
      requires v <= ARRAY_MAX
      ensures |Leb(v)| <= 5
    {
      Weights();
      Varint.LebLength(v, 5);
    }

    method WriteFloatArray(id: nat, width: nat, a: seq<nat>) returns (e: Option<Error>)
      requires Valid() && (width == 4 || width == 8)
      modifies this, Repr()
      ensures Valid() && fresh(Repr() - old(Repr())) && e == err
      ensures Obeyed(Put(id, VFloatArray(width, a)))
    {
      hide Untouched, Framing, Emitted, Out, Heads, Leb, Apply, LeRun;
      FieldApplied(Lim(), Ideal(), id, VFloatArray(width, a));
      PutFloatArray(id, width, a);
      e := err;
    }

    /* ----- sequences ----- */

    /** Open a sequence without writing its header. */
    method WriteSequenceBeginLazy(id: nat) returns (e: Option<Error>)
      requires Valid()
      modifies this`pending, this`depth, this`err
      ensures Valid() && e == err
      ensures Obeyed(Begin(id))
    {
      hide Untouched, Emitted;
      if err.None? {
        if depth >= maxDepth || id > ID_MAX {
          err := Some(Argument);
        } else {
          pending := pending + [id];
          depth := depth + 1;
        }
      }
      e := err;
    }

    /** Close the innermost sequence; one still held back vanishes. */
    method WriteSequenceEnd() returns (e: Option<Error>)
      requires Valid()
      modifies this, Repr()
      ensures Valid() && fresh(Repr() - old(Repr())) && e == err
      ensures Obeyed(End)
    {
      hide Untouched, Emitted, Out, Heads, Leb;
      if err.None? {
        if depth == 0 {
          var _ := RejectArgument();
        } else if pending != [] {
          pending := pending[..|pending| - 1];
          depth := depth - 1;
        } else {
          NoHeads();
          assert Heads(pending) + END == END;
          CloseMarker();
        }
      }
      e := err;
    }

    /** Close the innermost sequence, framing it even when it is empty. */
    method WriteSequenceEndKeep() returns (e: Option<Error>)
      requires Valid()
      modifies this, Repr()
      ensures Valid() && fresh(Repr() - old(Repr())) && e == err
      ensures Obeyed(EndKeep)
    {
      hide Untouched, Emitted, Out, Heads, Leb;
      if err.None? {
        if depth == 0 {
          var _ := RejectArgument();
        } else {
          ghost var a, heads := Now(), Heads(pending);
          CommitPending();
          ghost var b := Now();
          CloseMarker();
          NoHeads();
          WroteThen(a, heads, b, Heads([]) + END, Now());
        }
      }
      e := err;
    }

    /** The end marker behind any held headers. */
    method CloseMarker()
      requires Valid() && depth > 0
      modifies this, Repr()
      ensures Valid() && fresh(Repr() - old(Repr()))
      ensures Wrote(old(Now()), Heads(old(pending)) + END, Now())
      ensures err.None? ==> pending == [] && depth == old(depth) - 1
    {
      hide Untouched, Emitted, Out, Heads;
      assert Head(0, T_SEQUENCE_END) == END;
      var ok := WriteHeaderRoom(0, T_SEQUENCE_END, 0);
      if ok { depth := depth - 1; }
    }

    /* ----- the end of a message ----- */

    /** What the active buffer holds since it was installed. A staged tail is copied out
        first, without a look at an error already recorded, which a full buffer overwrites. */
    method GetBytes() returns (b: Bytes)
      requires Valid()
      modifies this`n, this`dstN, this`err, dst
      ensures Valid() && Emitted() == old(Emitted()) && Home() == old(Home())
      ensures old(staging) && |Emitted()| > Cap() ==> err == Some(BufferFull) && b <= Emitted() && |b| <= Cap()
      ensures !(old(staging) && |Emitted()| > Cap()) ==>
                err == old(err) && b == if form.NoSink? then Emitted() else buf[start..n]
      ensures form.NoSink? ==> Home().InPlace(b)
    {
      hide Framing;
      if staging {
        var _ := Spill();
        b := dst[dstStart..dstN];
        PlacedInHome(dst, dstStart, dstN);
      } else {
        b := buf[start..n];
        if form.NoSink? {
          assert [] + b == b;
          PlacedInHome(buf, start, n);
        }
      }
    }

    lemma PlacedInHome(a: array<Byte>, lo: nat, hi: nat)
      requires lo <= hi <= a.Length == |before| && lo == origin
      requires a[..lo] == before[..lo] && a[hi..] == before[hi..]
      ensures Held(a, before, origin).InPlace(a[lo..hi])
    {
      assert a[..] == a[..lo] + a[lo..hi] + a[hi..];
    }

    /** Drain what is buffered; without a sink, find out whether the staged tail fits. */
    method Flush() returns (e: Option<Error>)
      requires Valid()
      modifies this, Repr()
      ensures Valid() && unchanged(this`depth, this`pending) && e == err && Home() == old(Home()) && fresh(Repr() - old(Repr()))
      ensures old(err).Some? ==> Now() == old(Now()) && Ideal() == old(Ideal())
      ensures old(err).None? && form.NoSink? ==>
                Emitted() == old(Emitted()) && err == if |Emitted()| <= Cap() then None else Some(BufferFull)
      ensures old(err).None? && !form.NoSink? ==>
                Wrote(old(Now()), [], Now()) && (err.None? ==> down == old(Emitted()) == Out())
      ensures old(err).None? && !form.NoSink? ==>
                err == if old(n > start) then Answer(form, flushes, old(buf[start..n]), old(buf.Length)) else None
    {
      hide Framing;
      if err.None? {
        if form.NoSink? {
          if staging { var _ := Spill(); }
        } else {
          var _ := Drain();
        }
      }
      e := err;
    }

    /* ----- construction ----- */

    /** A writer over a window of its own, or a caller's buffer from `offset` on. */
    constructor (form: Form, b: array<Byte>, offset: nat, maxDepth: int, admits: Bytes -> bool)
      requires offset <= b.Length
      requires form.ToWriter? ==> b.Length == ENC_WINDOW && offset == 0
      requires form.ToSink? ==> b.Length - offset >= MIN_OUTPUT_BUFFER
      ensures Valid() && this.form == form && this.admits == admits && buf == b && fresh(Repr() - {b})
      ensures this.maxDepth == DepthBound(maxDepth)
      ensures Ideal() == EMPTY && Emitted() == [] && Fresh(b, offset) && flushes == 0
    {
      this.form := form;
      this.maxDepth := DepthBound(maxDepth);
      this.admits := admits;
      scratch := new Byte[MIN_OUTPUT_BUFFER];
      buf := b;
      n := offset;
      start := offset;
      err := None;
      depth := 0;
      installed := false;
      pending := [];
      staging := false;
      dst := b;
      dstN := 0;
      dstStart := 0;
      down := [];
      flushes := 0;
      refusal := None;
      handed := [];
      span := 0;
      before := b[..];
      origin := offset;
    }
  }

  /** An encoder over a writer, with a window sized once, here. */
  method NewEncoder(writer: (nat, Bytes) -> Option<Error>, maxDepth: int, admits: Bytes -> bool) returns (e: Encoder)
    ensures e.Valid() && fresh(e) && fresh(e.Repr()) && e.form == ToWriter(writer) && e.Ideal() == EMPTY
    ensures e.Lim() == Limits(if 1 <= maxDepth <= 255 then maxDepth else 255, admits) && e.buf.Length == 512
  {
    var window := new Byte[ENC_WINDOW];
    e := new Encoder(ToWriter(writer), window, 0, maxDepth, admits);
  }

  /** An encoder into the caller's buffer with nowhere to drain to: no minimum applies. */
  method NewEncoderBuffer(b: array<Byte>, offset: int, maxDepth: int, admits: Bytes -> bool)
    returns (e: Encoder?, err: Option<Error>)
    ensures err == if 0 <= offset <= b.Length then None else Some(Argument)
    ensures e == null <==> err.Some?
    ensures e != null ==> fresh(e) && e.Valid() && fresh(e.Repr() - {b}) && e.form == NoSink
    ensures e != null ==> e.Ideal() == EMPTY && e.Fresh(b, offset)
    ensures e != null ==> e.Lim() == Limits(if 1 <= maxDepth <= 255 then maxDepth else 255, admits)
  {
    if 0 <= offset <= b.Length {
      e := new Encoder(NoSink, b, offset, maxDepth, admits);
      err := None;
    } else {
      e, err := null, Some(Argument);
    }
  }

  /** An encoder draining the caller's buffer through a sink. */
  method NewEncoderSink(b: array<Byte>, offset: int, sink: (nat, Bytes, nat) -> (Handover, Option<Error>),
                        maxDepth: int, admits: Bytes -> bool)
    returns (e: Encoder?, err: Option<Error>)
    ensures err == if 0 <= offset && offset + 20 <= b.Length then None else Some(Argument)
    ensures e == null <==> err.Some?
    ensures e != null ==> fresh(e) && e.Valid() && fresh(e.Repr() - {b}) && e.form == ToSink(sink)
    ensures e != null ==> e.Ideal() == EMPTY && e.Fresh(b, offset)
    ensures e != null ==> e.Lim() == Limits(if 1 <= maxDepth <= 255 then maxDepth else 255, admits)
  {
    if 0 <= offset <= b.Length && b.Length - offset >= MIN_OUTPUT_BUFFER {
      e := new Encoder(ToSink(sink), b, offset, maxDepth, admits);
      err := None;
    } else {
      e, err := null, Some(Argument);
    }
  }
}
