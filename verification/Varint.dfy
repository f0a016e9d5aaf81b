/** varint.go: the unrolled varint reader and writer, and their one definition. */
module Varint {
  import opened Wire

  /* ----- decode ----- */

  /** The value of the 7-bit groups of `s`. */
  function Groups(s: Bytes): int {
    if s == [] then 0 else Groups(s[..|s| - 1]) + Group(Low7(s[|s| - 1]), |s| - 1)
  }

  /** The unrolled reader over its window of ten bytes: value, length, and false when
      the varint needs more than 64 bits. */
  function UvarintWindow(s: Bytes): (int, nat, bool)
    requires |s| == MAX_VARINT_LEN
  {
    var v0: int := Low7(s[0]);
    if s[0] < 0x80 then (v0, 1, true) else
    var v1: int := v0 + Low7(s[1]) * 0x80;
    if s[1] < 0x80 then (v1, 2, true) else
    var v2: int := v1 + Low7(s[2]) * 0x4000;
    if s[2] < 0x80 then (v2, 3, true) else
    var v3: int := v2 + Low7(s[3]) * 0x20_0000;
    if s[3] < 0x80 then (v3, 4, true) else
    var v4: int := v3 + Low7(s[4]) * 0x1000_0000;
    if s[4] < 0x80 then (v4, 5, true) else
    var v5: int := v4 + Low7(s[5]) * 0x8_0000_0000;
    if s[5] < 0x80 then (v5, 6, true) else
    var v6: int := v5 + Low7(s[6]) * 0x400_0000_0000;
    if s[6] < 0x80 then (v6, 7, true) else
    var v7: int := v6 + Low7(s[7]) * 0x2_0000_0000_0000;
    if s[7] < 0x80 then (v7, 8, true) else
    var v8: int := v7 + Low7(s[8]) * 0x100_0000_0000_0000;
    if s[8] < 0x80 then (v8, 9, true) else
    if s[9] > 1 then (0, 0, false) else (v8 + (s[9] as int) * 0x8000_0000_0000_0000, 10, true)
  }

  function UvarintFast(b: Bytes, p: nat): (int, nat, bool)
    requires p + MAX_VARINT_LEN <= |b|
  {
    var (v, used, ok) := UvarintWindow(b[p..p + MAX_VARINT_LEN]);
    (v, p + used, ok)
  }

  lemma GroupsStep(s: Bytes, k: nat)
    requires k < |s|
    ensures Groups(s[..k + 1]) == Groups(s[..k]) + Group(Low7(s[k]), k)
  {
    hide Group, Low7;
    assert s[..k + 1][..k] == s[..k];
  }

  lemma {:induction false} ReadContinued(s: Bytes, k: nat)
    requires k <= 9 && k <= |s| && forall i :: 0 <= i < k ==> s[i] >= 128
    ensures ReadVarint(FRESH, s) == Bump(ReadVarint(Partial(Groups(s[..k]), k), s[k..]), k)
    decreases k
  {
    hide Group, ReadVarint;
    if k == 0 {
      assert s[0..] == s && s[..0] == [];
    } else {
      ReadContinued(s, k - 1);
      GroupsStep(s, k - 1);
      var t := s[k - 1..];
      assert t[1..] == s[k..];
      hide Groups;
      ReadVarintMore(Partial(Groups(s[..k - 1]), k - 1), t);
    }
  }

  /** How a varint that ends at byte `k` reads, the tenth byte included. */
  lemma ReadEndsAt(s: Bytes, k: nat)
    requires k <= 9 && k < |s| && (forall i :: 0 <= i < k ==> s[i] >= 128) && (k < 9 ==> s[k] < 128)
    ensures ReadVarint(FRESH, s) ==
            if k == 9 && s[k] > 1 then Malformed else Got(Groups(s[..k + 1]), k + 1)
  {
    hide Group, Groups;
    ReadContinued(s, k);
    GroupsStep(s, k);
    assert s[k..][0] == s[k];
  }

  /** The first byte below 128 within nine, or nine. */
  function EndOf(s: Bytes, k: nat): (e: nat)
    requires k <= 9 < |s|
    ensures k <= e <= 9 && (forall i :: k <= i < e ==> s[i] >= 128) && (e < 9 ==> s[e] < 128)
    decreases 9 - k
  {
    if k == 9 || s[k] < 128 then k else EndOf(s, k + 1)
  }

  lemma GroupsLiteral(s: Bytes, k: nat, w: int)
    requires k < |s| && w == Weight(k)
    ensures Groups(s[..k + 1]) == Groups(s[..k]) + Low7(s[k]) * w
  {
    GroupsStep(s, k);
    hide Groups, Low7, Weight;
  }

  /** The literal weights of the unrolled reader are the groups' weights. */
  lemma GroupsUnrolled(s: Bytes)
    requires |s| == MAX_VARINT_LEN
    ensures Groups(s[..1]) == Low7(s[0])
    ensures Groups(s[..2]) == Groups(s[..1]) + Low7(s[1]) * 0x80
    ensures Groups(s[..3]) == Groups(s[..2]) + Low7(s[2]) * 0x4000
    ensures Groups(s[..4]) == Groups(s[..3]) + Low7(s[3]) * 0x20_0000
    ensures Groups(s[..5]) == Groups(s[..4]) + Low7(s[4]) * 0x1000_0000
    ensures Groups(s[..6]) == Groups(s[..5]) + Low7(s[5]) * 0x8_0000_0000
    ensures Groups(s[..7]) == Groups(s[..6]) + Low7(s[6]) * 0x400_0000_0000
    ensures Groups(s[..8]) == Groups(s[..7]) + Low7(s[7]) * 0x2_0000_0000_0000
    ensures Groups(s[..9]) == Groups(s[..8]) + Low7(s[8]) * 0x100_0000_0000_0000
    ensures Groups(s[..10]) == Groups(s[..9]) + Low7(s[9]) * 0x8000_0000_0000_0000
  {
    assert Groups(s[..0]) == 0;
    Weights();
    hide Groups, Low7, Weight;
    GroupsLiteral(s, 0, 1);
    GroupsLiteral(s, 1, 0x80);
    GroupsLiteral(s, 2, 0x4000);
    GroupsLiteral(s, 3, 0x20_0000);
    GroupsLiteral(s, 4, 0x1000_0000);
    GroupsLiteral(s, 5, 0x8_0000_0000);
    GroupsLiteral(s, 6, 0x400_0000_0000);
    GroupsLiteral(s, 7, 0x2_0000_0000_0000);
    GroupsLiteral(s, 8, 0x100_0000_0000_0000);
    GroupsLiteral(s, 9, TWO_63);
  }

  /** The unrolled reader stops at the first byte below 128, with the groups so far. */
  lemma UvarintWindowAt(s: Bytes, e: nat)
    requires |s| == MAX_VARINT_LEN
    requires e <= 9 && (forall i :: 0 <= i < e ==> s[i] >= 128) && (e < 9 ==> s[e] < 128)
    ensures UvarintWindow(s) ==
            if e == 9 && s[e] > 1 then (0, 0, false) else (Groups(s[..e + 1]), e + 1, true)
  {
    hide Groups;
    GroupsUnrolled(s);
    if e < 5 {
      if e == 0 {} else if e == 1 {} else if e == 2 {} else if e == 3 {} else {}
    } else {
      if e == 5 {} else if e == 6 {} else if e == 7 {} else if e == 8 {} else {}
    }
  }

  /** The unrolled reader and the byte-wise one agree on every input, non-minimal
      and overlong ones included. */
  lemma UvarintFastReads(b: Bytes, p: nat)
    requires p + MAX_VARINT_LEN <= |b|
    ensures var (v, np, ok) := UvarintFast(b, p);
            ReadVarint(FRESH, b[p..]) == if ok then Got(v, np - p) else Malformed
    ensures var (v, np, ok) := UvarintFast(b, p); ok ==> 0 <= v < TWO_64 && p < np <= p + MAX_VARINT_LEN
  {
    var s, w := b[p..], b[p..p + MAX_VARINT_LEN];
    ReadVarintBounds(FRESH, s);
    hide UvarintWindow, Groups, ReadVarint;
    var e := EndOf(w, 0);
    assert forall i :: 0 <= i < e ==> s[i] == w[i];
    assert s[..e + 1] == w[..e + 1];
    ReadEndsAt(s, e);
    UvarintWindowAt(w, e);
  }

  /** Exactly nine continuation bytes followed by a tenth above 1 are rejected. */
  lemma MalformedExactly(s: Bytes)
    ensures ReadVarint(FRESH, s) == Malformed <==>
            |s| >= 10 && (forall i :: 0 <= i < 9 ==> s[i] >= 128) && s[9] > 1
  {
    hide ReadVarint, Groups;
    if |s| >= 10 {
      ReadEndsAt(s, EndOf(s, 0));
    } else {
      ReadShort(FRESH, s);
    }
  }

  lemma {:induction false} ReadShort(p: Partial, s: Bytes)
    requires p.nb + |s| <= 9
    ensures ReadVarint(p, s) != Malformed
    decreases |s|
  {
    hide Group;
    if s != [] && s[0] >= 128 {
      ReadShort(Partial(p.acc + Group(s[0] - 128, p.nb), p.nb + 1), s[1..]);
    }
  }

  /* ----- the emitted form is the minimal one, and the only one that short ----- */

  /** A whole varint, of any length, and the number it denotes. */
  predicate Whole(s: Bytes) {
    s != [] && s[|s| - 1] < 128 && forall i :: 0 <= i < |s| - 1 ==> s[i] >= 128
  }

  function Denotes(s: Bytes): nat {
    if s == [] then 0 else Low7(s[0]) + 128 * Denotes(s[1..])
  }

  lemma DenotesCons(x: Byte, t: Bytes)
    ensures Denotes([x] + t) == Low7(x) + 128 * Denotes(t)
  {
    hide Low7;
    assert ([x] + t)[1..] == t;
  }

  lemma {:induction false} LebWhole(v: nat)
    ensures Whole(Leb(v)) && Denotes(Leb(v)) == v
    decreases v
  {
    if v < 128 {
      DenotesCons(v, []);
    } else {
      var t, r := Leb(v / 128), v % 128;
      LebWhole(v / 128);
      assert Leb(v) == [128 + r] + t;
      assert v == 128 * (v / 128) + r;
      hide Leb, Low7, Denotes;
      DenotesCons(128 + r, t);
    }
  }

  /** Any other spelling of a number is longer. */
  lemma {:induction false} LebMinimal(s: Bytes)
    requires Whole(s)
    ensures |Leb(Denotes(s))| <= |s|
    ensures |Leb(Denotes(s))| == |s| ==> Leb(Denotes(s)) == s
    decreases |s|
  {
    var v, t := Denotes(s), s[1..];
    if t == [] {
      assert Denotes(t) == 0;
      assert v == s[0];
    } else {
      hide Low7;
      LebMinimal(t);
      assert s == [s[0]] + t;
      var y := s[0] - 128;
      assert 0 <= y < 128 && v == y + 128 * Denotes(t);
      assert v / 128 == Denotes(t) && v % 128 == y;
    }
  }

  lemma {:induction false} LebLength(v: nat, k: nat)
    requires v < Weight(k) && k >= 1
    ensures |Leb(v)| <= k
    decreases k
  {
    if v >= 128 { LebLength(v / 128, k - 1); }
  }

  lemma LebLength64(v: U64)
    ensures |Leb(v)| <= MAX_VARINT_LEN
  {
    Weights();
    LebLength(v, 10);
  }

  /* ----- encode ----- */

  /** `Leb` spelled after `k` continuation bytes have been written. */
  ghost predicate Written(b: array<Byte>, p: nat, k: nat, rest: nat, all: Bytes, was: Bytes)
    reads b
  {
    && p + k <= b.Length == |was|
    && b[..] == was[..p] + b[p..p + k] + was[p + k..]
    && all == b[p..p + k] + Leb(rest)
  }

  lemma Regrouped(b: array<Byte>, p: nat, k: nat, all: Bytes, was: Bytes, head: Bytes, v: nat)
    requires p + k < b.Length == |was| && v >= 128
    requires b[..] == was[..p] + head + [128 + v % 128] + was[p + k + 1..] && |head| == k
    requires all == head + Leb(v)
    ensures Written(b, p, k + 1, v / 128, all, was)
  {
    assert b[p..p + k + 1] == head + [128 + v % 128];
  }

  lemma BeginWritten(b: array<Byte>, p: nat, v: nat)
    requires p <= b.Length
    ensures Written(b, p, 0, v, Leb(v), b[..])
  {
    assert b[p..p] + Leb(v) == Leb(v);
  }

  /** Write a continuation byte. */
  method PutGroup(b: array<Byte>, p: nat, k: nat, v: nat, ghost all: Bytes, ghost was: Bytes) returns (rest: nat)
    requires p + k < b.Length && v >= 128 && Written(b, p, k, v, all, was) && k <= 8 && v < Weight(10 - k)
    modifies b
    ensures rest < Weight(9 - k) && Written(b, p, k + 1, rest, all, was)
  {
    ghost var head := b[p..p + k];
    b[p + k] := 128 + v % 128;
    assert b[..] == was[..p] + head + [128 + v % 128] + was[p + k + 1..];
    Regrouped(b, p, k, all, was, head, v);
    rest := v / 128;
  }

  /** Write the last byte. */
  method PutLast(b: array<Byte>, p: nat, k: nat, v: nat, ghost all: Bytes, ghost was: Bytes) returns (np: nat)
    requires p + k < b.Length && v < 128 && Written(b, p, k, v, all, was)
    modifies b
    ensures np == p + |all| && np == p + k + 1
    ensures b[..] == was[..p] + all + was[np..]
  {
    ghost var head := b[p..p + k];
    assert all == head + [v];
    b[p + k] := v;
    np := p + k + 1;
  }

  /** The unrolled writer: the minimal form of `v` at `p`, nothing else touched. */
  method PutUvarint(b: array<Byte>, p: nat, v: U64) returns (np: nat)
    requires p + MAX_VARINT_LEN <= b.Length
    modifies b
    ensures np == p + |Leb(v)| <= p + MAX_VARINT_LEN
    ensures b[..] == old(b[..])[..p] + Leb(v) + old(b[..])[np..]
  {
    hide Leb, Written, Weight;
    ghost var all, was := Leb(v), b[..];
    BeginWritten(b, p, v);
    Weights();
    var x := v;
    if x < 0x80 { np := PutLast(b, p, 0, x, all, was); return; }
    x := PutGroup(b, p, 0, x, all, was);
    if x < 0x80 { np := PutLast(b, p, 1, x, all, was); return; }
    x := PutGroup(b, p, 1, x, all, was);
    if x < 0x80 { np := PutLast(b, p, 2, x, all, was); return; }
    x := PutGroup(b, p, 2, x, all, was);
    if x < 0x80 { np := PutLast(b, p, 3, x, all, was); return; }
    x := PutGroup(b, p, 3, x, all, was);
    if x < 0x80 { np := PutLast(b, p, 4, x, all, was); return; }
    x := PutGroup(b, p, 4, x, all, was);
    np := PutUvarintHigh(b, p, x, all, was);
  }

  /** The second half of the unrolled writer, after five continuation bytes. */
  method PutUvarintHigh(b: array<Byte>, p: nat, v: nat, ghost all: Bytes, ghost was: Bytes) returns (np: nat)
    requires p + MAX_VARINT_LEN <= b.Length && Written(b, p, 5, v, all, was) && v < Weight(5)
    modifies b
    ensures np == p + |all| <= p + MAX_VARINT_LEN
    ensures b[..] == was[..p] + all + was[np..]
  {
    Weights();
    hide Leb, Written, Weight;
    var x := v;
    if x < 0x80 { np := PutLast(b, p, 5, x, all, was); return; }
    x := PutGroup(b, p, 5, x, all, was);
    if x < 0x80 { np := PutLast(b, p, 6, x, all, was); return; }
    x := PutGroup(b, p, 6, x, all, was);
    if x < 0x80 { np := PutLast(b, p, 7, x, all, was); return; }
    x := PutGroup(b, p, 7, x, all, was);
    if x < 0x80 { np := PutLast(b, p, 8, x, all, was); return; }
    x := PutGroup(b, p, 8, x, all, was);
    np := PutLast(b, p, 9, x, all, was);
  }

  /* ----- zigzag on 64-bit words ----- */

  /** The two's complement reading of a word. */
  function AsSigned(w: U64): I64 {
    if w < TWO_63 then w else w - TWO_64
  }

  /** XOR with an all-ones word. */
  function Complement(w: U64): U64 { TWO_64 - 1 - w }

  /** `(v << 1) ^ (v >> 63)` on the word of `v`: the left shift drops the top bit, the arithmetic right shift spreads
      the sign over the whole word. */
  function ZigzagWord(w: U64): U64 {
    var doubled := if w < TWO_63 then 2 * w else 2 * w - TWO_64;
    if w < TWO_63 then doubled else Complement(doubled)
  }

  /** `(u >> 1) ^ -(u & 1)` */
  function UnzigzagWord(u: U64): U64 {
    if u % 2 == 0 then u / 2 else Complement(u / 2)
  }

  /** The word operations compute the zigzag map. */
  lemma ZigzagWords(w: U64)
    ensures ZigzagWord(w) == Zigzag(AsSigned(w)) && AsSigned(UnzigzagWord(w)) == Unzigzag(w)
  {
    var h, r := w / 2, w % 2;
    assert w == 2 * h + r && 0 <= r <= 1;
  }

  /** Zigzag loses nothing on 64-bit values, in either direction. */
  lemma ZigzagInverse(v: I64, u: U64)
    ensures Unzigzag(Zigzag(v)) == v && Zigzag(Unzigzag(u)) == u
  {
    if v >= 0 { assert Zigzag(v) == 2 * v; } else { assert Zigzag(v) == -2 * (v as int) - 1; }
    var h, r := u / 2, u % 2;
    assert u == 2 * h + r && 0 <= r <= 1;
  }
}
