/** The vocabulary of the wire format shared by both directions: bytes, ceilings,
    errors, the base-128 varint with its byte-wise reader, and the zigzag map.

    The source builds a varint value by OR-ing 7-bit groups that never overlap, so
    the model adds them; `Partial.Fits` is the bound that keeps them disjoint. */
module Wire {

  const TWO_64: int := 0x1_0000_0000_0000_0000
  const TWO_63: int := 0x8000_0000_0000_0000

  type Byte = x: int | 0 <= x < 256
  type Bytes = seq<Byte>
  type U64 = x: int | 0 <= x < TWO_64
  type I64 = x: int | -TWO_63 <= x < TWO_63

  /** types.go: id ceiling, length and count ceiling, nesting ceiling. */
  const ID_MAX: int := 0x7FFF_FFFF
  const ARRAY_MAX: int := 0x7FFF_FFFF
  const MAX_DEPTH: int := 255
  /** varint.go: the longest 64-bit varint. */
  const MAX_VARINT_LEN: int := 10

  datatype Option<+T> = None | Some(value: T)

  datatype Error = InvalidMsg | Argument | BufferFull | LimitExceeded | Foreign(code: nat)

  /** The eight wire types, the low three bits of a header. */
  const T_UNSIGNED: int := 0
  const T_SIGNED: int := 1
  const T_FIXLEN: int := 2
  const T_ARRAY_UNSIGNED: int := 3
  const T_ARRAY_SIGNED: int := 4
  const T_ARRAY_FIXLEN: int := 5
  const T_SEQUENCE_START: int := 6
  const T_SEQUENCE_END: int := 7

  /* ----- base-128 varints ----- */

  /** The weight of the `k`-th 7-bit group. */
  function Weight(k: nat): (w: int)
    ensures w >= 1
  {
    if k == 0 then 1 else 128 * Weight(k - 1)
  }

  /** The low seven bits of a byte. */
  function Low7(x: Byte): (y: int)
    ensures 0 <= y < 128 && (x < 128 ==> y == x) && (x >= 128 ==> y == x - 128)
  {
    x % 128
  }

  /** `y << 7k` */
  function Group(y: int, k: nat): int { y * Weight(k) }

  lemma GroupBounds(y: int, k: nat)
    requires 0 <= y < 128
    ensures 0 <= Group(y, k) <= Weight(k + 1) - Weight(k)
  {
  }

  lemma GroupRegroup(v: nat, k: nat)
    ensures Group(v, k) == Group(v % 128, k) + Group(v / 128, k + 1)
  {
    var q, r, w := v / 128, v % 128, Weight(k);
    assert v == 128 * q + r;
    assert (128 * q + r) * w == q * (128 * w) + r * w;
  }

  lemma WeightMonotone(j: nat, k: nat)
    requires j <= k
    ensures Weight(j) <= Weight(k)
    decreases k
  {
    if j < k { WeightMonotone(j, k - 1); }
  }

  lemma Weights()
    ensures Weight(0) == 1 && Weight(1) == 0x80 && Weight(2) == 0x4000 && Weight(3) == 0x20_0000
    ensures Weight(4) == 0x1000_0000 && Weight(5) == 0x8_0000_0000 && Weight(6) == 0x400_0000_0000
    ensures Weight(7) == 0x2_0000_0000_0000 && Weight(8) == 0x100_0000_0000_0000 && Weight(9) == TWO_63
    ensures Weight(10) == 128 * TWO_63
  {
    assert Weight(2) == 0x4000;
    assert Weight(4) == 0x1000_0000;
    assert Weight(6) == 0x400_0000_0000;
    assert Weight(8) == 0x100_0000_0000_0000;
  }

  /** The minimal base-128 form: least significant group first. */
  function Leb(v: nat): (s: Bytes)
    ensures |s| >= 1
  {
    if v < 128 then [v] else [128 + v % 128] + Leb(v / 128)
  }

  /** A varint interrupted after `nb` continuation bytes worth `acc`. */
  datatype Partial = Partial(acc: int, nb: nat) {
    predicate Fits() {
      nb <= 9 && 0 <= acc < Weight(nb)
    }
  }

  const FRESH: Partial := Partial(0, 0)

  lemma FreshFits()
    ensures FRESH.Fits()
  {
  }

  datatype VarintStep = More(p: Partial) | Done(v: int) | Overflow

  /** One byte of a varint. The tenth byte has one payload bit and must end it. */
  function StepVarint(p: Partial, x: Byte): VarintStep {
    if p.nb >= 9 then
      if x > 1 then Overflow else Done(p.acc + Group(x, 9))
    else
      var acc := p.acc + Group(Low7(x), p.nb);
      if x < 128 then Done(acc) else More(Partial(acc, p.nb + 1))
  }

  datatype VarintRead = Suspended(p: Partial) | Got(v: int, used: nat) | Malformed

  /** Read a varint, resumed at `p`, from `s`; `used` counts bytes of `s`. */
  function ReadVarint(p: Partial, s: Bytes): (r: VarintRead)
    ensures r.Got? ==> 1 <= r.used <= |s|
    decreases |s|
  {
    if s == [] then Suspended(p)
    else match StepVarint(p, s[0])
      case Overflow => Malformed
      case Done(v) => Got(v, 1)
      case More(q) =>
        match ReadVarint(q, s[1..])
        case Got(v, used) => Got(v, used + 1)
        case Suspended(r) => Suspended(r)
        case Malformed => Malformed
  }

  /** The same reading, `k` bytes further along. */
  function Bump(r: VarintRead, k: nat): VarintRead {
    match r
    case Got(v, used) => Got(v, used + k)
    case _ => r
  }

  lemma ReadVarintUnfold(p: Partial, s: Bytes, q: Partial)
    requires s != [] && StepVarint(p, s[0]) == More(q)
    ensures ReadVarint(p, s) == Bump(ReadVarint(q, s[1..]), 1)
  {
    hide StepVarint;
  }

  /** A value read is a 64-bit value, a suspended varint stays within its bound. */
  lemma StepVarintBounds(p: Partial, x: Byte)
    requires p.Fits()
    ensures match StepVarint(p, x)
            case More(q) => q.Fits() && q.nb >= 1
            case Done(v) => 0 <= v < TWO_64
            case Overflow => true
  {
    Weights();
    if p.nb < 9 {
      GroupBounds(Low7(x), p.nb);
      WeightMonotone(p.nb + 1, 9);
      hide Group, Weight, Low7;
    } else {
      hide Weight, Low7;
    }
  }

  lemma {:induction false} ReadVarintBounds(p: Partial, s: Bytes)
    requires p.Fits()
    ensures match ReadVarint(p, s)
            case Suspended(q) => q.Fits() && q.nb == p.nb + |s|
            case Got(v, used) => 0 <= v < TWO_64
            case Malformed => true
    decreases |s|
  {
    if s != [] {
      StepVarintBounds(p, s[0]);
      match StepVarint(p, s[0])
      case More(q) => ReadVarintBounds(q, s[1..]);
      case _ =>
    }
    hide Group, Weight, Low7;
  }

  lemma ReadVarintMore(p: Partial, s: Bytes)
    requires s != [] && p.nb < 9 && s[0] >= 128
    ensures ReadVarint(p, s) ==
            Bump(ReadVarint(Partial(p.acc + Group(s[0] - 128, p.nb), p.nb + 1), s[1..]), 1)
  {
    hide Group;
  }

  lemma ReadVarintLast(p: Partial, s: Bytes)
    requires s != [] && p.nb <= 9 && s[0] < 128 && (p.nb == 9 ==> s[0] <= 1)
    ensures ReadVarint(p, s) == Got(p.acc + Group(s[0], p.nb), 1)
  {
    hide Group;
  }

  lemma OneBitLeft(v: nat)
    requires Group(v, 9) < TWO_64
    ensures v <= 1
  {
    Weights();
    hide Weight;
  }

  /** Reading the minimal form gives the value back and leaves the rest alone. */
  lemma {:induction false} ReadLeb(p: Partial, v: nat, rest: Bytes)
    requires p.nb <= 9 && Group(v, p.nb) < TWO_64
    ensures ReadVarint(p, Leb(v) + rest) == Got(p.acc + Group(v, p.nb), |Leb(v)|)
    decreases v
  {
    var s := Leb(v) + rest;
    if p.nb == 9 { OneBitLeft(v); }
    if v < 128 {
      hide Group, ReadVarint;
      ReadVarintLast(p, s);
    } else {
      GroupRegroup(v, p.nb);
      GroupBounds(v % 128, p.nb);
      hide Group, ReadVarint;
      assert s[0] == 128 + v % 128 && s[1..] == Leb(v / 128) + rest;
      ReadVarintMore(p, s);
      ReadLeb(Partial(p.acc + Group(v % 128, p.nb), p.nb + 1), v / 128, rest);
    }
  }

  lemma ReadFreshLeb(v: U64, rest: Bytes)
    ensures ReadVarint(FRESH, Leb(v) + rest) == Got(v, |Leb(v)|)
  {
    assert Group(v, 0) == v;
    ReadLeb(FRESH, v, rest);
  }

  /* ----- zigzag ----- */

  function Zigzag(v: I64): (u: U64) {
    if v >= 0 then 2 * v else -2 * v - 1
  }

  function Unzigzag(u: U64): (v: I64) {
    if u % 2 == 0 then u / 2 else -(u / 2) - 1
  }

  /* ----- little-endian words ----- */

  function Le(s: Bytes): nat {
    if s == [] then 0 else s[0] + 256 * Le(s[1..])
  }

  function LeBytes(v: nat, width: nat): (s: Bytes)
    ensures |s| == width
  {
    if width == 0 then [] else [v % 256] + LeBytes(v / 256, width - 1)
  }

  function Pow256(k: nat): int {
    if k == 0 then 1 else 256 * Pow256(k - 1)
  }

  lemma {:induction false} LeRoundTrip(v: nat, width: nat)
    requires v < Pow256(width)
    ensures Le(LeBytes(v, width)) == v
  {
    if width > 0 {
      LeRoundTrip(v / 256, width - 1);
      assert LeBytes(v, width)[1..] == LeBytes(v / 256, width - 1);
    }
  }

  lemma LeUnfold(s: Bytes, n: nat)
    requires |s| == n + 1
    ensures Le(s) == s[0] + 256 * Le(s[1..]) && |s[1..]| == n && forall i :: 0 <= i < n ==> s[1..][i] == s[i + 1]
  {
    hide Le;
    LeStep(s);
  }

  lemma LeStep(s: Bytes)
    requires s != []
    ensures Le(s) == s[0] + 256 * Le(s[1..])
  {
  }

  /** Four bytes, the first one the least significant. */
  function Sum4(s: Bytes): int
    requires |s| == 4
  {
    s[0] as int + s[1] as int * 0x100 + s[2] as int * 0x1_0000 + s[3] as int * 0x100_0000
  }

  /** A four-byte word has its least significant byte first. */
  lemma LittleEndian4(s: Bytes)
    requires |s| == 4
    ensures Le(s) == Sum4(s)
  {
    LeUnfold(s, 3);
    LeUnfold(s[1..], 2);
    LeUnfold(s[1..][1..], 1);
    LeUnfold(s[1..][1..][1..], 0);
    assert s[1..][1..][1..][1..] == [] && Le([]) == 0;
    hide Le;
  }

  /** And so has an eight-byte word. */
  lemma LittleEndian8(s: Bytes)
    requires |s| == 8
    ensures Le(s) == Sum4(s[..4]) + 0x1_0000_0000 * Sum4(s[4..])
  {
    var t := s[4..];
    LittleEndian4(t);
    LeSplit(s[..4], t);
    assert s[..4] + t == s;
    LittleEndian4(s[..4]);
    hide Le;
  }

  lemma LeSplit(a: Bytes, b: Bytes)
    requires |a| == 4
    ensures Le(a + b) == Le(a) + 0x1_0000_0000 * Le(b)
  {
    LeTail(a, b, 4);
    assert Pow256(4) == 0x1_0000_0000;
    hide Le;
  }

  lemma {:induction false} LeTail(a: Bytes, b: Bytes, n: nat)
    requires |a| == n
    ensures Le(a + b) == Le(a) + Pow256(n) * Le(b)
    decreases n
  {
    if n == 0 {
      assert a + b == b;
    } else {
      assert (a + b)[1..] == a[1..] + b;
      LeTail(a[1..], b, n - 1);
      var x, y := Pow256(n - 1), Le(b);
      assert 256 * (x * y) == (256 * x) * y;
    }
  }

  /** Splitting a word into bytes and reading it are inverse on bytes, too. */
  lemma {:induction false} LeBytesOfLe(s: Bytes)
    ensures LeBytes(Le(s), |s|) == s && Le(s) < Pow256(|s|)
    decreases |s|
  {
    if s != [] {
      LeBytesOfLe(s[1..]);
      var q := Le(s[1..]);
      assert Le(s) == 256 * q + s[0];
      assert Le(s) / 256 == q && Le(s) % 256 == s[0];
      assert [s[0]] + s[1..] == s;
    }
  }

  /** The bytes written for a word are its digits, the least significant first. */
  lemma LittleEndianBytes(v: nat)
    ensures v < 0x1_0000_0000 ==> v == Sum4(LeBytes(v, 4))
    ensures v < TWO_64 ==> v == Sum4(LeBytes(v, 8)[..4]) + 0x1_0000_0000 * Sum4(LeBytes(v, 8)[4..])
  {
    PowersOf256();
    hide LeBytes, Le, Pow256;
    if v < 0x1_0000_0000 {
      LeRoundTrip(v, 4);
      LittleEndian4(LeBytes(v, 4));
    }
    if v < TWO_64 {
      LeRoundTrip(v, 8);
      LittleEndian8(LeBytes(v, 8));
    }
  }

  lemma PowersOf256()
    ensures Pow256(4) == 0x1_0000_0000 && Pow256(8) == TWO_64
  {
    assert Pow256(2) == 0x1_0000;
    assert Pow256(4) == 0x1_0000_0000;
    assert Pow256(6) == 0x1_0000_0000_0000;
  }
}
