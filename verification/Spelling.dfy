/** The wire format as a reader of it would write it down: what bytes spell, without a
    decoder. Numbers are written out; nothing here is shared with the machine. */
module Spelling {
  import opened Wire
  import opened Serializer

  /** What a prefix of some bytes spells: a thing and the rest, nothing yet because the bytes
      end too soon, or nothing at all. */
  datatype Reading<+T> = Read(x: T, rest: Bytes) | Short | Wrong

  /** What a base-128 number can still add from its `k`-th group on, ten groups in all. */
  function Reach(k: nat): (r: nat)
    requires k <= 9
    ensures r >= 2
    decreases 9 - k
  {
    if k == 9 then 2 else 128 * Reach(k + 1)
  }

  /** A base-128 number from its `k`-th byte on: the tenth byte is its last, and 0 or 1. */
  function Groups(s: Bytes, k: nat): (r: Reading<nat>)
    requires k <= 9
    ensures r.Read? ==> r.x < Reach(k) && |r.rest| < |s|
    decreases |s|
  {
    if s == [] then Short
    else if k == 9 then (if s[0] <= 1 then Read(s[0], s[1..]) else Wrong)
    else if s[0] < 128 then Read(s[0], s[1..])
    else match Groups(s[1..], k + 1)
      case Read(x, rest) => Read(s[0] - 128 + 128 * x, rest)
      case Short => Short
      case Wrong => Wrong
  }

  lemma ReachIsAWord()
    ensures Reach(0) == 0x1_0000_0000_0000_0000
  {
    assert Reach(8) == 0x100;
    assert Reach(6) == 0x40_0000;
    assert Reach(4) == 0x10_0000_0000;
    assert Reach(2) == 0x4_0000_0000_0000;
  }

  function Number(s: Bytes): (r: Reading<U64>)
    ensures r.Read? ==> |r.rest| < |s|
  {
    ReachIsAWord();
    match Groups(s, 0)
    case Read(x, rest) => Read(x, rest)
    case Short => Short
    case Wrong => Wrong
  }

  function Take(n: nat, s: Bytes): (r: Reading<Bytes>)
    ensures r.Read? ==> |r.rest| <= |s| && |r.x| == n
  {
    if |s| < n then Short else Read(s[..n], s[n..])
  }

  function Numbers(n: nat, s: Bytes): (r: Reading<seq<U64>>)
    ensures r.Read? ==> |r.rest| <= |s| && |r.x| == n
  {
    if n == 0 then Read([], s)
    else match Number(s)
      case Short => Short
      case Wrong => Wrong
      case Read(v, rest) =>
        match Numbers(n - 1, rest)
        case Short => Short
        case Wrong => Wrong
        case Read(vs, end) => Read([v] + vs, end)
  }

  /** A word of four or eight bytes, the least significant first. */
  function Word(s: Bytes): nat
    requires |s| == 4 || |s| == 8
  {
    var low := s[0] as int + s[1] as int * 0x100 + s[2] as int * 0x1_0000 + s[3] as int * 0x100_0000;
    if |s| == 4 then low
    else low + 0x1_0000_0000 * (s[4] as int + s[5] as int * 0x100 + s[6] as int * 0x1_0000 + s[7] as int * 0x100_0000)
  }

  function Words(n: nat, width: nat, s: Bytes): (r: Reading<seq<nat>>)
    requires width == 4 || width == 8
    ensures r.Read? ==> |r.rest| <= |s| && |r.x| == n
  {
    if n == 0 then Read([], s)
    else if |s| < width then Short
    else match Words(n - 1, width, s[width..])
      case Short => Short
      case Wrong => Wrong
      case Read(ws, end) => Read([Word(s[..width])] + ws, end)
  }

  /** 0 -> 0, 1 -> -1, 2 -> 1, 3 -> -2 and so on. */
  function Signed(u: U64): I64 { if u % 2 == 0 then u / 2 else -((u + 1) / 2) }

  function SignedAll(us: seq<U64>): (ss: seq<I64>)
    ensures |ss| == |us| && forall i :: 0 <= i < |us| ==> ss[i] == Signed(us[i])
  {
    seq(|us|, i requires 0 <= i < |us| => Signed(us[i]))
  }

  /** The value of a field of wire type `t`, 0 to 5, behind its header. */
  function ValueAt(t: nat, s: Bytes): (r: Reading<Value>)
    requires t <= 5
    ensures r.Read? ==> |r.rest| < |s|
  {
    match Number(s)
    case Short => Short
    case Wrong => Wrong
    case Read(v, rest) =>
      if t == 0 then Read(VUnsigned(v), rest)
      else if t == 1 then Read(VSigned(Signed(v)), rest)
      else if t == 2 then FixlenAt(v / 8, v % 8, rest)
      else if v > 2147483647 then Wrong
      else if t == 5 then FloatsAt(v, rest)
      else match Numbers(v, rest)
        case Short => Short
        case Wrong => Wrong
        case Read(us, end) => Read(if t == 3 then VUnsignedArray(us) else VSignedArray(SignedAll(us)), end)
  }

  /** A fixed-length value of `n` bytes and subtype `sub`. */
  function FixlenAt(n: nat, sub: nat, s: Bytes): (r: Reading<Value>)
    ensures r.Read? ==> |r.rest| <= |s|
  {
    if n > 2147483647 || sub > 3 || (sub == 0 && n != 4) || (sub == 1 && n != 8) then Wrong
    else match Take(n, s)
      case Short => Short
      case Wrong => Wrong
      case Read(bs, rest) =>
        Read(if sub <= 1 then VFloat(n, Word(bs)) else if sub == 2 then VText(bs) else VBlob(bs), rest)
  }

  /** An array of `n` floats, behind the word that gives their width. */
  function FloatsAt(n: nat, s: Bytes): (r: Reading<Value>)
    ensures r.Read? ==> |r.rest| <= |s|
  {
    match Number(s)
    case Short => Short
    case Wrong => Wrong
    case Read(w, rest) =>
      if w != 0x20 && w != 0x41 then Wrong
      else
        var width := if w == 0x20 then 4 else 8;
        match Words(n, width, rest)
        case Short => Short
        case Wrong => Wrong
        case Read(ws, end) => Read(VFloatArray(width, ws), end)
  }

  /** The fields of a scope `depth` levels down, to its end marker, or of a whole message to
      the end of the bytes. */
  function Fields(s: Bytes, depth: nat): (r: Reading<seq<Node>>)
    ensures r.Read? ==> |r.rest| <= |s| && (depth == 0 ==> r.rest == [])
    decreases |s|
  {
    if s == [] then (if depth == 0 then Read([], []) else Short)
    else match Number(s)
      case Short => Short
      case Wrong => Wrong
      case Read(h, rest) =>
        var id, t := h / 8, h % 8;
        if id > 2147483647 then Wrong
        else if t == 7 then (if depth == 0 then Wrong else Read([], rest))
        else if t == 6 then
          if depth >= 255 then Wrong
          else match Fields(rest, depth + 1)
            case Short => Short
            case Wrong => Wrong
            case Read(kids, more) => Before(Sequence(id, kids, false), Fields(more, depth))
        else match ValueAt(t, rest)
          case Short => Short
          case Wrong => Wrong
          case Read(v, more) => Before(Field(id, v), Fields(more, depth))
  }

  function Before(n: Node, r: Reading<seq<Node>>): Reading<seq<Node>> {
    match r
    case Read(nodes, rest) => Read([n] + nodes, rest)
    case Short => Short
    case Wrong => Wrong
  }

  /** A whole message. */
  function Message(s: Bytes): Reading<seq<Node>> { Fields(s, 0) }
}
