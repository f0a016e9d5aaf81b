/** collectors.go: the matrix collectors, rows built over left-over storage and placed
    when they end. */
module Matrix {
  import opened Wire
  import opened Machine
  import opened Grammar
  import opened Placement
  import opened Storage

  /** The declared element type: its wire kind, the range it allows (a zero bound switches
      the check off) and the width a value is narrowed to. */
  datatype Element =
    | UnsignedElem(hi: int, modulus: int)
    | SignedElem(lo: int, hi: int, modulus: int)
    | FloatElem(width: int)
  {
    /** The bounds belong to the width. */
    predicate Declared() {
      match this
      case UnsignedElem(hi, modulus) => if hi == 0 then modulus == TWO_64 else 0 < hi < modulus
      case SignedElem(lo, hi, modulus) =>
        if lo == 0 then modulus == TWO_64 else 0 < modulus && modulus % 2 == 0 && -modulus / 2 <= lo < 0 <= hi < modulus / 2
      case FloatElem(width) => width == 4 || width == 8
    }

    function Kind(): Kind {
      match this
      case UnsignedElem(_, _) => KUnsigned
      case SignedElem(_, _, _) => KSigned
      case FloatElem(width) => if width == 4 then KFp32 else KFp64
    }

    predicate Refuses(v: int) {
      match this
      case UnsignedElem(hi, _) => hi != 0 && v > hi
      case SignedElem(lo, hi, _) => lo != 0 && (v < lo || v > hi)
      case FloatElem(_) => false
    }

    /** The conversion to the stored type, which only masks. */
    function Narrow(v: int): int
      requires Declared()
    {
      match this
      case UnsignedElem(_, modulus) => v % modulus
      case SignedElem(_, _, modulus) => if v % modulus < modulus / 2 then v % modulus else v % modulus - modulus
      case FloatElem(_) => v
    }

    /** The value an event carries, if it is this element type's callback. */
    function ValueOf(ev: Event): Option<int> {
      match ev
      case ArrayUnsigned(_, _, v) => if UnsignedElem? then Some(v) else None
      case ArraySigned(_, _, s) => if SignedElem? then Some(s) else None
      case ArrayFloat(_, _, width, bits) => if FloatElem? && ((width == 4) == (this.width == 4)) then Some(bits) else None
      case _ => None
    }
  }

  lemma Multiples(m: int, q: int)
    requires 0 < m
    ensures (q >= 1 ==> m * q >= m) && (q <= -2 ==> m * q <= -2 * m)
  {
  }

  lemma Mod(v: int, m: int)
    requires 0 < m && -m <= v < m
    ensures v % m == if v >= 0 then v else if v == -m then 0 else v + m
  {
    var q := v / m;
    assert v == m * q + v % m;
    Multiples(m, q);
  }

  /** A value the range check let through is stored as it came. */
  lemma NarrowedExactly(elem: Element, v: int)
    requires elem.Declared() && !elem.Refuses(v)
    requires if elem.UnsignedElem? then 0 <= v < TWO_64 else elem.SignedElem? ==> -TWO_63 <= v < TWO_63
    ensures elem.Narrow(v) == v
  {
    if !elem.FloatElem? {
      var m := elem.modulus;
      assert elem.SignedElem? ==> m == 2 * (m / 2) && -(m / 2) <= v < m / 2;
      Mod(v, m);
    }
  }

  /** The range check and the conversion are made for each other: at the full declared width
      a value is refused exactly when storing it would change it. */
  lemma RefusedExactly(elem: Element, v: int)
    requires elem.Declared() && !elem.FloatElem?
    requires if elem.UnsignedElem? then 0 <= v < TWO_64 else -TWO_63 <= v < TWO_63
    requires elem.UnsignedElem? && elem.hi != 0 ==> elem.hi == elem.modulus - 1
    requires elem.SignedElem? && elem.lo != 0 ==> elem.lo == -(elem.modulus / 2) && elem.hi == elem.modulus / 2 - 1
    ensures elem.Refuses(v) <==> elem.Narrow(v) != v
  {
    if !elem.Refuses(v) {
      NarrowedExactly(elem, v);
    } else if elem.UnsignedElem? {
      NarrowRange(elem, v);
    } else {
      assert elem.modulus == 2 * (elem.modulus / 2);
      NarrowRange(elem, v);
    }
  }

  lemma NarrowRange(elem: Element, v: int)
    requires elem.Declared() && !elem.FloatElem?
    ensures elem.UnsignedElem? ==> 0 <= elem.Narrow(v) < elem.modulus
    ensures elem.SignedElem? ==> -elem.modulus <= 2 * elem.Narrow(v) < elem.modulus
  {
    var m := elem.modulus;
    if elem.SignedElem? { assert m == 2 * (m / 2); }
  }

  /** The declared bounds themselves are let through, what is next to them is not, and
      what lies further out no more than what is nearer. */
  lemma RefusalEdges(elem: Element, v: int, w: int)
    requires elem.Declared()
    ensures elem.UnsignedElem? && elem.hi != 0 ==> !elem.Refuses(elem.hi) && elem.Refuses(elem.hi + 1)
    ensures elem.SignedElem? && elem.lo != 0 ==>
              && !elem.Refuses(elem.hi) && elem.Refuses(elem.hi + 1)
              && !elem.Refuses(elem.lo) && elem.Refuses(elem.lo - 1)
    ensures elem.Refuses(v) && 0 <= v <= w ==> elem.Refuses(w)
    ensures elem.Refuses(v) && w <= v < 0 ==> elem.Refuses(w)
    ensures elem.FloatElem? || (elem.UnsignedElem? && elem.hi == 0) || (elem.SignedElem? && elem.lo == 0) ==> !elem.Refuses(v)
  {
  }

  /** Which callback an element type listens to, and of which kind its arrays are. */
  lemma ListensTo(elem: Element, ev: Event)
    ensures elem.UnsignedElem? ==> elem.Kind() == KUnsigned && elem.ValueOf(ev) == (if ev.ArrayUnsigned? then Some(ev.v) else None)
    ensures elem.SignedElem? ==> elem.Kind() == KSigned && elem.ValueOf(ev) == (if ev.ArraySigned? then Some(ev.s) else None)
    ensures elem.FloatElem? && elem.width == 4 ==> elem.Kind() == KFp32
    ensures elem.FloatElem? && elem.width == 8 ==> elem.Kind() == KFp64
    ensures elem.FloatElem? && ev.ArrayFloat? && ev.width == elem.width ==> elem.ValueOf(ev) == Some(ev.bits)
    ensures elem.FloatElem? && elem.Declared() && ev.ArrayFloat? && ev.width != elem.width && (ev.width == 4 || ev.width == 8) ==> elem.ValueOf(ev) == None
  {
  }

  /** The bounds of both axes and the element type. */
  datatype Shape = Shape(count: int, rowCount: int, cap: int, elem: Element)

  type Rows = seq<Option<seq<int>>>

  /** A collector without its storage. */
  datatype Building = Building(rows: Rows, declined: bool, cur: seq<int>)

  function OnBegin(sp: Shape, s: Building, id: nat, kind: Kind, count: nat): (Building, Option<Error>) {
    if kind != sp.elem.Kind() then (s.(declined := true), None)
    else
      var g := s.(declined := false);
      if OverIndex(id, sp.count, sp.cap).Some? then (g, OverIndex(id, sp.count, sp.cap))
      else if OverLen(count, sp.rowCount, sp.cap).Some? then (g, OverLen(count, sp.rowCount, sp.cap))
      else (g.(cur := []), None)
  }

  function OnElem(sp: Shape, s: Building, v: int): (Building, Option<Error>)
    requires sp.elem.Declared()
  {
    if sp.elem.Refuses(v) then (s, Some(InvalidMsg)) else (s.(cur := s.cur + [sp.elem.Narrow(v)]), None)
  }

  function OnEnd(sp: Shape, s: Building, id: nat): (Building, Option<Error>) {
    if s.declined then (s.(declined := false), None)
    else if OverIndex(id, sp.count, sp.cap).Some? then (s.(cur := []), OverIndex(id, sp.count, sp.cap))
    else (Building(PlaceAt(s.rows, None, id, Some(s.cur)), false, []), None)
  }

  /** An id or a count as the callback's unsigned parameter. */
  function AsNat(x: int): nat { if x < 0 then 0 else x }

  /** A callback on the collector; those it does not override do nothing. */
  function On(sp: Shape, s: Building, ev: Event): (Building, Option<Error>)
    requires sp.elem.Declared()
  {
    if ev.ArrayBegin? then OnBegin(sp, s, AsNat(ev.id), ev.kind, AsNat(ev.count))
    else if ev.ArrayEnd? then OnEnd(sp, s, AsNat(ev.id))
    else if sp.elem.ValueOf(ev).Some? then OnElem(sp, s, sp.elem.ValueOf(ev).value)
    else (s, None)
  }

  /** Only the end of an accepted row touches the destination: a row that fails on the way,
      reopened or not, and a declined one leave every placed row as it was. */
  lemma OnlyAnEndPlaces(sp: Shape, s: Building, ev: Event)
    requires sp.elem.Declared()
    ensures var (t, e) := On(sp, s, ev); e.Some? || s.declined || !ev.ArrayEnd? ==> t.rows == s.rows
  {
  }

  /* ----- the collector itself ----- */

  class MatrixSeq {
    const sp: Shape
    const store: Store<int>
    var declined: bool
    var cur: Slice
    /** Where the row being built was opened. */
    ghost var at: nat

    ghost predicate Valid()
      reads this, store
    {
      store.Valid() && store.Apart(cur, at)
    }

    ghost function State(): Building
      reads this, store
    {
      Building(store.Contents(), declined, match store.ViewOf(cur) case Some(x) => x case None => [])
    }

    /** A collector over a destination, whatever an earlier decode left in its storage. */
    constructor (sp: Shape, store: Store<int>)
      requires store.Valid()
      ensures Valid() && this.sp == sp && this.store == store && State() == Building(store.Contents(), false, [])
    {
      this.sp, this.store := sp, store;
      declined, cur, at := false, NilSlice, 0;
    }

    /** Decline a row of another kind; bound the others and open them over what an earlier
        decode left at their index. */
    method ArrayBegin(id: nat, kind: Kind, count: nat) returns (e: Option<Error>)
      requires Valid()
      modifies this
      ensures Valid() && (State(), e) == OnBegin(sp, old(State()), id, kind, count)
      ensures kind != sp.elem.Kind() ==> e.None? && declined
      ensures kind == sp.elem.Kind() ==>
                && !declined
                && (e.None? <==>
                      id < Governing(sp.count, sp.cap) && 0 < Governing(sp.rowCount, sp.cap) && count <= Governing(sp.rowCount, sp.cap))
                && (id >= Governing(sp.count, sp.cap) ==> e == OverIndex(id, sp.count, sp.cap))
      ensures kind == sp.elem.Kind() && e.None? ==> at == id
      ensures kind != sp.elem.Kind() || e.Some? ==> at == old(at) && cur == old(cur)
    {
      IndexBound(id, sp.count, sp.cap);
      LengthBound(count, sp.rowCount, sp.cap);
      declined := kind != sp.elem.Kind();
      if declined { return None; }
      e := OverIndex(id, sp.count, sp.cap);
      if e.Some? { return; }
      e := OverLen(count, sp.rowCount, sp.cap);
      if e.Some? { return; }
      var stale := store.Stale(id);
      cur := if stale.Slice? then Slice(stale.ref, 0) else NilSlice;
      at := id;
    }

    /** Refuse a value past the declared width before it is narrowed. */
    method ArrayValue(v: int) returns (e: Option<Error>)
      requires Valid() && sp.elem.Declared()
      modifies this`cur, store
      ensures Valid() && (State(), e) == OnElem(sp, old(State()), v)
      ensures e.None? <==> match sp.elem
                case UnsignedElem(hi, _) => hi == 0 || v <= hi
                case SignedElem(lo, hi, _) => lo == 0 || lo <= v <= hi
                case FloatElem(_) => true
    {
      if sp.elem.Refuses(v) { return Some(InvalidMsg); }
      cur := store.Append(cur, sp.elem.Narrow(v), at);
      e := None;
    }

    /** Place the finished row, unless its beginning declined it. The decoder ends an array at
        the id it began it. */
    method ArrayEnd(id: nat) returns (e: Option<Error>)
      requires Valid() && (declined || cur.NilSlice? || id == at)
      modifies this`declined, this`cur, store
      ensures Valid() && (State(), e) == OnEnd(sp, old(State()), id)
    {
      if declined {
        declined := false;
        return None;
      }
      var row := cur;
      cur := NilSlice;
      if row.NilSlice? { row := store.Alloc([], 0); }
      e := store.PlaceRow(id, sp.count, sp.cap, row);
    }

    method Receive(ev: Event) returns (e: Option<Error>)
      requires Valid() && sp.elem.Declared()
      requires ev.ArrayEnd? ==> declined || cur.NilSlice? || AsNat(ev.id) == at
      modifies this, store
      ensures Valid() && (State(), e) == On(sp, old(State()), ev)
      ensures ev.ArrayBegin? && ev.kind == sp.elem.Kind() && e.None? ==> at == AsNat(ev.id)
      ensures !ev.ArrayBegin? ==> at == old(at)
    {
      e := None;
      if ev.ArrayBegin? {
        e := ArrayBegin(AsNat(ev.id), ev.kind, AsNat(ev.count));
      } else if ev.ArrayEnd? {
        e := ArrayEnd(AsNat(ev.id));
      } else if sp.elem.ValueOf(ev).Some? {
        e := ArrayValue(sp.elem.ValueOf(ev).value);
      }
    }
  }
}
