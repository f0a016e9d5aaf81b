/** collectors.go: the storage of an array of rows or blobs, with what an earlier decode
    left in it. Backing arrays are explicit, so that sharing one is visible. */
module Storage {
  import opened Wire
  import opened Placement

  /** A slice: nil, or the first `len` elements of a backing array. */
  datatype Slice = NilSlice | Slice(ref: nat, len: nat)

  const RESERVE_ROWS_MAX: nat := 64

  /** A slice's elements, nil told apart from empty. */
  function View<T>(mem: map<nat, seq<T>>, s: Slice): Option<seq<T>> {
    if s.Slice? && s.ref in mem && s.len <= |mem[s.ref]| then Some(mem[s.ref][..s.len]) else None
  }

  function Views<T>(mem: map<nat, seq<T>>, ss: seq<Slice>): (vs: seq<Option<seq<T>>>)
    ensures |vs| == |ss| && forall i :: 0 <= i < |ss| ==> vs[i] == View(mem, ss[i])
  {
    seq(|ss|, i requires 0 <= i < |ss| => View(mem, ss[i]))
  }

  class Store<T> {
    /** What unused elements of a new backing array hold. */
    const zero: T
    /** How much further than needed an append grows a backing array. */
    const slack: nat -> nat

    /** The destination: its whole backing array, of which `len` slots are its own. */
    var slots: seq<Slice>
    var len: nat
    /** The backing arrays of the rows. */
    var mem: map<nat, seq<T>>
    var next: nat

    constructor (zero: T, slack: nat -> nat)
      ensures Valid() && Contents() == []
    {
      this.zero, this.slack := zero, slack;
      slots, len, mem, next := [], 0, map[], 0;
    }

    ghost predicate Sound(s: Slice)
      reads this`mem, this`next
    {
      s.Slice? ==> s.ref < next && s.ref in mem && s.len <= |mem[s.ref]|
    }

    /** No slot, in use or left over, shares a backing array with another. */
    ghost predicate Valid()
      reads this
    {
      && len <= |slots|
      && (forall i :: 0 <= i < |slots| ==> Sound(slots[i]))
      && (forall i, j :: 0 <= i < j < |slots| && slots[i].Slice? && slots[j].Slice? ==> slots[i].ref != slots[j].ref)
    }

    ghost function ViewOf(s: Slice): Option<seq<T>>
      reads this`mem
    {
      View(mem, s)
    }

    ghost function Contents(): seq<Option<seq<T>>>
      reads this`slots, this`len, this`mem
    {
      Views(mem, if len <= |slots| then slots[..len] else [])
    }

    /** A slice whose backing array no slot shares, but for the left-over slot `at`. */
    ghost predicate Apart(s: Slice, at: nat)
      reads this
    {
      Sound(s) && (s.Slice? ==> forall i :: 0 <= i < |slots| && slots[i].Slice? && slots[i].ref == s.ref ==> i == at && i >= len)
    }

    /** What an earlier decode left at `id`, past the length. */
    function Stale(id: nat): Slice
      reads this`slots, this`len
    {
      if len <= id < |slots| then slots[id] else NilSlice
    }

    /** `out[:0]`: the storage stays, to be decoded into again. */
    method Truncate()
      requires Valid()
      modifies this`len
      ensures Valid() && Contents() == []
    {
      len := 0;
    }

    /** Room for the schema's count in one allocation, where it is small. */
    method ReserveRows(id: nat, count: int)
      requires Valid()
      modifies this`slots
      ensures Valid() && Contents() == old(Contents())
      ensures forall s, at :: old(Apart(s, at)) ==> Apart(s, at)
    {
      if id + 1 > |slots| && id + 1 <= count <= RESERVE_ROWS_MAX {
        slots := slots[..len] + Gaps(NilSlice, count - len);
      }
    }

    /** One more slot, nil, over whatever was left there. */
    method AppendSlot()
      requires Valid()
      modifies this`slots, this`len
      ensures Valid() && len == old(len) + 1 && Contents() == old(Contents()) + [None]
      ensures forall s, at: nat :: old(Apart(s, at)) && at >= old(len) ==> Apart(s, at)
    {
      if len < |slots| {
        slots := slots[len := NilSlice];
      } else {
        slots := slots[..len] + [NilSlice] + Gaps(NilSlice, slack(len + 1));
      }
      len := len + 1;
    }

    /** Long enough to hold `id`, every new slot nil; what the slot held before. */
    method Grow(id: nat, count: int) returns (prev: Slice)
      requires Valid()
      modifies this`slots, this`len
      ensures Valid() && len == if id < old(len) then old(len) else id + 1
      ensures Contents() == old(Contents()) + Gaps(None, len - old(len))
      ensures prev == old(Stale(id)) && Sound(prev)
      ensures forall s, at: nat :: old(Apart(s, id)) ==> Apart(s, at)
      ensures prev.Slice? ==> forall i :: 0 <= i < |slots| && slots[i].Slice? ==> slots[i].ref != prev.ref
    {
      prev := Stale(id);
      assert Apart(prev, id);
      ReserveRows(id, count);
      ghost var before := Contents();
      assert before + Gaps(None, 0) == before;
      while len <= id
        invariant Valid() && old(len) <= len && (len <= id + 1 || len == old(len))
        invariant Contents() == before + Gaps(None, len - old(len))
        invariant forall s :: old(Apart(s, id)) ==> Apart(s, id)
        decreases id + 1 - len
      {
        AppendSlot();
      }
    }

    /** A slot of the destination set to a slice no other slot shares. */
    method Put(id: nat, s: Slice)
      requires Valid() && id < len && Sound(s)
      requires s.Slice? ==> forall i :: 0 <= i < |slots| && i != id && slots[i].Slice? ==> slots[i].ref != s.ref
      modifies this`slots
      ensures Valid() && Contents() == old(Contents())[id := ViewOf(s)]
    {
      slots := slots[id := s];
    }

    /** A new backing array holding `x` and room for `extra` more. */
    method Alloc(x: seq<T>, extra: nat) returns (s: Slice)
      requires Valid()
      modifies this`mem, this`next
      ensures Valid() && Contents() == old(Contents())
      ensures Sound(s) && s == Slice(old(next), |x|) && ViewOf(s) == Some(x) && |mem[s.ref]| == |x| + extra
      ensures forall i :: 0 <= i < |slots| && slots[i].Slice? ==> slots[i].ref != s.ref
    {
      s := Slice(next, |x|);
      mem := mem[next := x + Gaps(zero, extra)];
      next := next + 1;
    }

    /** `append(s, v)` on a slice outside the destination's own slots. */
    method Append(s: Slice, v: T, ghost at: nat) returns (t: Slice)
      requires Valid() && Apart(s, at)
      modifies this`mem, this`next
      ensures Valid() && Contents() == old(Contents()) && Apart(t, at)
      ensures ViewOf(t) == Some((if s.Slice? then old(ViewOf(s)).value else []) + [v])
    {
      if s.Slice? && s.len < |mem[s.ref]| {
        ghost var was := mem[s.ref];
        t := Slice(s.ref, s.len + 1);
        mem := mem[s.ref := mem[s.ref][s.len := v]];
        assert mem[t.ref][..t.len] == was[..s.len] + [v];
      } else {
        var x := if s.Slice? then mem[s.ref][..s.len] else [];
        t := Alloc(x + [v], slack(|x| + 1));
      }
    }

    /** Store a finished row as given, the bound checked before anything grows. */
    method PlaceRow(id: nat, bound: int, cap: int, row: Slice) returns (e: Option<Error>)
      requires Valid() && Apart(row, id)
      modifies this`slots, this`len
      ensures Valid() && e == OverIndex(id, bound, cap)
      ensures e.Some? ==> unchanged(this)
      ensures e.None? ==> Contents() == PlaceAt(old(Contents()), None, id, ViewOf(row))
    {
      e := OverIndex(id, bound, cap);
      if e.None? {
        var _ := Grow(id, bound);
        assert Apart(row, |slots|);
        Put(id, row);
      }
    }

    /** A row decoded in place: what arrives replaces what the id held, and is never nil. */
    method OpenRow(id: nat, bound: int, cap: int) returns (e: Option<Error>)
      requires Valid()
      modifies this
      ensures Valid() && e == OverIndex(id, bound, cap)
      ensures e.Some? ==> unchanged(this)
      ensures e.None? ==> Contents() == PlaceAt(old(Contents()), None, id, Some([]))
    {
      e := OverIndex(id, bound, cap);
      if e.None? {
        var stale := Grow(id, bound);
        if stale.Slice? { Put(id, stale); }
        var row := ReuseSlice(slots[id], 0);
        Put(id, row);
      }
    }

    /** `s` truncated when it has room for `count`, else a new slice that has. */
    method ReuseSlice(s: Slice, count: nat) returns (t: Slice)
      requires Valid() && Sound(s)
      modifies this`mem, this`next
      ensures Valid() && Contents() == old(Contents()) && Sound(t) && ViewOf(t) == Some([]) && |mem[t.ref]| >= count
      ensures if s.Slice? && |old(mem)[s.ref]| >= count then t == Slice(s.ref, 0)
              else forall i :: 0 <= i < |slots| && slots[i].Slice? ==> slots[i].ref != t.ref
    {
      if s.Slice? && |mem[s.ref]| >= count {
        t := Slice(s.ref, 0);
      } else {
        t := Alloc([], count);
      }
    }

    /** Copy `src` into the storage of `dst` when it fits; an empty `src` gives nil. */
    method ReuseBytes(dst: Slice, src: seq<T>) returns (t: Slice)
      requires Valid() && Sound(dst)
      requires dst.Slice? ==> forall i :: 0 <= i < |slots| && slots[i].Slice? ==> slots[i].ref != dst.ref
      modifies this`mem, this`next
      ensures Valid() && Contents() == old(Contents()) && Sound(t)
      ensures ViewOf(t) == if src == [] then None else Some(src)
      ensures t.Slice? ==> forall i :: 0 <= i < |slots| && slots[i].Slice? ==> slots[i].ref != t.ref
    {
      if src == [] {
        t := NilSlice;
      } else if dst.NilSlice? || |mem[dst.ref]| < |src| {
        t := Alloc(src, slack(|src|));
      } else {
        t := Slice(dst.ref, |src|);
        mem := mem[dst.ref := src + mem[dst.ref][|src|..]];
        assert mem[t.ref][..t.len] == src;
      }
    }

    /** A blob stored at `id`: handed over when it was assembled and does not fit what the slot
        held, copied otherwise. */
    method PutBlob(id: nat, bound: int, b: seq<T>, assembled: bool)
      requires Valid()
      modifies this
      ensures Valid() && Contents() == PlaceAt(old(Contents()), None, id, if b == [] then None else Some(b))
    {
      var prev := Grow(id, bound);
      var t;
      if assembled && (if prev.Slice? then |mem[prev.ref]| else 0) < |b| {
        t := Alloc(b, 0);
      } else {
        t := ReuseBytes(prev, b);
      }
      Put(id, t);
    }
  }
}
