/** collectors.go: the bounds on ids and lengths, and id-keyed placement. */
module Placement {
  import opened Wire

  /** The bound in force: the schema's where it states one, the receiver's otherwise. */
  function Governing(bound: int, cap: int): int { if bound > 0 then bound else cap }

  function OverIndex(id: nat, bound: int, cap: int): Option<Error> {
    if bound > 0 then (if id >= bound then Some(InvalidMsg) else None)
    else if cap <= 0 then Some(Argument)
    else if id >= cap then Some(LimitExceeded)
    else None
  }

  function OverLen(n: nat, bound: int, cap: int): Option<Error> {
    if bound > 0 then (if n > bound then Some(InvalidMsg) else None)
    else if cap <= 0 then Some(Argument)
    else if n > cap then Some(LimitExceeded)
    else None
  }

  /** When a length is refused, and why: past the schema's bound where it states one, past
      the receiver's cap where it does not, and always where neither is stated. */
  lemma LengthBound(n: nat, bound: int, cap: int)
    ensures OverLen(n, bound, cap).None? <==> if bound > 0 then n <= bound else 0 < cap && n <= cap
    ensures OverLen(n, bound, cap) == Some(InvalidMsg) <==> bound > 0 && n > bound
    ensures OverLen(n, bound, cap) == Some(LimitExceeded) <==> bound <= 0 && 0 < cap < n
    ensures OverLen(n, bound, cap) == Some(Argument) <==> bound <= 0 && cap <= 0
    ensures OverLen(n, bound, cap).None? <==> Governing(bound, cap) > 0 && n <= Governing(bound, cap)
  {
  }

  /** An index is refused, and for the same reason, just when the length it implies is. */
  lemma IndexBound(id: nat, bound: int, cap: int)
    ensures OverIndex(id, bound, cap) == OverLen(id + 1, bound, cap)
    ensures OverIndex(id, bound, cap).None? <==> if bound > 0 then id < bound else id < cap
    ensures OverIndex(id, bound, cap) == Some(InvalidMsg) <==> bound > 0 && id >= bound
    ensures OverIndex(id, bound, cap) == Some(LimitExceeded) <==> bound <= 0 && 0 < cap <= id
    ensures OverIndex(id, bound, cap) == Some(Argument) <==> bound <= 0 && cap <= 0
    ensures OverIndex(id, bound, cap).None? <==> id < Governing(bound, cap)
  {
  }

  function Gaps<T>(gap: T, n: nat): (g: seq<T>)
    ensures |g| == n && forall i :: 0 <= i < n ==> g[i] == gap
  {
    seq(n, i => gap)
  }

  /** `x` stored at `id`, the gap up to it filled. */
  function PlaceAt<T>(xs: seq<T>, gap: T, id: nat, x: T): seq<T> {
    if id < |xs| then xs[id := x] else xs + Gaps(gap, id - |xs|) + [x]
  }

  datatype Delivery<T> = At(id: nat, x: T)

  function PlaceAll<T>(xs: seq<T>, gap: T, ds: seq<Delivery<T>>): seq<T> {
    if ds == [] then xs
    else PlaceAt(PlaceAll(xs, gap, ds[..|ds| - 1]), gap, ds[|ds| - 1].id, ds[|ds| - 1].x)
  }

  /** One past the highest id delivered. */
  function Reach<T>(ds: seq<Delivery<T>>): nat {
    if ds == [] then 0
    else
      var r, id := Reach(ds[..|ds| - 1]), ds[|ds| - 1].id;
      if id >= r then id + 1 else r
  }

  /** The last delivery to a slot. */
  function Latest<T>(ds: seq<Delivery<T>>, id: nat): Option<T> {
    if ds == [] then None
    else if ds[|ds| - 1].id == id then Some(ds[|ds| - 1].x)
    else Latest(ds[..|ds| - 1], id)
  }

  /** After any deliveries: the length is the larger of the initial one and one past the
      highest id; a slot holds its last delivery, else what it held, else the default. */
  lemma {:induction false} PlacementOverRuns<T>(xs: seq<T>, gap: T, ds: seq<Delivery<T>>)
    ensures var ys := PlaceAll(xs, gap, ds);
      && |ys| == (if Reach(ds) > |xs| then Reach(ds) else |xs|)
      && forall i :: 0 <= i < |ys| ==>
           ys[i] == match Latest(ds, i) case Some(x) => x case None => if i < |xs| then xs[i] else gap
    decreases |ds|
  {
    if ds != [] {
      var init := ds[..|ds| - 1];
      PlacementOverRuns(xs, gap, init);
      forall i: nat | Latest(init, i).Some? ensures i < Reach(init) { LatestInReach(init, i); }
    }
  }

  lemma {:induction false} LatestInReach<T>(ds: seq<Delivery<T>>, i: nat)
    requires Latest(ds, i).Some?
    ensures i < Reach(ds)
    decreases |ds|
  {
    if ds[|ds| - 1].id != i { LatestInReach(ds[..|ds| - 1], i); }
  }

  /** A bound every delivery passed bounds the array. */
  lemma {:induction false} NeverPastTheBound<T>(xs: seq<T>, gap: T, ds: seq<Delivery<T>>, bound: int, cap: int)
    requires forall k :: 0 <= k < |ds| ==> OverIndex(ds[k].id, bound, cap).None?
    ensures |PlaceAll(xs, gap, ds)| <= (if Governing(bound, cap) > |xs| then Governing(bound, cap) else |xs|)
    decreases |ds|
  {
    if ds != [] {
      NeverPastTheBound(xs, gap, ds[..|ds| - 1], bound, cap);
      IndexBound(ds[|ds| - 1].id, bound, cap);
    }
  }
}
