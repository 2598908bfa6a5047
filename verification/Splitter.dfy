/**
 AddressSpaceSplitter: cut the address space into routes none of which reaches across a given route. The result is a
 partition, and the coarsest one that can be had.
 */
module Splitter {
  import opened Bytes
  import opened Bits
  import opened Routes

  ghost predicate AllBlocks(rs: seq<Route>) {
    forall i :: 0 <= i < |rs| ==> Block(rs[i])
  }

  /** `s` is a proper part of `r`. */
  predicate Proper(r: Route, s: Route)
    requires r.len <= Size(r.addr.v)
  {
    r != s && Contains(r, s)
  }

  predicate AnyProper(rs: seq<Route>, r: Route)
    requires r.len <= Size(r.addr.v)
  {
    exists i :: 0 <= i < |rs| && Proper(r, rs[i])
  }

  /** The routes that `descend` produces for a block. */
  ghost function Leaves(rs: seq<Route>, r: Route): (out: seq<Route>)
    requires Block(r)
    decreases Size(r.addr.v) - r.len
  {
    if !AnyProper(rs, r) || IsHost(r) then [r]
    else
      Halves(r);
      Leaves(rs, Split(r).value.0) + Leaves(rs, Split(r).value.1)
  }

  // ---------------------------------------------------------------- a partition

  /** The routes lie one after the other and fill [lo, hi). */
  ghost predicate Tiles(rs: seq<Route>, like: Route, lo: nat, hi: nat)
    decreases |rs|
  {
    if rs == [] then lo == hi
    else
      && Block(rs[0]) && Comparable(rs[0], like) && rs[0].addr.bits == lo
      && Tiles(rs[1..], like, lo + Extent(rs[0]), hi)
  }

  lemma {:induction false} TilesConcat(a: seq<Route>, b: seq<Route>, like: Route, lo: nat, mid: nat, hi: nat)
    requires Tiles(a, like, lo, mid) && Tiles(b, like, mid, hi)
    ensures Tiles(a + b, like, lo, hi)
    decreases |a|
  {
    if a == [] {
      assert a + b == b;
    } else {
      assert (a + b)[1..] == a[1..] + b;
      TilesConcat(a[1..], b, like, lo + Extent(a[0]), mid, hi);
    }
  }

  lemma {:induction false} TilesLike(rs: seq<Route>, like: Route, other: Route, lo: nat, hi: nat)
    requires Tiles(rs, like, lo, hi) && Comparable(like, other)
    ensures Tiles(rs, other, lo, hi)
    decreases |rs|
  {
    if rs != [] {
      TilesLike(rs[1..], like, other, lo + Extent(rs[0]), hi);
    }
  }

  /** The leaves of a block fill it without gap or overlap. */
  lemma {:induction false} LeavesTile(rs: seq<Route>, r: Route)
    requires Block(r)
    ensures Tiles(Leaves(rs, r), r, r.addr.bits, r.addr.bits + Extent(r))
    decreases Size(r.addr.v) - r.len
  {
    if !AnyProper(rs, r) || IsHost(r) {
      assert Leaves(rs, r)[1..] == [];
    } else {
      Halves(r);
      var (a, b) := Split(r).value;
      LeavesTile(rs, a);
      LeavesTile(rs, b);
      TilesLike(Leaves(rs, a), a, r, a.addr.bits, a.addr.bits + Extent(a));
      TilesLike(Leaves(rs, b), b, r, b.addr.bits, b.addr.bits + Extent(b));
      TilesConcat(Leaves(rs, a), Leaves(rs, b), r, r.addr.bits, b.addr.bits, r.addr.bits + Extent(r));
    }
  }

  /** What tiling means for single addresses: each is covered, and by one route only. */
  lemma {:induction false} TilesCover(rs: seq<Route>, like: Route, lo: nat, hi: nat, x: nat)
    requires Tiles(rs, like, lo, hi)
    ensures lo <= hi && AllBlocks(rs) && forall i :: 0 <= i < |rs| ==> Comparable(rs[i], like)
    ensures forall i :: 0 <= i < |rs| && Covers(rs[i], x) ==> lo <= x < hi
    ensures lo <= x < hi ==> exists i :: 0 <= i < |rs| && Covers(rs[i], x)
    ensures forall i, j :: 0 <= i < j < |rs| ==> !(Covers(rs[i], x) && Covers(rs[j], x))
    decreases |rs|
  {
    if rs != [] {
      var e := Extent(rs[0]);
      TilesCover(rs[1..], like, lo + e, hi, x);
      assert forall i :: 1 <= i < |rs| ==> rs[i] == rs[1..][i - 1];
      if lo + e <= x < hi {
        var i :| 0 <= i < |rs[1..]| && Covers(rs[1..][i], x);
        assert Covers(rs[i + 1], x);
      } else if lo <= x < hi {
        assert Covers(rs[0], x);
      }
    }
  }

  // ---------------------------------------------------------------- safe

  /** A host route has no proper part. */
  lemma {:induction false} HostIsWhole(rs: seq<Route>, r: Route)
    requires Block(r) && AllBlocks(rs) && IsHost(r)
    ensures !AnyProper(rs, r)
  {
    forall i | 0 <= i < |rs|
      ensures !Proper(r, rs[i])
    {
      ContainsIsInside(r, rs[i]);
      if Contains(r, rs[i]) {
        InsideLength(rs[i], r);
      }
    }
  }

  /** No leaf has a given route as a proper part. */
  lemma {:induction false} LeavesWhole(rs: seq<Route>, r: Route, k: nat)
    requires Block(r) && AllBlocks(rs) && k < |Leaves(rs, r)|
    ensures Block(Leaves(rs, r)[k]) && Comparable(Leaves(rs, r)[k], r) && !AnyProper(rs, Leaves(rs, r)[k])
    decreases Size(r.addr.v) - r.len
  {
    if IsHost(r) {
      HostIsWhole(rs, r);
    } else if AnyProper(rs, r) {
      Halves(r);
      var (a, b) := Split(r).value;
      var n := |Leaves(rs, a)|;
      if k < n {
        LeavesWhole(rs, a, k);
      } else {
        LeavesWhole(rs, b, k - n);
      }
    }
  }

  /** The same block of numbers in the scope of `r`. */
  function Rescoped(s: Route, r: Route): Route {
    s.(addr := s.addr.(scope := r.addr.scope))
  }

  /** Block `o` of the space `r` does not reach across the numbers of the given route `s`. */
  ghost predicate Safe(o: Route, s: Route, r: Route)
    requires o.len <= Size(o.addr.v) && s.len <= Size(s.addr.v)
  {
    Inside(o, Rescoped(s, r)) || Disjoint(o, Rescoped(s, r))
  }

  /**
   Every leaf is safe for every given route of the scope of the space. Whatever the scope, it is safe exactly if it does
   not have the numbers of that route as a proper part.
   */
  lemma {:induction false} LeavesAreSafe(rs: seq<Route>, r: Route, k: nat, i: nat)
    requires Block(r) && AllBlocks(rs) && k < |Leaves(rs, r)| && i < |rs| && rs[i].addr.v == r.addr.v
    ensures Block(Leaves(rs, r)[k]) && Comparable(Leaves(rs, r)[k], r)
    ensures Safe(Leaves(rs, r)[k], rs[i], r) <==> !Proper(Leaves(rs, r)[k], Rescoped(rs[i], r))
    ensures rs[i].addr.scope == r.addr.scope ==> Safe(Leaves(rs, r)[k], rs[i], r)
  {
    LeavesWhole(rs, r, k);
    var o, s := Leaves(rs, r)[k], Rescoped(rs[i], r);
    assert rs[i].addr.scope == r.addr.scope ==> s == rs[i];
    ContainsIsInside(o, s);
    if s.len <= o.len {
      NestedOrDisjoint(s, o);
      if Inside(s, o) {
        InsideLength(s, o);
      }
    } else {
      NestedOrDisjoint(o, s);
      if Inside(o, s) {
        InsideLength(o, s);
      }
    }
  }

  // ---------------------------------------------------------------- coarsest

  /**
   Any block of the space that has no given route as a proper part lies in one leaf. So every partition into such
   blocks refines this one.
   */
  lemma {:induction false} LeavesAreCoarsest(rs: seq<Route>, r: Route, b: Route) returns (k: nat)
    requires Block(r) && AllBlocks(rs) && Block(b) && Inside(b, r) && !AnyProper(rs, b)
    ensures k < |Leaves(rs, r)| && Block(Leaves(rs, r)[k]) && Inside(b, Leaves(rs, r)[k])
    decreases Size(r.addr.v) - r.len
  {
    if !AnyProper(rs, r) || IsHost(r) {
      k := 0;
    } else {
      Halves(r);
      InOneHalf(r, b);
      var (x, y) := Split(r).value;
      assert Leaves(rs, r) == Leaves(rs, x) + Leaves(rs, y);
      hide Leaves, AnyProper, Extent, Split;
      if Inside(b, x) {
        k := LeavesAreCoarsest(rs, x, b);
      } else {
        k := LeavesAreCoarsest(rs, y, b);
        LeavesWhole(rs, y, k);
        k := k + |Leaves(rs, x)|;
      }
    }
  }

  // ---------------------------------------------------------------- how many

  /** Levels between a block and a proper part of it. */
  ghost function Depth(r: Route, s: Route): nat
    requires Block(r)
  {
    if Proper(r, s) then s.len - r.len else 0
  }

  ghost function TotalDepth(rs: seq<Route>, r: Route): nat
    requires Block(r)
    decreases |rs|
  {
    if rs == [] then 0 else Depth(r, rs[0]) + TotalDepth(rs[1..], r)
  }

  /** Given routes of the family and scope of `r`. */
  function Relevant(rs: seq<Route>, r: Route): nat
    decreases |rs|
  {
    if rs == [] then 0 else (if Comparable(rs[0], r) then 1 else 0) + Relevant(rs[1..], r)
  }

  lemma {:induction false} DepthOfHalves(r: Route, s: Route)
    requires Block(r) && Block(s) && !IsHost(r)
    ensures Split(r).Some? && Block(Split(r).value.0) && Block(Split(r).value.1)
    ensures Depth(r, s) >= Depth(Split(r).value.0, s) + Depth(Split(r).value.1, s) + if Proper(r, s) then 1 else 0
  {
    Halves(r);
    var (a, b) := Split(r).value;
    ContainsIsInside(r, s);
    ContainsIsInside(a, s);
    ContainsIsInside(b, s);
    if Proper(r, s) {
      InsideLength(s, r);
      InOneHalf(r, s);
    }
  }

  lemma {:induction false} TotalOfHalves(rs: seq<Route>, r: Route)
    requires Block(r) && AllBlocks(rs) && !IsHost(r)
    ensures Split(r).Some? && Block(Split(r).value.0) && Block(Split(r).value.1)
    ensures TotalDepth(rs, r) >= TotalDepth(rs, Split(r).value.0) + TotalDepth(rs, Split(r).value.1) + if AnyProper(rs,
            r) then 1 else 0
    decreases |rs|
  {
    Halves(r);
    if rs != [] {
      DepthOfHalves(r, rs[0]);
      TotalOfHalves(rs[1..], r);
      if AnyProper(rs, r) && !Proper(r, rs[0]) {
        var i :| 0 <= i < |rs| && Proper(r, rs[i]);
        assert Proper(r, rs[1..][i - 1]);
      }
    }
  }

  lemma {:induction false} LeavesBound(rs: seq<Route>, r: Route)
    requires Block(r) && AllBlocks(rs)
    ensures |Leaves(rs, r)| <= 1 + TotalDepth(rs, r)
    decreases Size(r.addr.v) - r.len
  {
    if AnyProper(rs, r) && !IsHost(r) {
      TotalOfHalves(rs, r);
      LeavesBound(rs, Split(r).value.0);
      LeavesBound(rs, Split(r).value.1);
    }
  }

  lemma {:induction false} DepthBound(rs: seq<Route>, r: Route)
    requires Block(r) && AllBlocks(rs)
    ensures TotalDepth(rs, r) <= Size(r.addr.v) * Relevant(rs, r)
    decreases |rs|
  {
    if rs != [] {
      DepthBound(rs[1..], r);
      Distrib(1, Relevant(rs[1..], r), Size(r.addr.v));
    }
  }

  /** At most one route, and as many more as the address has bits for every given route. */
  lemma {:induction false} LeavesAreFew(rs: seq<Route>, r: Route)
    requires Block(r) && AllBlocks(rs)
    ensures |Leaves(rs, r)| <= 1 + Size(r.addr.v) * Relevant(rs, r)
  {
    LeavesBound(rs, r);
    DepthBound(rs, r);
  }

  // ---------------------------------------------------------------- scopes

  /** The given routes of the family and scope of `r`. */
  function Own(rs: seq<Route>, r: Route): (own: seq<Route>)
    ensures forall s :: s in own <==> s in rs && Comparable(s, r)
  {
    if rs == [] then [] else (if Comparable(rs[0], r) then [rs[0]] else []) + Own(rs[1..], r)
  }

  lemma {:induction false} OwnProper(rs: seq<Route>, r: Route, b: Route)
    requires Block(b) && AllBlocks(rs) && Comparable(b, r)
    ensures AnyProper(Own(rs, r), b) == AnyProper(rs, b) && AllBlocks(Own(rs, r))
  {
    var own := Own(rs, r);
    forall i | 0 <= i < |own|
      ensures own[i] in rs
    {
      assert own[i] in own;
    }
    if AnyProper(rs, b) {
      var i :| 0 <= i < |rs| && Proper(b, rs[i]);
      ContainsIsCovers(b, rs[i].addr);
      assert rs[i] in own;
    }
  }

  /** Routes of another scope or family change nothing: the space is cut along the others only. */
  lemma {:induction false} OtherScopesIgnored(rs: seq<Route>, r: Route, b: Route)
    requires Block(b) && AllBlocks(rs) && Comparable(b, r)
    ensures Leaves(Own(rs, r), b) == Leaves(rs, b)
    decreases Size(b.addr.v) - b.len
  {
    OwnProper(rs, r, b);
    if AnyProper(rs, b) && !IsHost(b) {
      Halves(b);
      OtherScopesIgnored(rs, r, Split(b).value.0);
      OtherScopesIgnored(rs, r, Split(b).value.1);
    }
  }

  /** A scoped route does not split the space that it is a part of. */
  lemma {:induction false} ScopedRouteStraddled(s: Route)
    requires Block(s) && s.addr.v == V6 && s.addr.scope != 0 && s.len > 0
    ensures Block(Whole(s.addr.v)) && Leaves([s], Whole(s.addr.v)) == [Whole(s.addr.v)]
    ensures Proper(Whole(s.addr.v), Rescoped(s, Whole(s.addr.v)))
    ensures !Safe(Whole(s.addr.v), s, Whole(s.addr.v))
  {
    hide Pow2, Size, Leaves;
    var w := Whole(s.addr.v);
    WholeIsBlock(s.addr.v);
    OtherScopesIgnored([s], w, w);
    assert Own([s], w) == [];
    NothingGiven(w);
    LeavesAreSafe([s], w, 0, 0);
    InWhole(Rescoped(s, w));
  }

  lemma {:induction false} NothingGiven(r: Route)
    requires Block(r)
    ensures Leaves([], r) == [r]
  {
  }

  /** Every block is a part of its whole family. */
  lemma {:induction false} InWhole(s: Route)
    requires Block(s) && s.addr.scope == 0 && s.len > 0
    ensures Block(Whole(s.addr.v)) && Proper(Whole(s.addr.v), s)
  {
    var w := Whole(s.addr.v);
    WholeIsBlock(s.addr.v);
    NestedOrDisjoint(w, s);
    ContainsIsInside(w, s);
  }

  // ---------------------------------------------------------------- the splitter

  datatype Type = EQUAL | SUBROUTE | LEAF

  /** find: does `route` have to be split? */
  method Find(rs: seq<Route>, route: Route) returns (t: Type)
    requires route.len <= Size(route.addr.v)
    ensures t == SUBROUTE <==> AnyProper(rs, route)
    ensures t == EQUAL <==> !AnyProper(rs, route) && route in rs
  {
    t := LEAF;
    for i := 0 to |rs|
      invariant t != SUBROUTE && forall j :: 0 <= j < i ==> !Proper(route, rs[j])
      invariant t == EQUAL <==> exists j :: 0 <= j < i && rs[j] == route
    {
      if route == rs[i] {
        t := EQUAL;
      } else if Contains(route, rs[i]) {
        assert Proper(route, rs[i]);
        return SUBROUTE;
      }
    }
  }

  function Whole(v: Version): Route {
    Route(Addr(v, 0, 0), 0)
  }

  lemma {:induction false} WholeIsBlock(v: Version)
    requires v != Unspec
    ensures Block(Whole(v)) && Extent(Whole(v)) == Pow2(Size(v))
  {
    DivIs(0, Pow2(Size(v)), 0, 0);
  }

  /** verify_canonical: every route stands for a block. */
  method VerifyCanonical(rs: seq<Route>) returns (ok: bool)
    requires forall i :: 0 <= i < |rs| && rs[i].addr.v != Unspec ==> ValidAddr(rs[i].addr)
    ensures ok <==> AllBlocks(rs)
  {
    ok := true;
    for i := 0 to |rs|
      invariant forall j :: 0 <= j < i ==> Block(rs[j])
    {
      if rs[i].addr.v != Unspec {
        CanonicalIsBlock(rs[i]);
      }
      if !IsCanonical(rs[i]) {
        assert !Block(rs[i]);
        return false;
      }
    }
  }

  /** One step of the descent. */
  lemma {:induction false} LeavesAre(rs: seq<Route>, r: Route)
    requires Block(r)
    ensures if AnyProper(rs, r) && Split(r).Some? then
              var (a, b) := Split(r).value;
              && Block(a) && Block(b) && a.addr.v == b.addr.v == r.addr.v
                  && a.len == b.len == r.len + 1 <= Size(r.addr.v)
              && Leaves(rs, r) == Leaves(rs, a) + Leaves(rs, b)
            else Leaves(rs, r) == [r]
  {
    if !IsHost(r) {
      Halves(r);
    }
  }

  class AddressSpaceSplitter {
    var routes: seq<Route>

    constructor ()
      ensures routes == []
    {
      routes := [];
    }

    /** descend: append the leaves of `route`. */
    method Descend(rs: seq<Route>, route: Route)
      requires Block(route)
      modifies this
      ensures routes == old(routes) + Leaves(rs, route)
      decreases Size(route.addr.v) - route.len
    {
      var t := Find(rs, route);
      LeavesAre(rs, route);
      hide Leaves, AnyProper, Block, Split, Pow2;
      if t == SUBROUTE {
        var halves := SplitByMask(route);
        if halves.Some? {
          Descend(rs, halves.value.0);
          Descend(rs, halves.value.1);
          return;
        }
      }
      routes := routes + [route];
    }

    /** Split both families, or those asked for; input that is not canonical is refused. */
    method Build(rs: seq<Route>, v4: bool, v6: bool) returns (ok: bool)
      requires forall i :: 0 <= i < |rs| && rs[i].addr.v != Unspec ==> ValidAddr(rs[i].addr)
      modifies this
      ensures ok <==> AllBlocks(rs)
      ensures ok ==> routes == old(routes) + (if v4 then LeavesOf(rs, V4) else [])
                                           + (if v6 then LeavesOf(rs, V6) else [])
      ensures !ok ==> routes == old(routes)
    {
      hide Pow2, Leaves, Block;
      ok := VerifyCanonical(rs);
      if !ok {
        return;
      }
      WholeIsBlock(V4);
      WholeIsBlock(V6);
      if v4 {
        Descend(rs, Whole(V4));
      }
      if v6 {
        Descend(rs, Whole(V6));
      }
    }
  }

  ghost function LeavesOf(rs: seq<Route>, v: Version): seq<Route>
    requires v != Unspec
  {
    WholeIsBlock(v);
    Leaves(rs, Whole(v))
  }

  /** All of it for a whole address family. */
  lemma {:induction false} FamilyIsPartitioned(rs: seq<Route>, v: Version, x: nat)
    requires v != Unspec && AllBlocks(rs) && x < Pow2(Size(v))
    ensures AllBlocks(LeavesOf(rs, v)) && |LeavesOf(rs, v)| <= 1 + Size(v) * Relevant(rs, Whole(v))
    ensures exists i :: 0 <= i < |LeavesOf(rs, v)| && Covers(LeavesOf(rs, v)[i], x)
    ensures forall i, j :: 0 <= i < j < |LeavesOf(rs, v)| ==>
              !(Covers(LeavesOf(rs, v)[i], x) && Covers(LeavesOf(rs, v)[j], x))
    ensures forall k, i :: 0 <= k < |LeavesOf(rs, v)| && 0 <= i < |rs| && rs[i].addr.v == v ==>
              && (Safe(LeavesOf(rs, v)[k], rs[i], Whole(v)) <==> !Proper(LeavesOf(rs, v)[k], Rescoped(rs[i], Whole(v))))
              && (rs[i].addr.scope == 0 ==> Safe(LeavesOf(rs, v)[k], rs[i], Whole(v)))
  {
    hide Pow2, Leaves, Covers, Safe, Proper, Relevant;
    WholeIsBlock(v);
    LeavesTile(rs, Whole(v));
    TilesCover(LeavesOf(rs, v), Whole(v), 0, Pow2(Size(v)), x);
    LeavesAreFew(rs, Whole(v));
    forall k, i | 0 <= k < |LeavesOf(rs, v)| && 0 <= i < |rs| && rs[i].addr.v == v
      ensures Safe(LeavesOf(rs, v)[k], rs[i], Whole(v)) <==> !Proper(LeavesOf(rs, v)[k], Rescoped(rs[i], Whole(v)))
      ensures rs[i].addr.scope == 0 ==> Safe(LeavesOf(rs, v)[k], rs[i], Whole(v))
    {
      LeavesAreSafe(rs, Whole(v), k, i);
    }
  }
}
