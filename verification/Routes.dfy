/** CIDR routes (section 3.1 of RFC 4632): a block of addresses given by its first address and a prefix length. */
module Routes {
  import opened Bytes
  import opened Bits
  import opened Netmask
  import Address128

  datatype Version = Unspec | V4 | V6

  function Size(v: Version): nat {
    if v == V4 then 32 else if v == V6 then 128 else 0
  }

  datatype Addr = Addr(v: Version, bits: nat, scope: nat)

  datatype Route = Route(addr: Addr, len: nat)

  ghost predicate ValidAddr(a: Addr) {
    a.v != Unspec && a.bits < Pow2(Size(a.v))
  }

  /** The netmask of a prefix length: ones followed by zeros. */
  function Mask(v: Version, len: nat): nat
    requires len <= Size(v)
  {
    Ones(len, Size(v) - len)
  }

  function AndAddr(a: Addr, mask: nat): Addr {
    a.(bits := And(a.bits, mask))
  }

  /** is_canonical; a route without address family or with too long a prefix makes the check fail. */
  predicate IsCanonical(r: Route) {
    r.addr.v != Unspec && r.len <= Size(r.addr.v) && AndAddr(r.addr, Mask(r.addr.v, r.len)) == r.addr
  }

  predicate ContainsAddr(r: Route, a: Addr)
    requires r.len <= Size(r.addr.v)
  {
    r.addr.v != Unspec && r.addr.v == a.v && AndAddr(a, Mask(r.addr.v, r.len)) == r.addr
  }

  predicate Contains(r: Route, s: Route)
    requires r.len <= Size(r.addr.v)
  {
    ContainsAddr(r, s.addr) && s.len >= r.len
  }

  predicate IsHost(r: Route) {
    r.addr.v != Unspec && r.len == Size(r.addr.v)
  }

  // ---------------------------------------------------------------- blocks of numbers

  /** How many addresses a route covers. */
  ghost function Extent(r: Route): (e: nat)
    requires r.len <= Size(r.addr.v)
    ensures e > 0
  {
    Pow2(Size(r.addr.v) - r.len)
  }

  ghost predicate Covers(r: Route, x: nat)
    requires r.len <= Size(r.addr.v)
  {
    r.addr.bits <= x < r.addr.bits + Extent(r)
  }

  /** A route that stands for a block of addresses. */
  ghost predicate Block(r: Route) {
    ValidAddr(r.addr) && r.len <= Size(r.addr.v) && r.addr.bits % Extent(r) == 0
  }

  /** Same address family and same scope. */
  predicate Comparable(r: Route, s: Route) {
    r.addr.v == s.addr.v && r.addr.scope == s.addr.scope
  }

  ghost predicate Inside(s: Route, r: Route)
    requires r.len <= Size(r.addr.v) && s.len <= Size(s.addr.v)
  {
    Comparable(r, s) && r.addr.bits <= s.addr.bits && s.addr.bits + Extent(s) <= r.addr.bits + Extent(r)
  }

  ghost predicate Disjoint(s: Route, r: Route)
    requires r.len <= Size(r.addr.v) && s.len <= Size(s.addr.v)
  {
    s.addr.bits + Extent(s) <= r.addr.bits || r.addr.bits + Extent(r) <= s.addr.bits
  }

  lemma {:induction false} MaskedBits(v: Version, bits: nat, len: nat)
    requires len <= Size(v) && bits < Pow2(Size(v))
    ensures And(bits, Mask(v, len)) == bits - bits % Pow2(Size(v) - len)
  {
    AndMask(bits, len, Size(v) - len);
  }

  /** Canonical routes are exactly the blocks. */
  lemma {:induction false} CanonicalIsBlock(r: Route)
    requires ValidAddr(r.addr)
    ensures IsCanonical(r) <==> Block(r)
  {
    if r.len <= Size(r.addr.v) {
      MaskedBits(r.addr.v, r.addr.bits, r.len);
    }
  }

  /** Masking moves to the start of the block: the multiple of `e` below `x`. */
  lemma {:induction false} FloorIs(x: nat, e: nat, lo: nat)
    requires e > 0 && lo % e == 0
    ensures x - x % e == lo <==> lo <= x < lo + e
  {
    if lo <= x < lo + e {
      DivIs(x, e, lo / e, x - lo);
    }
  }

  /** Containment computed with masks is containment of blocks. */
  lemma {:induction false} ContainsIsCovers(r: Route, a: Addr)
    requires Block(r) && ValidAddr(a)
    ensures ContainsAddr(r, a) <==> r.addr.v == a.v && r.addr.scope == a.scope && Covers(r, a.bits)
  {
    if r.addr.v == a.v {
      MaskedBits(a.v, a.bits, r.len);
      FloorIs(a.bits, Extent(r), r.addr.bits);
    }
  }

  /** Different multiples of `e` are at least `e` apart. */
  lemma {:induction false} MultiplesApart(x: nat, y: nat, e: nat)
    requires e > 0 && x % e == 0 && y % e == 0 && x < y
    ensures x + e <= y
  {
    if y < x + e {
      DivIs(y, e, x / e, y - x);
    }
  }

  /** A block is also aligned to smaller sizes. */
  lemma {:induction false} Aligned(x: nat, a: nat, b: nat)
    requires b <= a && x % Pow2(a) == 0
    ensures x % Pow2(b) == 0 && Pow2(a) % Pow2(b) == 0
  {
    Pow2Add(b, a - b);
    DivTwice(x, Pow2(b), Pow2(a - b));
    DivIs(Pow2(a), Pow2(b), Pow2(a - b), 0);
  }

  lemma {:induction false} SumAligned(x: nat, y: nat, e: nat)
    requires e > 0 && x % e == 0 && y % e == 0
    ensures (x + y) % e == 0
  {
    Distrib(x / e, y / e, e);
    DivIs(x + y, e, x / e + y / e, 0);
  }

  /** Two blocks are nested or disjoint; which of them can be the larger is told by the lengths. */
  lemma {:induction false} NestedOrDisjoint(r: Route, s: Route)
    requires Block(r) && Block(s) && Comparable(r, s) && r.len <= s.len
    ensures Inside(s, r) <==> Covers(r, s.addr.bits)
    ensures Inside(s, r) || Disjoint(s, r)
  {
    var k, j := Size(r.addr.v) - r.len, Size(r.addr.v) - s.len;
    var e := Pow2(j);
    Aligned(r.addr.bits, k, j);
    SumAligned(r.addr.bits, Pow2(k), e);
    Pow2Grows(j, k);
    if s.addr.bits < r.addr.bits {
      MultiplesApart(s.addr.bits, r.addr.bits, e);
    } else if s.addr.bits < r.addr.bits + Pow2(k) {
      MultiplesApart(s.addr.bits, r.addr.bits + Pow2(k), e);
    }
  }

  /** A block inside another is not the larger one. */
  lemma {:induction false} InsideLength(s: Route, r: Route)
    requires Block(r) && Block(s) && Inside(s, r)
    ensures r.len <= s.len && (r.len == s.len ==> r == s)
  {
    if s.len < r.len {
      Pow2Grows(Size(r.addr.v) - r.len, Size(r.addr.v) - s.len);
    }
  }

  /** contains on routes is inclusion of blocks. */
  lemma {:induction false} ContainsIsInside(r: Route, s: Route)
    requires Block(r) && Block(s)
    ensures Contains(r, s) <==> Inside(s, r)
  {
    ContainsIsCovers(r, s.addr);
    if Comparable(r, s) {
      if r.len <= s.len {
        NestedOrDisjoint(r, s);
      } else if Inside(s, r) {
        InsideLength(s, r);
      }
    }
  }

  // ---------------------------------------------------------------- halves

  /** split: none for a host route; otherwise both halves, the second one found by adding half the extent. */
  function Split(r: Route): (h: Option<(Route, Route)>)
    requires r.len <= Size(r.addr.v)
  {
    if IsHost(r) || r.addr.v == Unspec then None
    else
      var half := Pow2(Size(r.addr.v) - (r.len + 1));
      Some((Route(r.addr, r.len + 1),
            Route(r.addr.(bits := (r.addr.bits + half) % Pow2(Size(r.addr.v))), r.len + 1)))
  }

  /**
   extent_from_netmask of the mask of a prefix length: its length is found again, and a one is shifted up by the rest.
   The extent of everything is one bit too long and becomes 0.
   */
  method ExtentOfMask(v: Version, len: nat) returns (extent: nat)
    requires v != Unspec && len <= Size(v)
    ensures extent == if len == 0 then 0 else Pow2(Size(v) - len)
  {
    if v == V4 {
      var pl := PrefixLenOfMask(len);
      extent := if pl == 0 then 0 else Pow2(32 - pl);
    } else {
      var pl := PrefixLenOfMask128(len);
      if pl.value == 0 {
        return 0;
      }
      var a := new Address128.Addr(0, 1, 0);
      var ok := a.ShiftLeft(128 - pl.value);
      extent := a.Value();
      OneShifted(128 - len);
    }
  }

  lemma {:induction false} OneShifted(k: nat)
    requires k < 128
    ensures 1 * Pow2(k) % Address128.TWO128 == Pow2(k)
  {
    Pow2Values();
    Pow2Grows(k, 128);
    DivIs(Pow2(k), Address128.TWO128, 0, Pow2(k));
  }

  /** split, as it is computed. */
  method SplitByMask(r: Route) returns (h: Option<(Route, Route)>)
    requires r.len <= Size(r.addr.v)
    ensures h == Split(r)
  {
    if IsHost(r) || r.addr.v == Unspec {
      return None;
    }
    var half := ExtentOfMask(r.addr.v, r.len + 1);
    h := Some((Route(r.addr, r.len + 1),
               Route(r.addr.(bits := (r.addr.bits + half) % Pow2(Size(r.addr.v))), r.len + 1)));
  }

  /** The halves are blocks that lie next to each other and make up the whole. */
  lemma {:induction false} Halves(r: Route)
    requires Block(r) && !IsHost(r)
    ensures Split(r).Some?
    ensures var (a, b) := Split(r).value;
            && Block(a) && Block(b) && Comparable(a, r) && Comparable(b, r) && a.len == b.len == r.len + 1
            && a.addr.bits == r.addr.bits && b.addr.bits == a.addr.bits + Extent(a)
            && b.addr.bits + Extent(b) == r.addr.bits + Extent(r)
  {
    var n := Size(r.addr.v);
    var k := n - (r.len + 1);
    assert Pow2(k + 1) == 2 * Pow2(k) && n - r.len == k + 1;
    hide Pow2, Size;
    HalfNumbers(r.addr.bits, n, k);
    var (a, b) := Split(r).value;
    assert a == Route(r.addr, r.len + 1) && b == Route(r.addr.(bits := r.addr.bits + Pow2(k)), r.len + 1);
    assert Extent(a) == Pow2(k) && Extent(b) == Pow2(k);
  }

  /** The start of the second half. */
  lemma {:induction false} HalfNumbers(bits: nat, n: nat, k: nat)
    requires k < n && bits < Pow2(n) && bits % Pow2(k + 1) == 0
    ensures bits % Pow2(k) == 0 && (bits + Pow2(k)) % Pow2(k) == 0
    ensures bits + Pow2(k) < Pow2(n) && (bits + Pow2(k)) % Pow2(n) == bits + Pow2(k)
  {
    var half, top := Pow2(k), Pow2(n);
    Aligned(bits, k + 1, k);
    DivIs(half, half, 1, 0);
    SumAligned(bits, half, half);
    DivIs(top, top, 1, 0);
    Aligned(top, n, k + 1);
    assert Pow2(k + 1) == 2 * half;
    hide Pow2;
    MultiplesApart(bits, top, 2 * half);
    DivIs(bits + half, top, 0, bits + half);
  }

  /** A block inside a larger one lies in one of its halves. */
  lemma {:induction false} InOneHalf(r: Route, s: Route)
    requires Block(r) && Block(s) && !IsHost(r) && Inside(s, r) && s != r
    ensures Split(r).Some?
    ensures var (a, b) := Split(r).value; (Inside(s, a) && Disjoint(s, b)) || (Inside(s, b) && Disjoint(s, a))
  {
    Halves(r);
    var (a, b) := Split(r).value;
    InsideLength(s, r);
    NestedOrDisjoint(a, s);
    NestedOrDisjoint(b, s);
  }
}
