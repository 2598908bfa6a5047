/**
 xxHash: the one-shot hash, the streaming state, and that the two agree for every way of cutting the
 input into updates. Words are bit vectors, so all arithmetic wraps as it does in C.
 */
module XxStripes {
  import opened Bytes

  /**
   What distinguishes one hash from another. Input is consumed `width` bytes at a time, each stripe
   updating the lanes; the rest goes in by chunks. A `wide` hash counts its input in 64 bits; the
   other one wraps at 32, and keeps a flag to remember that a whole stripe was reached.
   */
  datatype Rule<!S, !W> = Rule(
    width: nat, eat: (S, seq<byte>) -> S,
    merge: S -> W, small: S -> W, addLength: (W, nat) -> W,
    chunk: nat -> nat, absorb: (W, seq<byte>) -> W, avalanche: W -> W,
    wide: bool)
  {
    ghost predicate Valid() {
      && 1 <= width <= 32
      && forall n :: 0 < n ==> 0 < chunk(n) <= n
    }

    function Wrap(n: nat): nat {
      if wide then n % TWO64 else n % TWO32
    }

    /** The wrapped length still tells whether a stripe is reached, unless it was reached before. */
    lemma CountStep(total: nat, len: nat)
      requires 1 <= width <= 32
      ensures Wrap(Wrap(total) + len) == Wrap(total + len)
      ensures total >= width || len >= width || Wrap(total + len) >= width <==> total + len >= width
    {
      WrapAdd32(total, len);
      WrapAdd64(total, len);
    }
  }

  lemma WrapAdd32(total: nat, len: nat)
    ensures (total % TWO32 + len) % TWO32 == (total + len) % TWO32
  {
  }

  lemma WrapAdd64(total: nat, len: nat)
    ensures (total % TWO64 + len) % TWO64 == (total + len) % TWO64
  {
  }

  /** The lanes after all whole stripes of `data`. */
  function Eat<S, W>(r: Rule<S, W>, lanes: S, data: seq<byte>): S
    requires r.width > 0
    decreases |data|
  {
    if |data| < r.width then lanes else Eat(r, r.eat(lanes, data[..r.width]), data[r.width..])
  }

  /** The bytes behind the last whole stripe. */
  function Rest(width: nat, data: seq<byte>): (rest: seq<byte>)
    requires width > 0
    ensures |rest| < width && |rest| <= |data|
    decreases |data|
  {
    if |data| < width then data else Rest(width, data[width..])
  }

  /** Consuming a concatenation is consuming its parts, with the rest of the first put before the second. */
  lemma {:induction false} EatConcat<S, W>(r: Rule<S, W>, lanes: S, a: seq<byte>, b: seq<byte>)
    requires r.width > 0
    ensures Eat(r, lanes, a + b) == Eat(r, Eat(r, lanes, a), Rest(r.width, a) + b)
    ensures Rest(r.width, a + b) == Rest(r.width, Rest(r.width, a) + b)
    decreases |a|
  {
    var w := r.width;
    if |a| >= w {
      assert (a + b)[..w] == a[..w] && (a + b)[w..] == a[w..] + b;
      EatConcat(r, r.eat(lanes, a[..w]), a[w..], b);
    }
  }

  /** The do-while loop over whole stripes of an input. */
  method EatLoop<S, W>(r: Rule<S, W>, start: S, input: seq<byte>, from: nat) returns (lanes: S, p: nat)
    requires r.width > 0 && from <= |input|
    ensures from <= p <= |input|
    ensures lanes == Eat(r, start, input[from..]) && input[p..] == Rest(r.width, input[from..])
  {
    lanes, p := start, from;
    while p + r.width <= |input|
      invariant from <= p <= |input|
      invariant Eat(r, start, input[from..]) == Eat(r, lanes, input[p..])
      invariant Rest(r.width, input[from..]) == Rest(r.width, input[p..])
    {
      assert input[p..][..r.width] == input[p..p + r.width] && input[p..][r.width..] == input[p + r.width..];
      lanes := r.eat(lanes, input[p..p + r.width]);
      p := p + r.width;
    }
  }

  /** The remaining bytes, chunk by chunk. */
  ghost function Tail<S, W>(r: Rule<S, W>, h: W, rest: seq<byte>): W
    requires r.Valid()
    decreases |rest|
  {
    if rest == [] then h
    else var c := r.chunk(|rest|); Tail(r, r.absorb(h, rest[..c]), rest[c..])
  }

  /** The hash of `data`: a function of its whole stripes, its length and its rest. */
  ghost function Hash<S, W>(r: Rule<S, W>, start: S, data: seq<byte>): W
    requires r.Valid()
  {
    var h := if |data| >= r.width then r.merge(Eat(r, start, data)) else r.small(start);
    r.avalanche(Tail(r, r.addLength(h, r.Wrap(|data|)), Rest(r.width, data)))
  }

  /** One stripe more at the front. */
  lemma {:induction false} EatMore<S, W>(r: Rule<S, W>, lanes: S, w: seq<byte>, rest: seq<byte>)
    requires |w| == r.width > 0
    ensures Eat(r, lanes, w + rest) == Eat(r, r.eat(lanes, w), rest) && Rest(r.width, w + rest) == Rest(r.width, rest)
  {
    assert (w + rest)[..r.width] == w && (w + rest)[r.width..] == rest;
  }

  /** One chunk more at the front. */
  lemma {:induction false} TailMore<S, W>(r: Rule<S, W>, h: W, c: seq<byte>, rest: seq<byte>)
    requires r.Valid() && c != [] && |c| == r.chunk(|c + rest|)
    ensures Tail(r, h, c + rest) == Tail(r, r.absorb(h, c), rest)
  {
    assert (c + rest)[..|c|] == c && (c + rest)[|c|..] == rest;
  }

  /** The loops over the remaining bytes. */
  method Finish<S, W>(r: Rule<S, W>, h0: W, rest: seq<byte>) returns (h: W)
    requires r.Valid()
    ensures h == r.avalanche(Tail(r, h0, rest))
  {
    h := h0;
    var p := 0;
    while p < |rest|
      invariant p <= |rest| && Tail(r, h0, rest) == Tail(r, h, rest[p..])
    {
      var c := r.chunk(|rest| - p);
      assert rest[p..][..c] == rest[p..p + c] && rest[p..][c..] == rest[p + c..];
      h := r.absorb(h, rest[p..p + c]);
      p := p + c;
    }
    h := r.avalanche(h);
  }

  /** The hash in one go. */
  method OneShot<S, W>(r: Rule<S, W>, start: S, input: seq<byte>) returns (h: W)
    requires r.Valid()
    ensures h == Hash(r, start, input)
  {
    var p := 0;
    assert input[0..] == input;
    if |input| >= r.width {
      var lanes;
      lanes, p := EatLoop(r, start, input, 0);
      h := r.merge(lanes);
    } else {
      h := r.small(start);
    }
    h := Finish(r, r.addLength(h, r.Wrap(|input|)), input[p..]);
  }

  /** The first stripe, part of which was pending. */
  lemma {:induction false} EatFirst<S, W>(r: Rule<S, W>, lanes: S, a: seq<byte>, b: seq<byte>, p: nat)
    requires r.width > 0 && p <= |b| && |a| + p == r.width
    ensures Eat(r, lanes, a + b) == Eat(r, r.eat(lanes, a + b[..p]), b[p..])
    ensures Rest(r.width, a + b) == Rest(r.width, b[p..])
  {
    assert (a + b)[..r.width] == a + b[..p] && (a + b)[r.width..] == b[p..];
  }

  lemma EatShort<S, W>(r: Rule<S, W>, lanes: S, a: seq<byte>)
    requires |a| < r.width
    ensures Eat(r, lanes, a) == lanes && Rest(r.width, a) == a
  {
  }

  /** The streaming state: lanes, up to one stripe of pending bytes, and the length so far. */
  class State<S, W> {
    const rule: Rule<S, W>
    const mem: array<byte>
    var lanes: S
    var memsize: nat
    var totalLen: nat
    var largeLen: bool
    ghost const start: S
    ghost var all: seq<byte>

    ghost predicate Valid()
      reads this, mem
    {
      && rule.Valid() && mem.Length == rule.width && memsize < rule.width
      && lanes == Eat(rule, start, all)
      && mem[..memsize] == Rest(rule.width, all)
      && totalLen == rule.Wrap(|all|)
      && (if rule.wide then |all| < TWO64 else largeLen <==> |all| >= rule.width)
    }

    constructor (rule: Rule<S, W>, start: S)
      requires rule.Valid()
      ensures Valid() && fresh(mem) && this.rule == rule && this.start == start && all == []
    {
      this.rule, this.start, lanes, memsize, all := rule, start, start, 0, [];
      totalLen, largeLen := 0, false;
      mem := new byte[rule.width](_ => 0);
    }

    /** Count the bytes, then consume them. */
    method Update(input: seq<byte>)
      requires Valid() && (rule.wide ==> |all| + |input| < TWO64)
      modifies this, mem
      ensures Valid() && all == old(all) + input
    {
      hide Eat, Rest;
      rule.CountStep(|all|, |input|);
      totalLen := rule.Wrap(totalLen + |input|);
      largeLen := largeLen || |input| >= rule.width || totalLen >= rule.width;
      Consume(input);
    }

    /** Complete the pending stripe, then take whole stripes, then keep what is left. */
    method Consume(input: seq<byte>)
      requires rule.width > 0 && mem.Length == rule.width && memsize < rule.width
      requires lanes == Eat(rule, start, all) && mem[..memsize] == Rest(rule.width, all)
      modifies this`lanes, this`memsize, this`all, mem
      ensures memsize < rule.width && all == old(all) + input
      ensures lanes == Eat(rule, start, all) && mem[..memsize] == Rest(rule.width, all)
    {
      hide Eat, Rest;
      EatConcat(rule, start, all, input);
      ghost var pending := mem[..memsize];
      all := all + input;
      if memsize + |input| < rule.width {
        EatShort(rule, lanes, pending + input);
        Append(input);
        return;
      }
      var p := 0;
      if memsize != 0 {
        p := rule.width - memsize;
        Append(input[..p]);
        assert mem[..] == mem[..memsize];
        EatFirst(rule, lanes, pending, input, p);
        lanes := rule.eat(lanes, mem[..]);
        memsize := 0;
      } else {
        assert pending + input == input[0..];
      }
      lanes, p := EatLoop(rule, lanes, input, p);
      memsize := 0;
      Append(input[p..]);
    }

    /** Put bytes behind the pending ones. */
    method Append(bytes: seq<byte>)
      requires memsize + |bytes| <= mem.Length
      modifies this`memsize, mem
      ensures memsize == old(memsize) + |bytes| && mem[..memsize] == old(mem[..memsize]) + bytes
    {
      forall j | memsize <= j < memsize + |bytes| {
        mem[j] := bytes[j - memsize];
      }
      memsize := memsize + |bytes|;
    }

    /** The digest is the hash of everything that was fed in, however it was cut up. */
    method Digest() returns (h: W)
      requires Valid()
      ensures h == Hash(rule, start, all)
    {
      if (if rule.wide then totalLen >= rule.width else largeLen) {
        h := rule.merge(lanes);
      } else {
        h := rule.small(lanes);
      }
      h := Finish(rule, rule.addLength(h, totalLen), mem[..memsize]);
    }
  }

  ghost function Concat(pieces: seq<seq<byte>>): seq<byte> {
    if pieces == [] then [] else Concat(pieces[..|pieces| - 1]) + pieces[|pieces| - 1]
  }

  /** Reset, any sequence of updates, digest: the hash of the concatenation. */
  method HashPieces<S, W>(r: Rule<S, W>, start: S, pieces: seq<seq<byte>>) returns (h: W)
    requires r.Valid() && (r.wide ==> |Concat(pieces)| < TWO64)
    ensures h == Hash(r, start, Concat(pieces))
  {
    var state := new State(r, start);
    for i := 0 to |pieces|
      invariant state.Valid() && fresh(state) && fresh(state.mem)
      invariant state.rule == r && state.start == start && state.all == Concat(pieces[..i])
    {
      assert pieces[..i + 1][..i] == pieces[..i];
      ConcatPrefix(pieces, i + 1);
      state.Update(pieces[i]);
    }
    assert pieces[..|pieces|] == pieces;
    h := state.Digest();
  }

  lemma {:induction false} ConcatPrefix(pieces: seq<seq<byte>>, i: nat)
    requires i <= |pieces|
    ensures |Concat(pieces[..i])| <= |Concat(pieces)|
    decreases |pieces|
  {
    if i < |pieces| {
      assert pieces[..|pieces| - 1][..i] == pieces[..i];
      ConcatPrefix(pieces[..|pieces| - 1], i);
    } else {
      assert pieces[..i] == pieces;
    }
  }
}

/** The 32-bit hash. */
module Xxh32 {
  import opened Bytes
  import opened XxStripes

  datatype Lanes = Lanes(v1: bv32, v2: bv32, v3: bv32, v4: bv32)

  // Multiples of the five primes of XXH32.

  function Times1(x: bv32): bv32 { x * 2654435761 }

  function Times2(x: bv32): bv32 { x * 2246822519 }

  function Times3(x: bv32): bv32 { x * 3266489917 }

  function Times4(x: bv32): bv32 { x * 668265263 }

  function Times5(x: bv32): bv32 { x * 374761393 }

  function Rotl(x: bv32, k: nat): bv32
    requires 0 < k < 32
  {
    (x << k) | (x >> (32 - k))
  }

  /** The sum of two words, turned left. */
  function Turn(x: bv32, y: bv32, k: nat): bv32
    requires 0 < k < 32
  {
    ((x + y) << k) | ((x + y) >> (32 - k))
  }

  function Shake(x: bv32, k: nat): bv32
    requires k < 32
  {
    x ^ (x >> k)
  }

  function Plus(x: bv32, y: bv32): bv32 {
    x + y
  }

  function Minus(x: bv32, y: bv32): bv32 {
    x - y
  }

  function Sum(a: bv32, b: bv32, c: bv32, d: bv32): bv32 {
    a + b + c + d
  }

  /** Four bytes, the least significant one first. */
  function Word(a: byte, b: byte, c: byte, d: byte): bv32 {
    (a as bv32) | (b as bv32 << 8) | (c as bv32 << 16) | (d as bv32 << 24)
  }

  function Read32(w: seq<byte>, at: nat): bv32
    requires at + 4 <= |w|
  {
    Word(w[at], w[at + 1], w[at + 2], w[at + 3])
  }

  function Round(acc: bv32, input: bv32): bv32 {
    Times1(Turn(acc, Times2(input), 13))
  }

  function EatStripe(l: Lanes, w: seq<byte>): Lanes {
    if |w| != 16 then l
    else Lanes(Round(l.v1, Read32(w, 0)), Round(l.v2, Read32(w, 4)), Round(l.v3, Read32(w, 8)),
               Round(l.v4, Read32(w, 12)))
  }

  function Start(seed: bv32): Lanes {
    Lanes(Plus(Plus(seed, Times1(1)), Times2(1)), Plus(seed, Times2(1)), seed, Minus(seed, Times1(1)))
  }

  function Merge(l: Lanes): bv32 {
    Sum(Rotl(l.v1, 1), Rotl(l.v2, 7), Rotl(l.v3, 12), Rotl(l.v4, 18))
  }

  /** The seed, which is in the third lane, when there is no whole stripe. */
  function Small(l: Lanes): bv32 {
    Plus(l.v3, Times5(1))
  }

  function AddLength(h: bv32, n: nat): bv32 {
    Plus(h, (n % TWO32) as bv32)
  }

  /** Words of four bytes, then single bytes. */
  function Chunk(n: nat): nat {
    if n >= 4 then 4 else 1
  }

  function Absorb(h: bv32, c: seq<byte>): bv32 {
    if |c| == 4 then Times4(Turn(h, Times3(Read32(c, 0)), 17))
    else if |c| == 1 then Times1(Turn(h, Times5(c[0] as bv32), 11))
    else h
  }

  function Avalanche(h: bv32): bv32 {
    Shake(Times3(Shake(Times2(Shake(h, 15)), 13)), 16)
  }

  const RULE: Rule<Lanes, bv32> := Rule(16, EatStripe, Merge, Small, AddLength, Chunk, Absorb, Avalanche, false)

  /** XXH32 is one of the hashes described by a rule, so all that is proved of those holds of it. */
  lemma RuleIsValid()
    ensures RULE.Valid() && RULE.width == 16 && !RULE.wide
  {
  }

  /** The hash of no bytes, as a number. */
  lemma KnownValues()
    ensures Hash(RULE, Start(0), []) == 0x02CC5D05
  {
    assert Avalanche(374761393) == 0x02CC5D05;
    assert AddLength(Small(Start(0)), 0) == 374761393;
  }
}

/** The 64-bit hash. */
module Xxh64 {
  import opened Bytes
  import opened XxStripes
  import Xxh32

  datatype Lanes = Lanes(v1: bv64, v2: bv64, v3: bv64, v4: bv64)

  // Multiples of the five primes of XXH64.

  function Times1(x: bv64): bv64 { x * 11400714785074694791 }

  function Times2(x: bv64): bv64 { x * 14029467366897019727 }

  function Times3(x: bv64): bv64 { x * 1609587929392839161 }

  function Times4(x: bv64): bv64 { x * 9650029242287828579 }

  function Times5(x: bv64): bv64 { x * 2870177450012600261 }

  function Rotl(x: bv64, k: nat): bv64
    requires 0 < k < 64
  {
    (x << k) | (x >> (64 - k))
  }

  /** The sum of two words, turned left. */
  function Turn(x: bv64, y: bv64, k: nat): bv64
    requires 0 < k < 64
  {
    ((x + y) << k) | ((x + y) >> (64 - k))
  }

  /** Two words without their common bits, turned left. */
  function TurnXor(x: bv64, y: bv64, k: nat): bv64
    requires 0 < k < 64
  {
    ((x ^ y) << k) | ((x ^ y) >> (64 - k))
  }

  function Shake(x: bv64, k: nat): bv64
    requires k < 64
  {
    x ^ (x >> k)
  }

  function Xor(x: bv64, y: bv64): bv64 {
    x ^ y
  }

  function Plus(x: bv64, y: bv64): bv64 {
    x + y
  }

  function Minus(x: bv64, y: bv64): bv64 {
    x - y
  }

  function Sum(a: bv64, b: bv64, c: bv64, d: bv64): bv64 {
    a + b + c + d
  }

  /** Two words, the less significant one first. */
  function Long(low: bv32, high: bv32): bv64 {
    (low as bv64) | (high as bv64 << 32)
  }

  function Read64(w: seq<byte>, at: nat): bv64
    requires at + 8 <= |w|
  {
    Long(Xxh32.Read32(w, at), Xxh32.Read32(w, at + 4))
  }

  function Round(acc: bv64, input: bv64): bv64 {
    Times1(Turn(acc, Times2(input), 31))
  }

  function MergeRound(acc: bv64, val: bv64): bv64 {
    Plus(Times1(Xor(acc, Round(0, val))), Times4(1))
  }

  function EatStripe(l: Lanes, w: seq<byte>): Lanes {
    if |w| != 32 then l
    else Lanes(Round(l.v1, Read64(w, 0)), Round(l.v2, Read64(w, 8)), Round(l.v3, Read64(w, 16)),
               Round(l.v4, Read64(w, 24)))
  }

  function Start(seed: bv64): Lanes {
    Lanes(Plus(Plus(seed, Times1(1)), Times2(1)), Plus(seed, Times2(1)), seed, Minus(seed, Times1(1)))
  }

  function Merge(l: Lanes): bv64 {
    var h := Sum(Rotl(l.v1, 1), Rotl(l.v2, 7), Rotl(l.v3, 12), Rotl(l.v4, 18));
    MergeRound(MergeRound(MergeRound(MergeRound(h, l.v1), l.v2), l.v3), l.v4)
  }

  /** The seed, which is in the third lane, when there is no whole stripe. */
  function Small(l: Lanes): bv64 {
    Plus(l.v3, Times5(1))
  }

  function AddLength(h: bv64, n: nat): bv64 {
    Plus(h, (n % TWO64) as bv64)
  }

  /** Words of eight bytes, at most one of four, then single bytes. */
  function Chunk(n: nat): nat {
    if n >= 8 then 8 else if n >= 4 then 4 else 1
  }

  function Absorb(h: bv64, c: seq<byte>): bv64 {
    if |c| == 8 then Plus(Times1(TurnXor(h, Round(0, Read64(c, 0)), 27)), Times4(1))
    else if |c| == 4 then Plus(Times2(TurnXor(h, Times1(Xxh32.Read32(c, 0) as bv64), 23)), Times3(1))
    else if |c| == 1 then Times1(TurnXor(h, Times5(c[0] as bv64), 11))
    else h
  }

  function Avalanche(h: bv64): bv64 {
    Shake(Times3(Shake(Times2(Shake(h, 33)), 29)), 32)
  }

  const RULE: Rule<Lanes, bv64> := Rule(32, EatStripe, Merge, Small, AddLength, Chunk, Absorb, Avalanche, true)

  lemma RuleIsValid()
    ensures RULE.Valid() && RULE.width == 32 && RULE.wide
  {
  }

  /** The hash of no bytes, as a number. */
  lemma KnownValues()
    ensures Hash(RULE, Start(0), []) == 0xEF46_DB37_51D8_E999
  {
    assert Avalanche(2870177450012600261) == 0xEF46_DB37_51D8_E999;
    assert AddLength(Small(Start(0)), 0) == 2870177450012600261;
  }
}
