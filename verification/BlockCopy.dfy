/**
 Memory copies of the block decoder: plain and eight-bytes-at-a-time copies, and the
 overlapping match copy that is built from them.
 */
module BlockCopy {
  import opened Bytes

  // ---------------------------------------------------------------- primitives

  /** memcpy inside one memory; the two ranges may not overlap. */
  method MemCopy(mem: array<byte>, d: nat, s: nat, n: nat)
    requires d + n <= mem.Length && s + n <= mem.Length
    requires d + n <= s || s + n <= d
    modifies mem
    ensures forall j :: d <= j < d + n ==> mem[j] == old(mem[s + (j - d)])
    ensures forall j :: 0 <= j < mem.Length && !(d <= j < d + n) ==> mem[j] == old(mem[j])
  {
    forall j | d <= j < d + n {
      mem[j] := mem[s + (j - d)];
    }
  }

  /** memcpy from the compressed input (a different object) into memory. */
  method CopyIn(mem: array<byte>, d: nat, src: seq<byte>, s: nat, n: nat)
    requires d + n <= mem.Length && s + n <= |src|
    modifies mem
    ensures forall j :: d <= j < d + n ==> mem[j] == src[s + (j - d)]
    ensures forall j :: 0 <= j < mem.Length && !(d <= j < d + n) ==> mem[j] == old(mem[j])
  {
    forall j | d <= j < d + n {
      mem[j] := src[s + (j - d)];
    }
  }

  /** LZ4_wildCopy from the input: whole groups of eight bytes until `e` is reached. */
  method WildCopyIn(mem: array<byte>, d: nat, src: seq<byte>, s: nat, e: nat)
    requires d <= e && e + 8 <= mem.Length && s + (e - d) + 8 <= |src|
    modifies mem
    ensures forall j :: d <= j < e ==> mem[j] == src[s + (j - d)]
    ensures forall j :: 0 <= j < mem.Length && !(d <= j < e + 8) ==> mem[j] == old(mem[j])
  {
    CopyIn(mem, d, src, s, 8);
    var i := 8;
    while d + i < e
      invariant 8 <= i && d + i < e + 8 + (if d == e then 1 else 0)
      invariant forall j :: d <= j < d + i ==> mem[j] == src[s + (j - d)]
      invariant forall j :: 0 <= j < mem.Length && !(d <= j < e + 8) ==> mem[j] == old(mem[j])
    {
      CopyIn(mem, d + i, src, s + i, 8);
      i := i + 8;
    }
  }

  /**
   LZ4_wildCopy inside memory: the source lies at least eight bytes before the destination, so
   every group reads bytes that are already final. Writes at least eight bytes, and at most
   seven behind `e`.
   */
  method WildCopy(mem: array<byte>, d: nat, s: nat, e: nat) returns (ghost hi: nat)
    requires s + 8 <= d && d + 8 <= mem.Length && e + 7 <= mem.Length
    modifies mem
    ensures e <= hi && d + 8 <= hi && (hi <= e + 7 || hi == d + 8)
    ensures forall j :: d <= j < hi ==> mem[j] == mem[j - (d - s)]
    ensures forall j :: 0 <= j < mem.Length && !(d <= j < hi) ==> mem[j] == old(mem[j])
  {
    MemCopy(mem, d, s, 8);
    var i := 8;
    while d + i < e
      invariant 8 <= i && (d + i <= e + 7 || i == 8)
      invariant forall j :: d <= j < d + i ==> mem[j] == mem[j - (d - s)]
      invariant forall j :: 0 <= j < mem.Length && !(d <= j < d + i) ==> mem[j] == old(mem[j])
    {
      MemCopy(mem, d + i, s + i, 8);
      i := i + 8;
    }
    hi := d + i;
  }

  // ---------------------------------------------------------------- periodic regions

  /** On [from, end) every byte repeats the one `p` before it; `p == 0` stands for zeros. */
  ghost predicate Repeats(s: seq<byte>, from: nat, end: nat, p: nat) {
    && p <= from && end <= |s|
    && forall j :: from <= j < end ==> s[j] == if p == 0 then 0 else s[j - p]
  }

  /** A region of period `p` also has period `m * p`, once that far in. */
  lemma {:induction false} MultipleOfPeriod(s: seq<byte>, from: nat, end: nat, p: nat, m: nat, j: nat)
    requires p >= 1 && m >= 1 && Repeats(s, from, end, p)
    requires from + (m - 1) * p <= j < end
    ensures m * p <= j && s[j] == s[j - m * p]
    decreases m
  {
    if m > 1 {
      MultipleOfPeriod(s, from, end, p, m - 1, j);
      var i := j - (m - 1) * p;
      assert s[i] == s[i - p];
      assert m * p == (m - 1) * p + p;
    }
  }

  lemma {:induction false} NextByte(s: seq<byte>, from: nat, mid: nat, p: nat, m: nat)
    requires p >= 1 && m >= 1 && mid < |s| && Repeats(s, from, mid, p)
    requires from + (m - 1) * p <= mid && m * p <= mid && s[mid] == s[mid - m * p]
    ensures Repeats(s, from, mid + 1, p)
  {
    assert m * p == (m - 1) * p + p;
    if m > 1 {
      assert (m - 2) * p == (m - 1) * p - p;
      MultipleOfPeriod(s, from, mid, p, m - 1, mid - p);
    } else {
      assert m * p == p;
    }
    assert s[mid] == s[mid - p];
  }

  /**
   Copying from a distance that is a multiple of the period, behind a region that is long
   enough, continues the period.
   */
  lemma {:induction false} ContinuePeriod(s: seq<byte>, from: nat, mid: nat, end: nat, p: nat, m: nat)
    requires p >= 1 && m >= 1 && mid <= end <= |s| && Repeats(s, from, mid, p)
    requires from + (m - 1) * p <= mid && m * p <= mid
    requires forall j :: mid <= j < end ==> s[j] == s[j - m * p]
    ensures Repeats(s, from, end, p)
    decreases end - mid
  {
    hide Repeats;
    if mid < end {
      NextByte(s, from, mid, p, m);
      ContinuePeriod(s, from, mid + 1, end, p, m);
    }
  }

  lemma {:induction false} ContinueZeros(s: seq<byte>, from: nat, mid: nat, end: nat, d: nat)
    requires 1 <= d && from + d <= mid <= end <= |s| && Repeats(s, from, mid, 0)
    requires forall j :: mid <= j < end ==> s[j] == s[j - d]
    ensures Repeats(s, from, end, 0)
    decreases end - mid
  {
    if mid < end {
      assert s[mid] == s[mid - d] == 0;
      ContinueZeros(s, from, mid + 1, end, d);
    }
  }

  // ---------------------------------------------------------------- match copy

  const INC32TABLE: seq<int> := [0, 1, 2, 1, 0, 4, 4, 4]
  const DEC64TABLE: seq<int> := [0, 0, 0, -1, -4, 1, 2, 3]

  /** How many periods lie between `op + 8` and the match pointer after the first eight bytes. */
  ghost function Periods(offset: nat): nat {
    if offset == 1 then 8 else if offset == 2 then 4 else if offset == 3 then 3
    else if 4 <= offset < 8 then 2 else 1
  }

  /** Distance from which copying goes on: a multiple of the offset, and at least eight. */
  ghost function Distance(offset: nat): nat {
    if offset == 0 then 8 else Periods(offset) * offset
  }

  lemma DistanceBounds(offset: nat)
    ensures Distance(offset) >= 8
    ensures 1 <= offset ==> (Periods(offset) - 1) * offset <= 8 && Distance(offset) == Periods(offset) * offset
    ensures Distance(offset) <= offset + 8
  {
    if offset >= 8 {
      assert Periods(offset) * offset == offset;
    }
  }

  /** The four single-byte stores at the start of a match with a small offset. */
  method CopyFourBytes(mem: array<byte>, op: nat, offset: nat)
    requires offset <= op && op + 4 <= mem.Length
    requires offset == 0 ==> Repeats(mem[..], op, op + 4, 0)
    modifies mem
    ensures Repeats(mem[..], op, op + 4, offset)
    ensures forall j :: 0 <= j < mem.Length && !(op <= j < op + 4) ==> mem[j] == old(mem[j])
  {
    mem[op] := mem[op - offset];
    mem[op + 1] := mem[op + 1 - offset];
    mem[op + 2] := mem[op + 2 - offset];
    mem[op + 3] := mem[op + 3 - offset];
  }

  /** Four more bytes, from the position the first table points to. */
  lemma SecondFour(s: seq<byte>, op: nat, offset: nat)
    requires offset < 8 && offset <= op && op + 8 <= |s| && Repeats(s, op, op + 4, offset)
    requires forall j :: op + 4 <= j < op + 8 ==> s[j] == s[j - 4 - offset + INC32TABLE[offset]]
    ensures Repeats(s, op, op + 8, offset)
  {
    if offset == 0 {
      ContinueZeros(s, op, op + 4, op + 8, 4);
    } else {
      var m := if offset == 1 then 4 else if offset <= 4 then 2 else 1;
      assert m * offset == 4 + offset - INC32TABLE[offset];
      ContinuePeriod(s, op, op + 4, op + 8, offset, m);
    }
  }

  /** The first eight bytes of a match; returns the pointer from which the rest is copied. */
  method CopyFirstEight(mem: array<byte>, op: nat, offset: nat) returns (matchPtr: nat)
    requires offset <= op && op + 8 <= mem.Length
    requires offset == 0 ==> Repeats(mem[..], op, op + 4, 0)
    modifies mem
    ensures matchPtr + Distance(offset) == op + 8
    ensures Repeats(mem[..], op, op + 8, offset)
    ensures forall j :: 0 <= j < mem.Length && !(op <= j < op + 8) ==> mem[j] == old(mem[j])
  {
    if offset < 8 {
      CopyFourBytes(mem, op, offset);
      var m := op - offset + INC32TABLE[offset];
      MemCopy(mem, op + 4, m, 4);
      SecondFour(mem[..], op, offset);
      matchPtr := m - DEC64TABLE[offset];
    } else {
      MemCopy(mem, op, op - offset, 8);
      matchPtr := op - offset + 8;
    }
  }

  /** Whatever is copied from the final match pointer continues the match. */
  lemma ContinueMatch(s: seq<byte>, op: nat, mid: nat, end: nat, offset: nat)
    requires op + 8 <= mid <= end <= |s| && offset <= op && Repeats(s, op, mid, offset)
    requires Distance(offset) <= mid
    requires forall j :: mid <= j < end ==> s[j] == s[j - Distance(offset)]
    ensures Repeats(s, op, end, offset)
  {
    DistanceBounds(offset);
    if offset == 0 {
      ContinueZeros(s, op, mid, end, 8);
    } else {
      ContinuePeriod(s, op, mid, end, offset, Periods(offset));
    }
  }

  /** The tail of a match that ends close to the end of the output buffer. */
  method CopyNearEnd(mem: array<byte>, op: nat, offset: nat, matchPtr: nat, cpy: nat, oend: nat)
    requires op + 12 <= oend <= mem.Length && offset <= op && cpy + 5 <= oend
    requires matchPtr + Distance(offset) == op + 8 && Repeats(mem[..], op, op + 8, offset)
    modifies mem
    ensures Repeats(mem[..], op, Max(op + 8, cpy), offset)
    ensures forall j :: 0 <= j < mem.Length && !(op <= j < oend) ==> mem[j] == old(mem[j])
  {
    DistanceBounds(offset);
    var o, m := op + 8, matchPtr;
    var limit := oend - 7;
    if o < limit {
      ghost var hi := WildCopy(mem, o, m, limit);
      ContinueMatch(mem[..], op, o, hi, offset);
      m := m + (limit - o);
      o := limit;
    }
    while o < cpy
      invariant op + 8 <= o && m + Distance(offset) == o && o <= oend
      invariant Repeats(mem[..], op, o, offset)
      invariant forall j :: 0 <= j < mem.Length && !(op <= j < oend) ==> mem[j] == old(mem[j])
    {
      mem[o] := mem[m];
      ContinueMatch(mem[..], op, o, o + 1, offset);
      o, m := o + 1, m + 1;
    }
  }

  function Max(a: int, b: int): int {
    if a < b then b else a
  }

  lemma {:induction false} RepeatsStays(s0: seq<byte>, s: seq<byte>, from: nat, end: nat, p: nat)
    requires Repeats(s0, from, end, p) && |s| == |s0| && forall j :: 0 <= j < end ==> s[j] == s0[j]
    ensures Repeats(s, from, end, p)
  {
  }

  lemma {:induction false} RepeatsPrefix(s: seq<byte>, from: nat, mid: nat, end: nat, p: nat)
    requires Repeats(s, from, end, p) && mid <= end
    ensures Repeats(s, from, mid, p)
  {
  }

  /** The tail of a match that stays clear of the end of the output buffer. */
  method CopyFarFromEnd(mem: array<byte>, op: nat, offset: nat, matchPtr: nat, length: nat, oend: nat)
    requires length >= 4 && op + length + 12 <= oend <= mem.Length && offset <= op
    requires matchPtr + Distance(offset) == op + 8 && Repeats(mem[..], op, op + 8, offset)
    modifies mem
    ensures Repeats(mem[..], op, op + length, offset)
    ensures forall j :: 0 <= j < mem.Length && !(op <= j < oend) ==> mem[j] == old(mem[j])
  {
    DistanceBounds(offset);
    hide Distance;
    ghost var s0 := mem[..];
    MemCopy(mem, op + 8, matchPtr, 8);
    RepeatsStays(s0, mem[..], op, op + 8, offset);
    hide Repeats;
    ContinueMatch(mem[..], op, op + 8, op + 16, offset);
    if length > 16 {
      ghost var s1 := mem[..];
      ghost var hi := WildCopy(mem, op + 16, matchPtr + 8, op + length);
      RepeatsStays(s1, mem[..], op, op + 16, offset);
      ContinueMatch(mem[..], op, op + 16, hi, offset);
      RepeatsPrefix(mem[..], op, op + length, hi, offset);
    } else {
      RepeatsPrefix(mem[..], op, op + length, op + 16, offset);
    }
  }

  /**
   Copy of a match that lies inside the output: afterwards the `length` bytes at `op` are what
   copying one byte at a time would have left, and nothing outside the buffer has changed.
   */
  method CopyMatchBytes(mem: array<byte>, op: nat, offset: nat, length: nat, oend: nat) returns (ok: bool)
    requires length >= 4 && offset <= op && op + 12 <= oend <= mem.Length
    requires offset == 0 ==> Repeats(mem[..], op, op + 4, 0)
    modifies mem
    ensures ok == (op + length + 5 <= oend)
    ensures ok ==> Repeats(mem[..], op, op + length, offset)
    ensures forall j :: 0 <= j < mem.Length && !(op <= j < oend) ==> mem[j] == old(mem[j])
  {
    var m := CopyFirstEight(mem, op, offset);
    if op + length > oend - 12 {
      if op + length > oend - 5 {
        return false;
      }
      CopyNearEnd(mem, op, offset, m, op + length, oend);
    } else {
      CopyFarFromEnd(mem, op, offset, m, length, oend);
    }
    ok := true;
  }
}
