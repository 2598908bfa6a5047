/**
 Netmasks: recognising one by binary search over the prefix length, and making one from a prefix length, for 32-bit
 addresses and for 128-bit addresses kept as four 32-bit words.
 */
module Netmask {
  import opened Bytes
  import opened Bits

  type word32 = x: nat | x < TWO32

  /** The number with `n` leading ones among `size` bits. */
  ghost function Leading(size: nat, n: nat): nat
    requires n <= size
  {
    Ones(n, size - n)
  }

  lemma {:induction false} LeadingValue(size: nat, n: nat)
    requires n <= size
    ensures Leading(size, n) == Pow2(size) - Pow2(size - n)
  {
    OnesValue(n, size - n);
  }

  // ---------------------------------------------------------------- 32 bits

  /** prefix_len_to_netmask_unchecked: the complement of the host part. */
  function Mask32(n: nat): (m: word32)
    requires n <= 32
    ensures m == Leading(32, n)
  {
    LeadingValue(32, n);
    Pow2Values();
    Pow2Grows(0, 32 - n);
    if n == 0 then 0 else TWO32 - 1 - (Pow2(32 - n) - 1)
  }

  lemma {:induction false} MaskOrder(a: nat, b: nat)
    requires a < b <= 32
    ensures Mask32(a) < Mask32(b)
  {
    LeadingValue(32, a);
    LeadingValue(32, b);
    Pow2Grows(32 - b, 32 - a);
  }

  /** `addr` is the mask of one of the lengths that the search has not yet ruled out. */
  ghost predicate OnlyBetween(addr: nat, low: nat, high: nat, lowToo: bool) {
    forall n :: 0 <= n <= 32 && addr == Mask32(n) ==> n < high && (low < n || (lowToo && n == low))
  }

  lemma {:induction false} RuleOut(addr: nat, low: nat, high: nat, lowToo: bool, mid: nat)
    requires OnlyBetween(addr, low, high, lowToo) && mid <= 32 && addr != Mask32(mid)
    ensures if addr > Mask32(mid) then OnlyBetween(addr, mid, high, false) else OnlyBetween(addr, low, mid, lowToo)
  {
    forall n | 0 <= n <= 32 && addr == Mask32(n)
      ensures addr > Mask32(mid) <==> n > mid
    {
      if n > mid {
        MaskOrder(mid, n);
      } else if n < mid {
        MaskOrder(n, mid);
      }
    }
  }

  /** How far apart the bounds are after `i` steps. */
  ghost function Width(i: nat): nat {
    if i == 0 then 32 else Width(i - 1) / 2
  }

  /** prefix_len_32: five halvings always decide the question. */
  method PrefixLen32(addr: word32) returns (r: int)
    ensures r >= 0 ==> r <= 32 && addr == Leading(32, r)
    ensures r < 0 ==> forall n :: 0 <= n <= 32 ==> addr != Leading(32, n)
  {
    hide Ones;
    if addr == TWO32 - 1 {
      AllOnes(32);
      return 32;
    }
    if addr == 0 {
      assert Mask32(0) == 0;
      return 0;
    }
    var high, low := 32, 1;
    StartSearch(addr);
    hide OnlyBetween, Leading, Mask32;
    var i := 0;
    ghost var lowToo := true;
    while i < 5
      invariant i <= 5 && 1 <= low <= high <= 32 && OnlyBetween(addr, low, high, lowToo)
      invariant high - low == Width(i) - if lowToo then 1 else 0
      invariant lowToo ==> low == 1
    {
      assert Width(0) == 32 && Width(1) == 16 && Width(2) == 8 && Width(3) == 4 && Width(4) == 2 && Width(5) == 1;
      var mid := (high + low) / 2;
      var test := Mask32(mid);
      if addr == test {
        return mid;
      }
      RuleOut(addr, low, high, lowToo, mid);
      if addr > test {
        low, lowToo := mid, false;
      } else {
        high := mid;
      }
      i := i + 1;
    }
    NothingBetween(addr, low, high, lowToo);
    r := -1;
  }

  lemma AllOnes(size: nat)
    ensures Leading(size, size) == Pow2(size) - 1
    ensures size == 32 ==> Leading(size, size) == TWO32 - 1
  {
    LeadingValue(size, size);
    Pow2Values();
  }

  lemma {:induction false} StartSearch(addr: nat)
    requires addr != 0 && addr != TWO32 - 1
    ensures OnlyBetween(addr, 1, 32, true)
  {
    AllOnes(32);
    assert Mask32(0) == 0;
  }

  lemma {:induction false} NothingBetween(addr: nat, low: nat, high: nat, lowToo: bool)
    requires OnlyBetween(addr, low, high, lowToo) && high - low == (if lowToo then 0 else 1)
    ensures forall n :: 0 <= n <= 32 ==> addr != Leading(32, n)
  {
    forall n | 0 <= n <= 32
      ensures addr != Leading(32, n)
    {
      assert Mask32(n) == Leading(32, n);
    }
  }

  /** Making a mask and recognising it are inverse to each other. */
  method PrefixLenOfMask(n: nat) returns (r: int)
    requires n <= 32
    ensures r == n
  {
    r := PrefixLen32(Mask32(n));
    if r < n {
      assert r >= 0;
      MaskOrder(r, n);
    } else if r > n {
      MaskOrder(n, r);
    }
  }

  // ---------------------------------------------------------------- 128 bits

  /** Four words, the most significant one first. */
  datatype Words = Words(w3: word32, w2: word32, w1: word32, w0: word32) {
    function Value(): nat {
      ((w3 * TWO32 + w2) * TWO32 + w1) * TWO32 + w0
    }
  }

  lemma {:induction false} SameDigit(a: nat, b: nat, x: word32, y: word32)
    requires a * TWO32 + x == b * TWO32 + y
    ensures a == b && x == y
  {
  }

  lemma {:induction false} SameWords(a: Words, b: Words)
    requires a.Value() == b.Value()
    ensures a == b
  {
    SameDigit((a.w3 * TWO32 + a.w2) * TWO32 + a.w1, (b.w3 * TWO32 + b.w2) * TWO32 + b.w1, a.w0, b.w0);
    SameDigit(a.w3 * TWO32 + a.w2, b.w3 * TWO32 + b.w2, a.w1, b.w1);
    SameDigit(a.w3, b.w3, a.w2, b.w2);
  }

  const FULL: word32 := TWO32 - 1

  /** Ones above word `i` (counted from the top), `m` in it, zeros below. */
  function InWord(i: nat, m: word32): Words {
    if i == 0 then Words(m, 0, 0, 0)
    else if i == 1 then Words(FULL, m, 0, 0)
    else if i == 2 then Words(FULL, FULL, m, 0)
    else Words(FULL, FULL, FULL, m)
  }

  /** The one word that may be neither all ones nor all zeros: ~((1 << (31 - k)) - 1). */
  function PartMask(k: nat): (m: word32)
    requires k < 32
    ensures m == Leading(32, k + 1)
  {
    assert Mask32(k + 1) == Leading(32, k + 1);
    TWO32 - 1 - (Pow2(31 - k) - 1)
  }

  /** prefix_len_to_netmask: fails on lengths over 128. */
  function Mask128(n: nat): (m: Option<Words>)
    ensures m.Some? <==> n <= 128
    ensures n <= 128 ==> m.value.Value() == Leading(128, n)
  {
    if n > 128 then None
    else if n == 0 then
      NoneLeading(128, n);
      Some(Words(0, 0, 0, 0))
    else
      MaskInPlace((n - 1) / 32, (n - 1) % 32);
      Some(InWord((n - 1) / 32, PartMask((n - 1) % 32)))
  }

  lemma {:induction false} NoneLeading(size: nat, n: nat)
    requires n == 0
    ensures Leading(size, n) == 0
  {
    LeadingValue(size, n);
  }

  /** The place value of a word. */
  function Place(i: nat): nat {
    if i == 0 then TWO32 * TWO64 else if i == 1 then TWO64 else if i == 2 then TWO32 else 1
  }

  /** The bits of the host part, by the word in which they start. */
  lemma {:induction false} HostPart(i: nat, k: nat)
    requires i < 4 && k < 32
    ensures Pow2(127 - 32 * i - k) == Pow2(31 - k) * Place(i)
  {
    Pow2Values();
    Pow2Add(64, 32);
    assert Pow2(96 - 32 * i) == Place(i);
    Pow2Add(31 - k, 96 - 32 * i);
  }

  lemma {:induction false} InWordValue(i: nat, h: nat, m: word32)
    requires i < 4 && m + h == TWO32
    ensures InWord(i, m).Value() == TWO64 * TWO64 - h * Place(i)
  {
  }

  /** The words of a mask make up its number. */
  lemma {:induction false} MaskInPlace(i: nat, k: nat)
    requires i < 4 && k < 32
    ensures Leading(128, 32 * i + k + 1) == InWord(i, PartMask(k)).Value()
  {
    LeadingValue(128, 32 * i + k + 1);
    HostPart(i, k);
    Pow2Values();
    hide Place, InWord, Leading;
    InWordValue(i, Pow2(31 - k), PartMask(k));
  }

  /** The word in which a mask has to be searched for, unless the others rule one out. */
  function Selected(a: Words): Option<nat> {
    if a.w3 != FULL then (if a.w0 == 0 && a.w1 == 0 && a.w2 == 0 then Some(0) else None)
    else if a.w2 != FULL then (if a.w0 == 0 && a.w1 == 0 then Some(1) else None)
    else if a.w1 != FULL then (if a.w0 == 0 then Some(2) else None)
    else Some(3)
  }

  function WordAt(a: Words, i: nat): word32
    requires i < 4
  {
    if i == 0 then a.w3 else if i == 1 then a.w2 else if i == 2 then a.w1 else a.w0
  }

  lemma SelectedShape(a: Words)
    requires Selected(a).Some?
    ensures Selected(a).value < 4 && a == InWord(Selected(a).value, WordAt(a, Selected(a).value))
  {
  }

  /** A word of all ones is followed by one of zeros, which is then the one looked at. */
  lemma SelectedOf(i: nat, m: word32)
    requires i < 4
    ensures Selected(InWord(i, m)) == Some(if m == FULL && i < 3 then i + 1 else i)
    ensures WordAt(InWord(i, m), Selected(InWord(i, m)).value) == if m == FULL && i < 3 then 0 else m
    ensures m == FULL && i < 3 ==> InWord(i, m) == InWord(i + 1, 0)
  {
  }

  /** A selected word that is a mask makes the whole a mask. */
  lemma {:induction false} SelectedIsMask(a: Words, i: nat, r: nat)
    requires Selected(a) == Some(i) && i < 4 && r <= 32 && WordAt(a, i) == Leading(32, r)
    ensures a.Value() == Leading(128, 32 * i + r)
  {
    hide Ones, Leading, InWord, Selected, WordAt, Words.Value;
    SelectedShape(a);
    if r > 0 {
      MaskInPlace(i, r - 1);
    } else if i > 0 {
      NoneLeading(32, r);
      AllOnes(32);
      MaskInPlace(i - 1, 31);
      SelectedOf(i - 1, FULL);
    } else {
      NoneLeading(32, r);
      NoneLeading(128, 32 * i + r);
      FirstWordZero();
    }
  }

  lemma FirstWordZero()
    ensures InWord(0, 0) == Words(0, 0, 0, 0) && Words(0, 0, 0, 0).Value() == 0
  {
  }

  /** A mask has a selected word, and that word is a mask. */
  lemma {:induction false} MaskIsSelected(a: Words, n: nat)
    requires n <= 128 && a.Value() == Leading(128, n)
    ensures Selected(a).Some? && Selected(a).value < 4
    ensures exists r :: 0 <= r <= 32 && WordAt(a, Selected(a).value) == Leading(32, r)
  {
    hide Ones, Leading, InWord, Selected, WordAt, Words.Value;
    SameWords(a, Mask128(n).value);
    var r: nat;
    if n == 0 {
      FirstWordZero();
      SelectedOf(0, 0);
      r := 0;
    } else {
      var k := (n - 1) % 32;
      SelectedOf((n - 1) / 32, PartMask(k));
      r := if PartMask(k) == FULL && (n - 1) / 32 < 3 then 0 else k + 1;
    }
    if r == 0 {
      NoneLeading(32, r);
    }
    assert WordAt(a, Selected(a).value) == Leading(32, r);
  }

  /** prefix_len of a 128-bit address: fails exactly on addresses that are no netmask. */
  method PrefixLen128(a: Words) returns (r: Option<nat>)
    ensures r.Some? ==> r.value <= 128 && a.Value() == Leading(128, r.value)
    ensures r.None? ==> forall n :: 0 <= n <= 128 ==> a.Value() != Leading(128, n)
  {
    hide Leading;
    var s := Selected(a);
    r := None;
    if s.Some? {
      var k := PrefixLen32(WordAt(a, s.value));
      if k >= 0 {
        SelectedIsMask(a, s.value, k);
        return Some(k + 32 * s.value);
      }
    }
    forall n | 0 <= n <= 128
      ensures a.Value() != Leading(128, n)
    {
      if a.Value() == Leading(128, n) {
        MaskIsSelected(a, n);
      }
    }
  }

  lemma {:induction false} LeadingOrder(size: nat, a: nat, b: nat)
    requires a <= size && b <= size && Leading(size, a) == Leading(size, b)
    ensures a == b
  {
    LeadingValue(size, a);
    LeadingValue(size, b);
    if a < b {
      Pow2Grows(size - b, size - a);
    } else if b < a {
      Pow2Grows(size - a, size - b);
    }
  }

  method PrefixLenOfMask128(n: nat) returns (r: Option<nat>)
    requires n <= 128
    ensures r == Some(n)
  {
    r := PrefixLen128(Mask128(n).value);
    if r.Some? {
      LeadingOrder(128, r.value, n);
    }
  }
}
