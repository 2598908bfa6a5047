/**
 Arithmetic on IPv6 addresses: 128-bit numbers kept as two 64-bit words, with carries, borrows and shifts done by hand.
 Every operation is compared with the operation on the number that the words stand for.
 */
module Address128 {
  import opened Bytes
  import opened Bits

  const SIZE := 128
  const TWO128: nat := 0x1_0000_0000_0000_0000_0000_0000_0000_0000

  type word = x: nat | x < TWO64

  /** The number that two words stand for. */
  function Number(high: word, low: word): (n: nat)
    ensures n < TWO128
  {
    high * TWO64 + low
  }

  // ---------------------------------------------------------------- words

  /** Left shift of a 64-bit word: bits shifted out are lost. */
  function Shl(x: word, s: nat): word
    requires s < 64
  {
    x * Pow2(s) % TWO64
  }

  function Shr(x: word, s: nat): (r: word)
    requires s < 64
  {
    Quotient(x, Pow2(s))
  }

  function Quotient(x: word, p: nat): (q: word)
    requires p > 0
  {
    DivShrinks(x, p);
    x / p
  }

  lemma DivShrinks(x: nat, p: nat)
    requires p > 0
    ensures x / p <= x
  {
    if x / p > x {
      MulMono(1, p, x / p);
    }
  }

  lemma {:induction false} Split64(s: nat)
    requires s <= 64
    ensures Pow2(s) * Pow2(64 - s) == TWO64
  {
    Pow2Add(s, 64 - s);
    Pow2Values();
  }

  /** What a shifted word keeps: its lower bits. */
  lemma {:induction false} KeptBits(x: nat, p: nat, q: nat)
    requires p > 0 && q > 0 && p * q == TWO64
    ensures x * p == x / q * TWO64 + x % q * p
    ensures x % q * p < TWO64 && x * p % TWO64 == x % q * p
  {
    assert x == x / q * q + x % q;
    Distrib(x / q * q, x % q, p);
    Assoc(x / q, q, p);
    assert q * p == TWO64;
    MulMono(x % q + 1, q, p);
    Distrib(x % q, 1, p);
    DivIs(x * p, TWO64, x / q, x % q * p);
  }

  lemma {:induction false} HighPart(x: word, p: nat, q: nat)
    requires p > 0 && q > 0 && p * q == TWO64
    ensures x / q < p
  {
    DivBound(x, q, p);
  }

  /** Both words of a left shift by less than 64. */
  lemma {:induction false} LeftWords(h: word, l: word, s: nat)
    requires 0 < s < 64
    ensures Or(Shl(h, s), Shr(l, 64 - s)) < TWO64
    ensures Number(Or(Shl(h, s), Shr(l, 64 - s)), Shl(l, s)) == Number(h, l) * Pow2(s) % TWO128
  {
    var p, q := Pow2(s), Pow2(64 - s);
    Split64(s);
    KeptBits(h, p, q);
    KeptBits(l, p, q);
    HighPart(l, p, q);
    OrDisjoint(h % q, l / q, s);
    TopBits(h, p, q, l / q);
    hide Pow2, Or;
    LeftShifted(h, l, p, q);
  }

  /** The bits that leave the low word enter the high one, and those that leave the high word are lost. */
  lemma {:induction false} LeftShifted(h: word, l: word, p: nat, q: nat)
    requires p > 0 && q > 0 && p * q == TWO64 && h % q * p + l / q < TWO64 && l % q * p < TWO64
    ensures (h * TWO64 + l) * p % TWO128 == (h % q * p + l / q) * TWO64 + l % q * p
  {
    var hp, lp, nl := h % q * p, l / q, l % q * p;
    KeptBits(h, p, q);
    KeptBits(l, p, q);
    Distrib(h * TWO64, l, p);
    Assoc(h, TWO64, p);
    LeftSum(h * p, l * p, h / q, hp, lp, nl);
    DivIs((h * TWO64 + l) * p, TWO128, h / q, (hp + lp) * TWO64 + nl);
  }

  lemma LeftSum(hp0: nat, lp0: nat, a: nat, hp: nat, lp: nat, nl: nat)
    requires hp0 == a * TWO64 + hp && lp0 == lp * TWO64 + nl
    ensures hp0 * TWO64 + lp0 == a * TWO128 + ((hp + lp) * TWO64 + nl)
  {
  }

  lemma {:induction false} TopBits(h: nat, p: nat, q: nat, low: nat)
    requires p > 0 && q > 0 && p * q == TWO64 && low < p
    ensures h % q * p + low < TWO64
  {
    MulMono(h % q + 1, q, p);
    Distrib(h % q, 1, p);
  }

  /** Both words of a right shift by less than 64. */
  lemma {:induction false} RightWords(h: word, l: word, s: nat)
    requires 0 < s < 64
    ensures Or(Shr(l, s), Shl(h, 64 - s)) < TWO64
    ensures Number(Shr(h, s), Or(Shr(l, s), Shl(h, 64 - s))) == Number(h, l) / Pow2(s)
  {
    var p, q := Pow2(s), Pow2(64 - s);
    Split64(s);
    KeptBits(h, q, p);
    HighPart(l, q, p);
    OrCommutes(Shr(l, s), Shl(h, 64 - s));
    OrDisjoint(h % p, l / p, 64 - s);
    TopBits(h, q, p, l / p);
    hide Pow2, Or;
    RightShifted(h, l, p, q);
  }

  /** The bits that leave the high word enter the low one. */
  lemma {:induction false} RightShifted(h: word, l: word, p: nat, q: nat)
    requires p > 0 && q > 0 && q * p == TWO64
    ensures (h * TWO64 + l) / p == h / p * TWO64 + (h % p * q + l / p)
  {
    KeptBits(h, q, p);
    Assoc(h, q, p);
    AddMultiple(h * q, p, l);
  }

  // ---------------------------------------------------------------- sums

  lemma {:induction false} SumWords(h: word, l: word, h2: word, l2: word)
    ensures var nl, nh := (l + l2) % TWO64, (h + h2) % TWO64;
            Number(if nl < l then (nh + 1) % TWO64 else nh, nl) == (Number(h, l) + Number(h2, l2)) % TWO128
  {
    var nl := (l + l2) % TWO64;
    assert nl == if l + l2 >= TWO64 then l + l2 - TWO64 else l + l2;
    var c := if l + l2 >= TWO64 then 1 else 0;
    var t := h + h2 + c;
    assert (if nl < l then ((h + h2) % TWO64 + 1) % TWO64 else (h + h2) % TWO64) == if t >= TWO64 then t - TWO64 else t;
    var r := if t >= TWO64 then t - TWO64 else t;
    DivIs(Number(h, l) + Number(h2, l2), TWO128, if t >= TWO64 then 1 else 0, r * TWO64 + nl);
  }

  lemma {:induction false} DifferenceWords(h: word, l: word, h2: word, l2: word)
    ensures var nl := (l - l2) % TWO64;
            Number((h - (h2 + if l < nl then 1 else 0) % TWO64) % TWO64, nl) == (Number(h, l) - Number(h2, l2)) % TWO128
  {
    var nl := (l - l2) % TWO64;
    var c := if l < l2 then 1 else 0;
    assert nl == l - l2 + c * TWO64;
    var t := h - h2 - c;
    var d := if t < 0 then 1 else 0;
    assert (h - (h2 + c) % TWO64) % TWO64 == t + d * TWO64;
    var n := (t + d * TWO64) * TWO64 + nl;
    assert Number(h, l) - Number(h2, l2) + d * TWO128 == n;
    DivIs(n, TWO128, 0, n);
    WrapOnce(Number(h, l) - Number(h2, l2), d);
  }

  lemma WrapOnce(x: int, d: int)
    requires 0 <= x + d * TWO128 < TWO128 && (d == 0 || d == 1)
    ensures x % TWO128 == x + d * TWO128
  {
  }

  // ---------------------------------------------------------------- single bits

  lemma {:induction false} BitOfNumber(h: word, l: word, k: nat)
    requires k < SIZE
    ensures Bit(Number(h, l), k) == if k < 64 then Bit(l, k) else Bit(h, k - 64)
  {
    if k < 64 {
      Split64(k);
      assert Pow2(64 - k) == 2 * Pow2(63 - k);
      Regroup(h, Pow2(k), Pow2(63 - k));
      LowBit(h * TWO64, h * Pow2(63 - k), Pow2(k), l);
    } else {
      ShiftByWord(h, l, k);
    }
  }

  lemma {:induction false} LowBit(x: nat, b: nat, p: nat, l: nat)
    requires p > 0 && x == 2 * b * p
    ensures (x + l) / p % 2 == l / p % 2
  {
    AddMultiple(2 * b, p, l);
    EvenPlus(b, l / p);
  }

  lemma EvenPlus(b: nat, x: nat)
    ensures (2 * b + x) % 2 == x % 2
  {
  }

  lemma {:induction false} SameRemainder(x: nat, y: nat, a: nat, m: nat)
    requires m > 0 && x == a * m + y
    ensures x % m == y % m
  {
    AddMultiple(a, m, y);
  }

  lemma Regroup(h: nat, p: nat, q: nat)
    ensures h * (p * (2 * q)) == 2 * (h * q) * p
  {
  }

  /** Shifting right by 64 places or more leaves only bits of the high word. */
  lemma {:induction false} ShiftByWord(h: word, l: word, k: nat)
    requires 64 <= k
    ensures Number(h, l) / Pow2(k) == h / Pow2(k - 64)
  {
    Pow2Add(64, k - 64);
    Pow2Values();
    DivIs(Number(h, l), TWO64, h, l);
    DivTwice(Number(h, l), Pow2(64), Pow2(k - 64));
  }

  /** Setting a bit stays within the word. */
  lemma {:induction false} SetWithin(x: nat, k: nat, n: nat)
    requires k < n && x < Pow2(n) && !Bit(x, k)
    ensures x + Pow2(k) < Pow2(n)
    decreases k, n
  {
    var top := Pow2(n - 1);
    assert Pow2(n) == 2 * top;
    if k > 0 {
      var low := Pow2(k - 1);
      assert Pow2(k) == 2 * low;
      HalfBit(x, k);
      hide Pow2, Bit;
      SetWithin(x / 2, k - 1, n - 1);
    } else {
      assert Pow2(0) == 1 && x / 1 == x;
      assert x % 2 == 0;
    }
  }

  lemma {:induction false} OrKnownBit(x: nat, k: nat)
    requires Bit(x, k)
    ensures Or(x, Pow2(k)) == x
    decreases k
  {
    if k == 0 {
      OrZero(x / 2);
    } else {
      HalfBit(x, k);
      OrKnownBit(x / 2, k - 1);
    }
  }

  /** A word with one bit set. */
  lemma {:induction false} OrInWord(x: word, k: nat)
    requires k < 64
    ensures Or(x, Pow2(k)) < TWO64 && Or(x, Pow2(k)) == x + if Bit(x, k) then 0 else Pow2(k)
  {
    Pow2Values();
    if Bit(x, k) {
      OrKnownBit(x, k);
    } else {
      OrBit(x, k);
      SetWithin(x, k, 64);
    }
  }

  // ---------------------------------------------------------------- addresses

  class Addr {
    var high: word
    var low: word
    var scope: nat

    constructor (high: word, low: word, scope: nat)
      ensures this.high == high && this.low == low && this.scope == scope
    {
      this.high, this.low, this.scope := high, low, scope;
    }

    function Value(): nat
      reads this
    {
      Number(high, low)
    }

    lemma ZeroIsZero()
      ensures AllZeros() <==> Value() == 0
    {
    }

    predicate AllZeros()
      reads this
    {
      high == 0 && low == 0
    }

    /** operator>=: equal numbers are compared by their scope. */
    predicate GreaterEqual(other: Addr)
      reads this, other
      ensures GreaterEqual(other) <==> Value() > other.Value() || (Value() == other.Value() && scope >= other.scope)
    {
      if high == other.high then
        if low != other.low then low >= other.low else scope >= other.scope
      else high >= other.high
    }

    predicate BitAt(pos: nat)
      requires pos < SIZE
      reads this
      ensures BitAt(pos) == Bit(Value(), pos)
    {
      BitOfNumber(high, low, pos);
      if pos < 64 then Bit(low, pos) else Bit(high, pos - 64)
    }

    /** add: `other` may be the same object. */
    method Add(other: Addr)
      modifies this`high, this`low
      ensures Value() == (old(Value()) + old(other.Value())) % TWO128
    {
      hide Number;
      SumWords(high, low, other.high, other.low);
      var original := low;
      low := (low + other.low) % TWO64;
      high := (high + other.high) % TWO64;
      if low < original {
        high := (high + 1) % TWO64;
      }
    }

    /** sub: `other` may be the same object. */
    method Subtract(other: Addr)
      modifies this`high, this`low
      ensures Value() == (old(Value()) - old(other.Value())) % TWO128
    {
      DifferenceWords(high, low, other.high, other.low);
      var original := low;
      low := (low - other.low) % TWO64;
      high := (high - (other.high + if original < low then 1 else 0) % TWO64) % TWO64;
    }

    /** shiftl128: fails on shifts beyond 128. */
    method ShiftLeft(shift: nat) returns (ok: bool)
      modifies this`high, this`low
      ensures ok <==> shift <= SIZE
      ensures if ok then Value() == old(Value()) * Pow2(shift) % TWO128 else Value() == old(Value())
      decreases shift
    {
      ok := true;
      Pow2Values();
      if shift == 1 {
        LeftWords(high, low, 1);
        LeftByOne(high, low);
        high := Shl(high, 1);
        if Bit(low, 63) {
          high := Or(high, 1);
        }
        low := Shl(low, 1);
      } else if shift == 0 {
        LeftByZero(high, low);
      } else if shift == 128 {
        LeftByAll(Value());
        high, low := 0, 0;
      } else if shift < 64 {
        LeftWords(high, low, shift);
        high := Or(Shl(high, shift), Shr(low, 64 - shift));
        low := Shl(low, shift);
      } else if shift < 128 {
        LeftByWord(high, low, shift);
        high := low;
        low := 0;
        ok := ShiftLeft(shift - 64);
      } else {
        ok := false;
      }
    }

    /** shiftr128: fails on shifts beyond 128. */
    method ShiftRight(shift: nat) returns (ok: bool)
      modifies this`high, this`low
      ensures ok <==> shift <= SIZE
      ensures if ok then Value() == old(Value()) / Pow2(shift) else Value() == old(Value())
      decreases shift
    {
      ok := true;
      if shift == 1 {
        RightWords(high, low, 1);
        RightByOne(high, low);
        low := Shr(low, 1);
        if Bit(high, 0) {
          low := Or(low, Pow2(63));
        }
        high := Shr(high, 1);
      } else if shift == 0 {
      } else if shift < 64 {
        RightWords(high, low, shift);
        low, high := Or(Shr(low, shift), Shl(high, 64 - shift)), Shr(high, shift);
      } else if shift <= 128 {
        RightByWord(high, low, shift);
        low := high;
        high := 0;
        ok := ShiftRight(shift - 64);
      } else {
        ok := false;
      }
    }

    /** set_bit: can set a bit, never clears one. */
    method SetBit(pos: nat, value: bool)
      requires pos < SIZE
      modifies this`high, this`low
      ensures Value() == old(Value()) + if value && !Bit(old(Value()), pos) then Pow2(pos) else 0
    {
      BitOfNumber(high, low, pos);
      hide Or, Bit, Pow2;
      if value {
        if pos < 64 {
          OrInWord(low, pos);
          low := Or(low, Pow2(pos));
        } else {
          OrInWord(high, pos - 64);
          HighPlace(pos);
          high := Or(high, Pow2(pos - 64));
        }
      }
    }
  }

  lemma {:induction false} HighPlace(k: nat)
    requires 64 <= k
    ensures Pow2(k) == TWO64 * Pow2(k - 64)
  {
    Pow2Add(64, k - 64);
    Pow2Values();
  }

  /** The special case of shifting by one place does what the general case would. */
  lemma {:induction false} LeftByOne(h: word, l: word)
    ensures Or(Shl(h, 1), Shr(l, 63)) == if Bit(l, 63) then Or(Shl(h, 1), 1) else Shl(h, 1)
    ensures Or(Shl(h, 1), 1) < TWO64
  {
    TopBit(l);
    OrZero(Shl(h, 1));
    assert Pow2(0) == 1 && Pow2(1) == 2;
    OrInWord(Shl(h, 1), 0);
  }

  lemma {:induction false} TopBit(l: word)
    ensures Shr(l, 63) == if Bit(l, 63) then 1 else 0
  {
    Pow2Values();
    assert Pow2(64) == 2 * Pow2(63);
    DivBound(l, Pow2(63), 2);
  }

  lemma {:induction false} RightByOne(h: word, l: word)
    ensures Or(Shr(l, 1), Shl(h, 63)) == if Bit(h, 0) then Or(Shr(l, 1), Pow2(63)) else Shr(l, 1)
    ensures Or(Shr(l, 1), Pow2(63)) < TWO64
  {
    LowestBit(h);
    OrZero(Shr(l, 1));
    OrInWord(Shr(l, 1), 63);
  }

  lemma {:induction false} LowestBit(h: word)
    ensures Shl(h, 63) == if Bit(h, 0) then Pow2(63) else 0
  {
    Pow2Values();
    assert Pow2(64) == Pow2(63) * 2 && Pow2(0) == 1;
    KeptBits(h, Pow2(63), 2);
    if h % 2 == 1 {
      assert h % 2 * Pow2(63) == Pow2(63);
    }
  }

  lemma LeftByZero(h: word, l: word)
    ensures Number(h, l) * Pow2(0) % TWO128 == Number(h, l)
  {
  }

  lemma {:induction false} LeftByAll(v: nat)
    ensures v * Pow2(128) % TWO128 == 0
  {
    Pow2Values();
    DivIs(v * TWO128, TWO128, v, 0);
  }

  /** Shifting by a whole word first. */
  lemma {:induction false} LeftByWord(h: word, l: word, s: nat)
    requires 64 <= s < 128
    ensures Number(l, 0) * Pow2(s - 64) % TWO128 == Number(h, l) * Pow2(s) % TWO128
  {
    var p := Pow2(s - 64);
    Pow2Add(64, s - 64);
    Pow2Values();
    assert Pow2(s) == TWO64 * p;
    hide Pow2;
    TimesWord(Number(h, l), h, l, p, TWO64 * p);
  }

  lemma {:induction false} TimesWord(v: nat, h: nat, l: nat, p: nat, pw: nat)
    requires v == h * TWO64 + l && pw == TWO64 * p
    ensures v * pw % TWO128 == l * TWO64 * p % TWO128
  {
    WordTimes(h, l, p);
    SameRemainder(v * pw, l * TWO64 * p, h * p, TWO128);
  }

  lemma WordTimes(h: nat, l: nat, p: nat)
    ensures (h * TWO64 + l) * (TWO64 * p) == h * p * TWO128 + l * TWO64 * p
  {
  }

  lemma {:induction false} RightByWord(h: word, l: word, s: nat)
    requires 64 <= s <= 128
    ensures Number(0, h) / Pow2(s - 64) == Number(h, l) / Pow2(s)
  {
    ShiftByWord(h, l, s);
  }

  // ---------------------------------------------------------------- multiplication

  lemma {:induction false} SumOfRemainders(x: nat, y: nat, m: nat)
    requires m > 0
    ensures (x % m + y % m) % m == (x + y) % m
  {
    Distrib(x / m, y / m, m);
    assert x + y == (x / m + y / m) * m + (x % m + y % m);
    SameRemainder(x + y, x % m + y % m, x / m + y / m, m);
  }

  lemma {:induction false} DoubledRemainder(x: nat, m: nat)
    requires m > 0
    ensures x % m * 2 % m == 2 * x % m
  {
    SumOfRemainders(x, x, m);
  }

  /** One more bit of a factor. */
  lemma {:induction false} NextBit(a: nat, i: nat)
    ensures a % Pow2(i + 1) == a % Pow2(i) + if Bit(a, i) then Pow2(i) else 0
  {
    DivTwice(a, Pow2(i), 2);
  }

  /** What the loop has added up after `i` bits of `a`. */
  ghost predicate Multiplied(a: nat, b: nat, i: nat, sum: nat, m: nat) {
    sum == a % Pow2(i) * b % TWO128 && m == Pow2(i) * b % TWO128
  }

  lemma {:induction false} MultiplyStep(a: nat, b: nat, i: nat, sum: nat, m: nat)
    requires Multiplied(a, b, i, sum, m)
    ensures Multiplied(a, b, i + 1, if Bit(a, i) then (sum + m) % TWO128 else sum, m * 2 % TWO128)
  {
    NextBit(a, i);
    var x, y := a % Pow2(i) * b, Pow2(i) * b;
    if Bit(a, i) {
      Distrib(a % Pow2(i), Pow2(i), b);
      SumOfRemainders(x, y, TWO128);
    }
    DoubledRemainder(y, TWO128);
    Assoc(2, Pow2(i), b);
  }

  lemma {:induction false} MultiplyDone(a: nat, b: nat, sum: nat, m: nat)
    requires Multiplied(a, b, SIZE, sum, m) && a < TWO128
    ensures sum == a * b % TWO128
  {
    Pow2Values();
    DivIs(a, TWO128, 0, a);
  }

  /** operator*: add up shifted copies of `d`, one for each bit. */
  method Multiply(a: Addr, d: Addr) returns (product: Addr)
    ensures fresh(product) && product.Value() == a.Value() * d.Value() % TWO128
  {
    var m := new Addr(d.high, d.low, d.scope);
    product := new Addr(0, 0, 0);
    ghost var x, y := a.Value(), d.Value();
    var i := 0;
    MultiplyStart(x, y);
    while i < SIZE
      invariant i <= SIZE && fresh(product) && fresh(m) && m != product
      invariant Multiplied(x, y, i, product.Value(), m.Value())
    {
      MultiplyStep(x, y, i, product.Value(), m.Value());
      hide Multiplied;
      if a.BitAt(i) {
        product.Add(m);
      }
      assert Pow2(1) == 2;
      var ok := m.ShiftLeft(1);
      i := i + 1;
    }
    MultiplyDone(x, y, product.Value(), m.Value());
  }

  lemma MultiplyStart(x: nat, y: nat)
    requires y < TWO128
    ensures Multiplied(x, y, 0, 0, y)
  {
  }

  // ---------------------------------------------------------------- division

  /**
   After `i` bits of the quotient: the mask is the denominator shifted up by the bits still to come, the remainder is
   smaller than the mask, and the quotient has no bits yet below that place.
   */
  ghost predicate Divided(n: nat, d: nat, u: nat, q: nat, r: nat, mask: nat) {
    u > 0 && mask == d * u && n == q * d + r && r < mask && q % u == 0
  }

  lemma {:induction false} DivideStart(n: nat, d: nat)
    requires n < TWO128 && 0 < d < TWO128
    ensures Divided(n, d, Pow2(SIZE), 0, n, d * TWO128)
  {
    Pow2Values();
  }

  /** Half the mask is taken off if it can be. */
  lemma {:induction false} DivideStep(n: nat, d: nat, u: nat, q: nat, r: nat, mask: nat)
    requires Divided(n, d, 2 * u, q, r, mask) && u > 0
    ensures mask % 2 == 0
    ensures var h := mask / 2; if r >= h then Divided(n, d, u, q + u, r - h, h) else Divided(n, d, u, q, r, h)
  {
    Assoc(d, 2, u);
    var h := d * u;
    assert mask == 2 * h;
    DivTwice(q, u, 2);
    assert q % u == 0;
    Distrib(q, u, d);
    AddMultiple(1, u, q);
  }

  /** The next bit of the quotient is still clear. */
  lemma {:induction false} BitStillClear(n: nat, d: nat, k: nat, q: nat, r: nat, mask: nat)
    requires Divided(n, d, Pow2(k + 1), q, r, mask)
    ensures !Bit(q, k)
  {
    NextBit(q, k);
  }

  /** Shift the double-width mask right by one place. */
  method HalveMask(maskHigh: Addr, maskLow: Addr)
    requires maskHigh != maskLow
    modifies maskHigh, maskLow
    ensures maskHigh.Value() * TWO128 + maskLow.Value() == (old(maskHigh.Value()) * TWO128 + old(maskLow.Value())) / 2
    ensures maskLow.scope == old(maskLow.scope) && maskHigh.scope == old(maskHigh.scope)
  {
    ghost var a, b := maskHigh.Value(), maskLow.Value();
    assert Pow2(0) == 1 && Pow2(1) == 2;
    var ok := maskLow.ShiftRight(1);
    HalfHasNoTop(b);
    var carry := maskHigh.BitAt(0);
    maskLow.SetBit(SIZE - 1, carry);
    ok := maskHigh.ShiftRight(1);
    assert Pow2(128) == 2 * Pow2(127);
    Pow2Values();
  }

  lemma {:induction false} HalfHasNoTop(b: nat)
    requires b < TWO128
    ensures !Bit(b / 2, 127)
  {
    Pow2Values();
    assert Pow2(128) == 2 * Pow2(127);
    DivBound(b / 2, Pow2(127), 1);
  }

  predicate Apart(a: Addr, b: Addr, c: Addr, d: Addr) {
    a != b && a != c && a != d && b != c && b != d && c != d
  }

  lemma NoBorrow(x: nat, y: nat)
    requires y <= x < TWO128
    ensures (x - y) % TWO128 == x - y
  {
  }

  lemma HalfPower(k: nat)
    requires k > 0
    ensures Pow2(k) == 2 * Pow2(k - 1)
  {
  }

  /** One turn of the division loop. */
  method DivideOnce(i: nat, quotient: Addr, remainder: Addr, maskHigh: Addr, maskLow: Addr, ghost n: nat, ghost d: nat)
    requires i < SIZE && Apart(quotient, remainder, maskHigh, maskLow) && maskLow.scope == 0
    requires Divided(n, d, Pow2(SIZE - i), quotient.Value(), remainder.Value(),
                     maskHigh.Value() * TWO128 + maskLow.Value())
    modifies quotient, remainder, maskHigh, maskLow
    ensures Divided(n, d, Pow2(SIZE - 1 - i), quotient.Value(), remainder.Value(),
                    maskHigh.Value() * TWO128 + maskLow.Value())
    ensures maskLow.scope == 0
  {
    hide Divided, Pow2, Bit, Number;
    HalfPower(SIZE - i);
    ghost var q, r, u := quotient.Value(), remainder.Value(), Pow2(SIZE - 1 - i);
    DivideStep(n, d, u, q, r, maskHigh.Value() * TWO128 + maskLow.Value());
    BitStillClear(n, d, SIZE - 1 - i, q, r, maskHigh.Value() * TWO128 + maskLow.Value());
    HalveMask(maskHigh, maskLow);
    maskHigh.ZeroIsZero();
    if maskHigh.AllZeros() && remainder.GreaterEqual(maskLow) {
      NoBorrow(remainder.Value(), maskLow.Value());
      remainder.Subtract(maskLow);
      quotient.SetBit(SIZE - 1 - i, true);
    }
  }

  /** All 128 turns. */
  method DivideLoop(quotient: Addr, remainder: Addr, maskHigh: Addr, maskLow: Addr, ghost n: nat, ghost d: nat)
    requires Apart(quotient, remainder, maskHigh, maskLow) && maskLow.scope == 0
    requires Divided(n, d, Pow2(SIZE), quotient.Value(), remainder.Value(), maskHigh.Value() * TWO128 + maskLow.Value())
    modifies quotient, remainder, maskHigh, maskLow
    ensures n == quotient.Value() * d + remainder.Value() && remainder.Value() < d
  {
    hide Divided, Pow2, Number;
    var i := 0;
    while i < SIZE
      invariant i <= SIZE && maskLow.scope == 0
      invariant Divided(n, d, Pow2(SIZE - i), quotient.Value(), remainder.Value(),
                        maskHigh.Value() * TWO128 + maskLow.Value())
    {
      DivideOnce(i, quotient, remainder, maskHigh, maskLow, n, d);
      i := i + 1;
    }
    DivideDone(n, d, quotient.Value(), remainder.Value(), maskHigh.Value() * TWO128 + maskLow.Value());
  }

  lemma DivideDone(n: nat, d: nat, q: nat, r: nat, mask: nat)
    requires Divided(n, d, Pow2(0), q, r, mask)
    ensures n == q * d + r && r < d
  {
  }

  /** div: fails on a zero denominator; otherwise quotient and remainder, whatever the scopes. */
  method Divide(numerator: Addr, denominator: Addr) returns (ok: bool, quotient: Addr, remainder: Addr)
    ensures ok <==> denominator.Value() != 0
    ensures ok ==> numerator.Value() == quotient.Value() * denominator.Value() + remainder.Value()
    ensures ok ==> remainder.Value() < denominator.Value()
    ensures fresh(quotient) && fresh(remainder) && quotient != remainder
  {
    hide Divided, Pow2;
    quotient := new Addr(0, 0, 0);
    remainder := new Addr(numerator.high, numerator.low, numerator.scope);
    ok := !denominator.AllZeros();
    if !ok {
      return;
    }
    var maskLow := new Addr(0, 0, 0);
    var maskHigh := new Addr(denominator.high, denominator.low, denominator.scope);
    ghost var n, d := numerator.Value(), denominator.Value();
    DivideStart(n, d);
    DivideLoop(quotient, remainder, maskHigh, maskLow, n, d);
  }
}
