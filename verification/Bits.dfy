/** Powers of two and bitwise operations on numbers, for code that works with machine words. */
module Bits {
  import opened Bytes

  function Pow2(k: nat): (p: nat)
    ensures p > 0
  {
    if k == 0 then 1 else 2 * Pow2(k - 1)
  }

  lemma {:induction false} Pow2Add(a: nat, b: nat)
    ensures Pow2(a + b) == Pow2(a) * Pow2(b)
    decreases b
  {
    if b > 0 {
      Pow2Add(a, b - 1);
      assert Pow2(a + b) == 2 * (Pow2(a) * Pow2(b - 1));
      Assoc(Pow2(a), 2, Pow2(b - 1));
    }
  }

  lemma Assoc(a: int, b: int, c: int)
    ensures a * (b * c) == b * (a * c) == (a * b) * c
  {
  }

  lemma {:induction false} Pow2Grows(a: nat, b: nat)
    requires a <= b
    ensures Pow2(a) <= Pow2(b)
    ensures a < b ==> 2 * Pow2(a) <= Pow2(b)
    decreases b
  {
    if a < b {
      Pow2Grows(a, b - 1);
    }
  }

  lemma Pow2Small()
    ensures Pow2(8) == 256 && Pow2(16) == 0x1_0000
  {
    assert Pow2(4) == 16;
    Pow2Add(4, 4);
    Pow2Add(8, 8);
  }

  lemma Pow2Values()
    ensures Pow2(16) == 0x1_0000 && Pow2(31) == TWO31 && Pow2(32) == TWO32 && Pow2(64) == TWO64
    ensures Pow2(128) == TWO64 * TWO64
  {
    assert Pow2(32) == 2 * Pow2(31);
    hide Pow2;
    Pow2Small();
    Pow2Add(16, 16);
    Pow2Add(32, 32);
    Pow2Add(64, 64);
  }

  // ---------------------------------------------------------------- quotient and remainder

  /** Quotient and remainder are determined by the equation they satisfy. */
  lemma {:induction false} DivIs(x: nat, p: nat, q: int, r: nat)
    requires p > 0 && r < p && x == q * p + r
    ensures x / p == q && x % p == r
  {
    var a, b := x / p, x % p;
    assert x == a * p + b;
    if q > a {
      MulMono(1, q - a, p);
      Distrib(q, a, p);
    } else if q < a {
      MulMono(1, a - q, p);
      Distrib(a, q, p);
    }
  }

  lemma MulMono(a: int, b: int, p: nat)
    requires a <= b
    ensures a * p <= b * p
  {
  }

  lemma Distrib(a: int, b: int, p: int)
    ensures (a - b) * p == a * p - b * p
    ensures (a + b) * p == a * p + b * p
    ensures p * (a + b) == a * p + b * p
  {
  }

  /** Adding a multiple of `p` changes the quotient only. */
  lemma {:induction false} AddMultiple(a: nat, p: nat, b: nat)
    requires p > 0
    ensures (a * p + b) / p == a + b / p && (a * p + b) % p == b % p
  {
    assert b == b / p * p + b % p;
    Distrib(a, b / p, p);
    DivIs(a * p + b, p, a + b / p, b % p);
  }

  lemma {:induction false} DivBound(x: nat, p: nat, q: nat)
    requires p > 0 && x < q * p
    ensures x / p < q
  {
    if x / p >= q {
      MulMono(q, x / p, p);
    }
  }

  /** Dividing twice. */
  lemma {:induction false} DivTwice(x: nat, p: nat, q: nat)
    requires p > 0 && q > 0
    ensures p * q > 0 && x / p / q == x / (p * q)
    ensures x % (p * q) == x / p % q * p + x % p
  {
    MulPositive(p, q);
    var a, r := x / p, x % p;
    var b, s := a / q, a % q;
    assert x == a * p + r && a == b * q + s;
    Distrib(b * q, s, p);
    Assoc(b, q, p);
    MulMono(s + 1, q, p);
    Distrib(s, 1, p);
    assert b * q * p == b * (p * q);
    DivIs(x, p * q, b, s * p + r);
  }

  lemma MulPositive(p: nat, q: nat)
    requires p > 0 && q > 0
    ensures p * q > 0
  {
  }

  // ---------------------------------------------------------------- bits

  function Bit(x: nat, k: nat): (b: bool) {
    x / Pow2(k) % 2 == 1
  }

  /** Bitwise or. */
  function Or(x: nat, y: nat): nat
    decreases x + y
  {
    if x == 0 && y == 0 then 0
    else (if x % 2 == 1 || y % 2 == 1 then 1 else 0) + 2 * Or(x / 2, y / 2)
  }

  /** Bitwise and. */
  function And(x: nat, y: nat): nat
    decreases x
  {
    if x == 0 then 0
    else (if x % 2 == 1 && y % 2 == 1 then 1 else 0) + 2 * And(x / 2, y / 2)
  }

  /** Bit by bit, these are the logical operations. */
  lemma {:induction false} OrBits(x: nat, y: nat, k: nat)
    ensures Bit(Or(x, y), k) == (Bit(x, k) || Bit(y, k))
    decreases k
  {
    if k > 0 {
      HalfBit(x, k);
      HalfBit(y, k);
      HalfBit(Or(x, y), k);
      OrBits(x / 2, y / 2, k - 1);
      assert Or(x, y) / 2 == Or(x / 2, y / 2);
    }
  }

  lemma {:induction false} AndBits(x: nat, y: nat, k: nat)
    ensures Bit(And(x, y), k) == (Bit(x, k) && Bit(y, k))
    decreases k
  {
    if k > 0 {
      HalfBit(x, k);
      HalfBit(y, k);
      HalfBit(And(x, y), k);
      AndBits(x / 2, y / 2, k - 1);
      assert And(x, y) / 2 == And(x / 2, y / 2);
    }
  }

  lemma {:induction false} HalfBit(x: nat, k: nat)
    requires k > 0
    ensures Bit(x, k) == Bit(x / 2, k - 1)
  {
    DivTwice(x, 2, Pow2(k - 1));
  }

  /** Numbers with no bit in common: or is addition. */
  lemma {:induction false} OrDisjoint(x: nat, y: nat, k: nat)
    requires y < Pow2(k)
    ensures Or(x * Pow2(k), y) == x * Pow2(k) + y
    decreases k
  {
    if k == 0 {
      OrZero(x);
    } else {
      var p := Pow2(k - 1);
      assert x * Pow2(k) == 2 * (x * p) by {
        Assoc(x, 2, p);
      }
      OrDisjoint(x, y / 2, k - 1);
      assert Or(x * Pow2(k), y) == (if y % 2 == 1 then 1 else 0) + 2 * Or(x * p, y / 2);
    }
  }

  lemma {:induction false} OrZero(x: nat)
    ensures Or(x, 0) == x
  {
    if x > 0 {
      OrZero(x / 2);
    }
  }

  lemma {:induction false} OrCommutes(x: nat, y: nat)
    ensures Or(x, y) == Or(y, x)
    decreases x + y
  {
    if x > 0 || y > 0 {
      OrCommutes(x / 2, y / 2);
    }
  }

  /** Setting a bit that was clear adds its value. */
  lemma {:induction false} OrBit(x: nat, k: nat)
    requires !Bit(x, k)
    ensures Or(x, Pow2(k)) == x + Pow2(k)
    decreases k
  {
    if k == 0 {
      OrZero(x / 2);
    } else {
      HalfBit(x, k);
      OrBit(x / 2, k - 1);
    }
  }

  /** `n` ones, followed by `k` zeros. */
  function Ones(n: nat, k: nat): nat
    decreases k, n
  {
    if k > 0 then 2 * Ones(n, k - 1) else if n > 0 then 2 * Ones(n - 1, 0) + 1 else 0
  }

  lemma {:induction false} OnesValue(n: nat, k: nat)
    ensures Ones(n, k) == Pow2(n + k) - Pow2(k)
    decreases k, n
  {
    if k > 0 {
      OnesValue(n, k - 1);
    } else if n > 0 {
      OnesValue(n - 1, 0);
    }
  }

  /** They select the bits from `k` on. */
  lemma {:induction false} AndMask(x: nat, n: nat, k: nat)
    requires x < Pow2(n + k)
    ensures And(x, Ones(n, k)) == x - x % Pow2(k)
    decreases k, n
  {
    if x > 0 {
      if k > 0 {
        AndMask(x / 2, n, k - 1);
        DivTwice(x, 2, Pow2(k - 1));
      } else if n > 0 {
        AndMask(x / 2, n - 1, 0);
      }
    }
  }
}
