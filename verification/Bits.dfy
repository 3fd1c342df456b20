/** The `&` and `^` of unbounded non-negative integers, and what masks by `2**k - 1` do to them. */
module Bits {
  function Pow2(k: nat): (p: nat)
    ensures p >= 1
  {
    if k == 0 then 1 else 2 * Pow2(k - 1)
  }

  function Xor(a: nat, b: nat): nat
    decreases a + b
  {
    if a == 0 && b == 0 then 0
    else (if a % 2 != b % 2 then 1 else 0) + 2 * Xor(a / 2, b / 2)
  }

  function And(a: nat, b: nat): nat {
    if a == 0 || b == 0 then 0
    else (if a % 2 == 1 && b % 2 == 1 then 1 else 0) + 2 * And(a / 2, b / 2)
  }

  /** Binary digit `i`, counted from the lowest. */
  predicate Bit(a: nat, i: nat) {
    if i == 0 then a % 2 == 1 else Bit(a / 2, i - 1)
  }

  /** XOR is exclusive or in every digit. */
  lemma {:induction false} XorBits(a: nat, b: nat, i: nat)
    ensures Bit(Xor(a, b), i) <==> Bit(a, i) != Bit(b, i)
    decreases i
  {
    var x := Xor(a, b);
    assert x % 2 == (if a % 2 != b % 2 then 1 else 0) && x / 2 == Xor(a / 2, b / 2);
    if i > 0 {
      XorBits(a / 2, b / 2, i - 1);
    }
  }

  /** Only XOR by zero leaves a word as it is. */
  lemma {:induction false} XorFixed(a: nat, b: nat)
    ensures Xor(a, b) == a <==> b == 0
    decreases a + b
  {
    if a != 0 || b != 0 {
      XorFixed(a / 2, b / 2);
      assert Xor(a, b) / 2 == Xor(a / 2, b / 2);
      assert Xor(a, b) % 2 == if a % 2 != b % 2 then 1 else 0;
    }
  }

  lemma {:induction false} XorZero(a: nat)
    ensures Xor(a, 0) == a
  {
    if a > 0 {
      XorZero(a / 2);
    }
  }

  /** XOR by the same word twice is the identity: the alternate of the alternate bucket is the bucket. */
  lemma {:induction false} XorInvolution(a: nat, b: nat)
    ensures Xor(Xor(a, b), b) == a
    decreases a + b
  {
    if a != 0 || b != 0 {
      XorInvolution(a / 2, b / 2);
      var x := Xor(a, b);
      assert x / 2 == Xor(a / 2, b / 2);
      assert x % 2 == if a % 2 != b % 2 then 1 else 0;
    }
  }

  lemma {:induction false} XorBound(a: nat, b: nat, k: nat)
    requires a < Pow2(k) && b < Pow2(k)
    ensures Xor(a, b) < Pow2(k)
    decreases k
  {
    if k > 0 {
      XorBound(a / 2, b / 2, k - 1);
    }
  }

  lemma {:induction false} AndLe(a: nat, b: nat)
    ensures And(a, b) <= a
  {
    if a != 0 && b != 0 {
      AndLe(a / 2, b / 2);
    }
  }

  lemma MulStep(m: nat, x: nat, y: nat)
    requires x < y
    ensures m * x + m <= m * y
  {
    var d := y - x - 1;
    assert m * y == m * (x + 1 + d) == m * x + m + m * d;
  }

  lemma ModUnique(a: nat, m: nat, q: nat, r: nat)
    requires 0 < m && r < m && a == m * q + r
    ensures a % m == r
  {
    var d := a / m;
    if d < q {
      MulStep(m, d, q);
    } else if d > q {
      MulStep(m, q, d);
    }
  }

  lemma TwiceSplit(a: nat, m: nat) returns (q: nat, mq: nat, r: nat)
    requires 0 < m
    ensures mq == m * q && r == a % (2 * m) < 2 * m && a == 2 * mq + r
  {
    q, r := a / (2 * m), a % (2 * m);
    mq := m * q;
    assert (2 * m) * q == 2 * mq;
  }

  lemma HalveMod(a: nat, k: nat)
    ensures (a / 2) % Pow2(k) == a % Pow2(k + 1) / 2
    ensures a % Pow2(k + 1) % 2 == a % 2
  {
    var q, mq, r := TwiceSplit(a, Pow2(k));
    ModUnique(a / 2, Pow2(k), q, r / 2);
  }

  /** Masking by `2**k - 1` keeps the remainder modulo `2**k`. */
  lemma {:induction false} MaskIsMod(a: nat, k: nat)
    ensures And(a, Pow2(k) - 1) == a % Pow2(k)
    decreases k
  {
    if k == 0 {
    } else if a == 0 {
    } else {
      MaskIsMod(a / 2, k - 1);
      HalveMod(a, k - 1);
      assert (Pow2(k) - 1) / 2 == Pow2(k - 1) - 1;
    }
  }

  /** XOR commutes with reduction modulo a power of two. */
  lemma {:induction false} XorMod(a: nat, b: nat, k: nat)
    ensures Xor(a, b) % Pow2(k) == Xor(a % Pow2(k), b % Pow2(k))
    decreases k
  {
    if k > 0 {
      XorMod(a / 2, b / 2, k - 1);
      HalveMod(a, k - 1);
      HalveMod(b, k - 1);
      HalveMod(Xor(a, b), k - 1);
      if a != 0 || b != 0 {
        assert Xor(a, b) / 2 == Xor(a / 2, b / 2);
      }
    }
  }

  /** A mask at `2**(k+1)` followed by the mask at `2**k` is the mask at `2**k`. */
  lemma NestedMod(a: nat, k: nat)
    ensures a % Pow2(k + 1) % Pow2(k) == a % Pow2(k)
  {
    var m := Pow2(k);
    var q, mq, r := TwiceSplit(a, m);
    var high := if r < m then 0 else 1;
    assert m * (2 * q + high) == 2 * mq + m * high;
    ModUnique(a, m, 2 * q + high, r - m * high);
    ModUnique(r, m, high, r - m * high);
  }
}
