/** Unsigned machine words as naturals: the bits of a natural, and the bitwise operators
    of Go defined one binary digit at a time. */
module UintBits {

  const TWO32: nat := 0x1_0000_0000

  function Pow2(k: nat): (r: nat)
    ensures r >= 1
  {
    if k == 0 then 1 else 2 * Pow2(k - 1)
  }

  /** Go's `a ^ b`. */
  function Xor(a: nat, b: nat): nat
    decreases a + b
  {
    if a == 0 && b == 0 then 0
    else 2 * Xor(a / 2, b / 2) + (if a % 2 != b % 2 then 1 else 0)
  }

  /** Go's `a & b`. */
  function And(a: nat, b: nat): nat
    decreases a + b
  {
    if a == 0 && b == 0 then 0
    else 2 * And(a / 2, b / 2) + (if a % 2 == 1 && b % 2 == 1 then 1 else 0)
  }

  /** Go's `a | b`. */
  function Or(a: nat, b: nat): nat
    decreases a + b
  {
    if a == 0 && b == 0 then 0
    else 2 * Or(a / 2, b / 2) + (if a % 2 == 1 || b % 2 == 1 then 1 else 0)
  }

  /** Go's `a >> s`. */
  function Shr(a: nat, s: nat): nat {
    if s == 0 then a else Shr(a / 2, s - 1)
  }

  /** The low k bits of a. */
  function Low(a: nat, k: nat): nat {
    if k == 0 then 0 else 2 * Low(a / 2, k - 1) + a % 2
  }

  /** Bit i of a. */
  predicate Bit(a: nat, i: nat) {
    if i == 0 then a % 2 == 1 else Bit(a / 2, i - 1)
  }

  /** Go's conversion to uint32, and the wrap-around of its addition. */
  function Uint32(a: nat): (r: nat)
    ensures r < TWO32
    ensures a < TWO32 ==> r == a
  {
    a % TWO32
  }

  /** Go's `a * b` on uint32, which drops the carries out of bit 31. */
  function Mul32(a: nat, b: nat): nat {
    Uint32(a * b)
  }

  // ----- shifts and low bits against division and remainder

  /** The one way to divide: a == q * m + r fixes quotient and remainder. */
  lemma DivModUnique(a: int, m: int, q: int, r: int)
    requires m > 0 && 0 <= r < m && a == q * m + r
    ensures a / m == q && a % m == r
  {
    var p := a / m;
    assert a == p * m + a % m;
    if p < q {
      AtLeastOnce(q - p, m);
      Distribute(q, p, m);
    } else if p > q {
      AtLeastOnce(p - q, m);
      Distribute(p, q, m);
    }
  }

  lemma AtLeastOnce(d: int, m: int)
    requires d >= 1 && m > 0
    ensures d * m >= m
  {
  }

  lemma Distribute(x: int, y: int, m: int)
    ensures (x - y) * m == x * m - y * m
  {
  }

  /** Shr divides by a power of two and Low is what is left. */
  lemma {:induction false} SplitAt(a: nat, k: nat)
    ensures a == Shr(a, k) * Pow2(k) + Low(a, k) && Low(a, k) < Pow2(k)
  {
    if k > 0 {
      SplitAt(a / 2, k - 1);
      var q, p, r := Shr(a / 2, k - 1), Pow2(k - 1), Low(a / 2, k - 1);
      TwiceProduct(q, p);
      assert Shr(a, k) == q && Pow2(k) == 2 * p && Low(a, k) == 2 * r + a % 2;
    }
  }

  lemma TwiceProduct(a: nat, b: nat)
    ensures a * (2 * b) == 2 * (a * b) == (2 * a) * b
  {
  }

  lemma ShrLowAreDivMod(a: nat, k: nat)
    ensures Shr(a, k) == a / Pow2(k) && Low(a, k) == a % Pow2(k)
  {
    SplitAt(a, k);
    DivModUnique(a, Pow2(k), Shr(a, k), Low(a, k));
  }

  lemma {:induction false} Pow2Monotone(j: nat, k: nat)
    requires j <= k
    ensures Pow2(j) <= Pow2(k)
  {
    if j < k {
      Pow2Monotone(j, k - 1);
    }
  }

  lemma {:induction false} Pow2Add(j: nat, k: nat)
    ensures Pow2(j + k) == Pow2(j) * Pow2(k)
  {
    if j > 0 {
      Pow2Add(j - 1, k);
      assert Pow2(j + k) == 2 * Pow2(j - 1 + k) && Pow2(j) == 2 * Pow2(j - 1);
      TwiceProduct(Pow2(j - 1), Pow2(k));
    }
  }

  lemma Pow2Of32()
    ensures Pow2(32) == TWO32
  {
    assert Pow2(4) == 16;
    Pow2Add(4, 4);
    Pow2Add(8, 8);
    Pow2Add(16, 16);
  }

  lemma LowDigits(a: nat, k: nat)
    requires k > 0
    ensures Low(a, k) / 2 == Low(a / 2, k - 1) && Low(a, k) % 2 == a % 2
  {
  }

  lemma {:induction false} LowOfSmall(a: nat, k: nat)
    requires a < Pow2(k)
    ensures Low(a, k) == a
  {
    if k > 0 {
      LowOfSmall(a / 2, k - 1);
    }
  }

  /** Cutting to k bits after cutting to n >= k bits. */
  lemma {:induction false} LowOfLow(a: nat, n: nat, k: nat)
    requires k <= n
    ensures Low(Low(a, n), k) == Low(a, k)
  {
    if k > 0 {
      LowOfLow(a / 2, n - 1, k - 1);
    }
  }

  lemma {:induction false} ShrSmaller(a: nat, s: nat)
    ensures Shr(a, s) <= a
    ensures s > 0 && a > 0 ==> Shr(a, s) < a
  {
    if s > 0 {
      ShrSmaller(a / 2, s - 1);
    }
  }

  // ----- Xor

  lemma XorDigits(a: nat, b: nat)
    ensures Xor(a, b) / 2 == Xor(a / 2, b / 2)
    ensures Xor(a, b) % 2 == if a % 2 != b % 2 then 1 else 0
  {
  }

  lemma {:induction false} XorSelfInverse(a: nat, c: nat)
    ensures Xor(Xor(a, c), c) == a
    decreases a + c
  {
    if a != 0 || c != 0 {
      XorSelfInverse(a / 2, c / 2);
      XorDigits(a, c);
    }
  }

  lemma {:induction false} XorBounded(a: nat, b: nat, k: nat)
    requires a < Pow2(k) && b < Pow2(k)
    ensures Xor(a, b) < Pow2(k)
  {
    if k > 0 {
      XorBounded(a / 2, b / 2, k - 1);
    }
  }

  /** Xor works on high bits alone. */
  lemma {:induction false} XorShr(a: nat, b: nat, k: nat)
    ensures Shr(Xor(a, b), k) == Xor(Shr(a, k), Shr(b, k))
  {
    if k > 0 {
      XorDigits(a, b);
      XorShr(a / 2, b / 2, k - 1);
    }
  }

  /** Xor works on low bits alone. */
  lemma {:induction false} XorLow(a: nat, b: nat, k: nat)
    ensures Low(Xor(a, b), k) == Xor(Low(a, k), Low(b, k))
  {
    if k > 0 {
      XorDigits(a, b);
      XorLow(a / 2, b / 2, k - 1);
      XorOfDigits(Low(a / 2, k - 1), a % 2, Low(b / 2, k - 1), b % 2);
    }
  }

  lemma XorOfDigits(h: nat, r: nat, h': nat, r': nat)
    requires r < 2 && r' < 2
    ensures Xor(2 * h + r, 2 * h' + r') == 2 * Xor(h, h') + if r != r' then 1 else 0
  {
    assert (2 * h + r) / 2 == h && (2 * h' + r') / 2 == h';
  }

  // ----- And with a block of ones

  lemma AndDigits(a: nat, b: nat)
    ensures And(a, b) / 2 == And(a / 2, b / 2)
    ensures And(a, b) % 2 == if a % 2 == 1 && b % 2 == 1 then 1 else 0
  {
  }

  lemma {:induction false} AndOnes(a: nat, k: nat)
    ensures And(a, Pow2(k) - 1) == Low(a, k)
  {
    if k == 0 {
      AndZero(a);
    } else {
      AndOnes(a / 2, k - 1);
      assert (Pow2(k) - 1) / 2 == Pow2(k - 1) - 1 && (Pow2(k) - 1) % 2 == 1;
      AndDigits(a, Pow2(k) - 1);
      LowDigits(a, k);
    }
  }

  lemma {:induction false} AndZero(a: nat)
    ensures And(a, 0) == 0 && And(0, a) == 0
  {
    if a != 0 {
      AndZero(a / 2);
    }
  }

  // ----- Or and shifts, bit by bit

  lemma OrDigits(a: nat, b: nat)
    ensures Or(a, b) / 2 == Or(a / 2, b / 2)
    ensures Or(a, b) % 2 == if a % 2 == 1 || b % 2 == 1 then 1 else 0
  {
  }

  lemma {:induction false} OrBit(a: nat, b: nat, i: nat)
    ensures Bit(Or(a, b), i) <==> Bit(a, i) || Bit(b, i)
  {
    OrDigits(a, b);
    if i > 0 {
      OrBit(a / 2, b / 2, i - 1);
    }
  }

  lemma {:induction false} ShrBit(a: nat, s: nat, i: nat)
    ensures Bit(Shr(a, s), i) <==> Bit(a, i + s)
  {
    if s > 0 {
      ShrBit(a / 2, s - 1, i);
    }
  }

  lemma {:induction false} OrBounded(a: nat, b: nat, k: nat)
    requires a < Pow2(k) && b < Pow2(k)
    ensures Or(a, b) < Pow2(k)
  {
    if k > 0 {
      OrBounded(a / 2, b / 2, k - 1);
    }
  }

  lemma {:induction false} AllOnes(a: nat, k: nat)
    requires a < Pow2(k)
    requires forall i: nat :: i < k ==> Bit(a, i)
    ensures a == Pow2(k) - 1
  {
    if k > 0 {
      assert Bit(a, 0);
      forall i: nat | i < k - 1
        ensures Bit(a / 2, i)
      {
        assert Bit(a, i + 1);
      }
      AllOnes(a / 2, k - 1);
    }
  }

  // ----- initial segments of the naturals

  function Below(m: nat): (r: set<nat>)
    ensures |r| == m
    ensures forall x: nat :: x in r <==> x < m
  {
    if m == 0 then {} else Below(m - 1) + {m - 1}
  }
}
