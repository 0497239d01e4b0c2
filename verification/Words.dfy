/** Bitwise operations on unsigned numbers, and why a power-of-two mask is a remainder. */
module Words {
  const WORD_RANGE: nat := 0x1_0000_0000_0000_0000

  function And(a: nat, b: nat): nat {
    if a == 0 || b == 0 then 0 else (a % 2) * (b % 2) + 2 * And(a / 2, b / 2)
  }

  function Xor(a: nat, b: nat): nat {
    if a == 0 then b else if b == 0 then a else (a % 2 + b % 2) % 2 + 2 * Xor(a / 2, b / 2)
  }

  function Pow2(k: nat): (p: nat)
    ensures p > 0
  {
    if k == 0 then 1 else 2 * Pow2(k - 1)
  }

  /** Unsigned 64-bit subtraction. */
  function Minus(a: nat, b: nat): nat {
    (a - b) % WORD_RANGE
  }

  lemma AndUnfold(a: nat, d: nat, h: nat)
    requires a > 0 && d == a % 2 && h == a / 2 && And(h, h) == h
    ensures And(a, a) == a
  {
    BitSquare(d, d * d);
    assert And(a, a) == d * d + 2 * And(h, h);
  }

  lemma BitSquare(d: nat, square: nat)
    requires d < 2 && square == d * d
    ensures square == d
  {
  }

  lemma {:induction false} AndSelf(a: nat)
    ensures And(a, a) == a
  {
    if a > 0 {
      AndSelf(a / 2);
      AndUnfold(a, a % 2, a / 2);
    }
  }

  lemma Digit(d: nat, q: nat)
    requires d < 2
    ensures (d + 2 * q) % 2 == d && (d + 2 * q) / 2 == q
  {
  }

  /** XOR adds the last binary digits modulo two and leaves the rest to the rest. */
  lemma XorUnfold(a: nat, b: nat)
    ensures Xor(a, b) % 2 == (a % 2 + b % 2) % 2 && Xor(a, b) / 2 == Xor(a / 2, b / 2)
  {
    if a > 0 && b > 0 {
      Digit((a % 2 + b % 2) % 2, Xor(a / 2, b / 2));
    }
  }

  lemma {:induction false} XorSelf(a: nat)
    ensures Xor(a, a) == 0
  {
    if a > 0 {
      XorSelf(a / 2);
    }
  }

  lemma DigitTwice(x: nat, y: nat)
    requires x < 2 && y < 2
    ensures ((x + y) % 2 + y) % 2 == x
  {
  }

  /** XOR with the same number twice changes nothing. */
  lemma {:induction false} XorTwice(a: nat, b: nat)
    ensures Xor(Xor(a, b), b) == a
  {
    if a == 0 {
      XorSelf(b);
    } else if b > 0 {
      var r := Xor(a, b);
      XorUnfold(a, b);
      XorUnfold(r, b);
      XorTwice(a / 2, b / 2);
      DigitTwice(a % 2, b % 2);
    }
  }

  /** XOR does not leave the range of its operands. */
  lemma {:induction false} XorBounded(a: nat, b: nat, k: nat)
    requires a < Pow2(k) && b < Pow2(k)
    ensures Xor(a, b) < Pow2(k)
  {
    if k > 0 {
      XorUnfold(a, b);
      XorBounded(a / 2, b / 2, k - 1);
    }
  }

  lemma HalfOfEven(m: nat)
    requires m > 0
    ensures (2 * m) / 2 == m && (2 * m) % 2 == 0 && (2 * m - 1) / 2 == m - 1 && (2 * m - 1) % 2 == 1
  {
  }

  lemma OddHasMore(c: nat)
    requires c > 1 && c % 2 == 1
    ensures And(c, c - 1) > 0
  {
    assert (c - 1) / 2 == c / 2;
    AndSelf(c / 2);
  }

  /** A word with `c & (c - 1) == 0` is zero or a power of two. */
  lemma {:induction false} SingleBit(c: nat) returns (k: nat)
    requires c > 0 && And(c, c - 1) == 0
    ensures c == Pow2(k)
  {
    if c == 1 {
      k := 0;
    } else {
      var m := c / 2;
      if c % 2 == 1 {
        OddHasMore(c);
      }
      HalfOfEven(m);
      k := SingleBit(m);
      k := k + 1;
    }
  }

  lemma HalfAndRest(t: nat, m: nat)
    requires m > 0
    ensures t % (2 * m) == t % 2 + 2 * (t / 2 % m)
  {
    var q, r := t / 2 / m, t / 2 % m;
    assert t / 2 == q * m + r;
    assert t == 2 * (q * m + r) + t % 2;
    assert t == q * (2 * m) + (2 * r + t % 2);
    Remainder(t, 2 * m, q, 2 * r + t % 2);
  }

  lemma {:induction false} MultipleIsLarge(e: nat, c: nat)
    requires e > 0
    ensures e * c >= c
  {
    if e > 1 {
      MultipleIsLarge(e - 1, c);
      assert e * c == (e - 1) * c + c;
    }
  }

  lemma Remainder(t: nat, c: nat, q: int, r: nat)
    requires c > 0 && r < c && t == q * c + r
    ensures t % c == r
  {
    var d := t / c - q;
    assert t == (t / c) * c + t % c;
    assert d * c == r - t % c;
    if d > 0 {
      MultipleIsLarge(d, c);
    } else if d < 0 {
      assert (-d) * c == -(d * c);
      MultipleIsLarge(-d, c);
    }
  }

  /** Masking with a power of two less one is the remainder. */
  lemma {:induction false} MaskIsRemainder(t: nat, k: nat)
    ensures And(t, Pow2(k) - 1) == t % Pow2(k)
  {
    if k > 0 {
      var m := Pow2(k - 1);
      HalfOfEven(m);
      MaskIsRemainder(t / 2, k - 1);
      HalfAndRest(t, m);
    }
  }

  lemma DoubleProduct(a: nat, b: nat)
    ensures 2 * (a * b) == (2 * a) * b
  {
  }

  lemma {:induction false} Pow2Sum(j: nat, k: nat)
    ensures Pow2(j + k) == Pow2(j) * Pow2(k)
  {
    if j > 0 {
      Pow2Sum(j - 1, k);
      DoubleProduct(Pow2(j - 1), Pow2(k));
    }
  }

  lemma Pow2Square(j: nat, p: nat, k: nat)
    requires Pow2(j) == p && k == j + j
    ensures Pow2(k) == p * p
  {
    Pow2Sum(j, j);
  }

  lemma Pow2Of64()
    ensures Pow2(64) == WORD_RANGE
  {
    assert Pow2(4) == 16;
    Pow2Square(4, 16, 8);
    Pow2Square(8, 0x100, 16);
    Pow2Square(16, 0x1_0000, 32);
    Pow2Square(32, 0x1_0000_0000, 64);
  }

  lemma Pow2Of16()
    ensures Pow2(16) == 0x1_0000
  {
    assert Pow2(4) == 16;
    Pow2Square(4, 16, 8);
    Pow2Square(8, 0x100, 16);
  }

  lemma RemainderOfMultiple(t: nat, c: nat, m: nat)
    requires c > 0 && m > 0 && m * c > 0
    ensures t % (m * c) % c == t % c
  {
    var q, r := t / (m * c), t % (m * c);
    assert t == q * (m * c) + r;
    assert r == (r / c) * c + r % c;
    assert q * (m * c) == (q * m) * c;
    assert (q * m + r / c) * c == (q * m) * c + (r / c) * c;
    Remainder(t, c, q * m + r / c, r % c);
  }

  lemma {:induction false} Pow2Grows(j: nat, k: nat)
    requires Pow2(j) < Pow2(k)
    ensures j < k
  {
    if j >= k {
      Pow2Sum(j - k, k);
      MultipleIsLarge(Pow2(j - k), Pow2(k));
    }
  }

  /** A power of two that fits a word divides the range of a word, so wrapping does not disturb the remainder. */
  lemma WrapKeepsRemainder(t: nat, k: nat)
    requires Pow2(k) < WORD_RANGE
    ensures t % WORD_RANGE % Pow2(k) == t % Pow2(k)
  {
    Pow2Of64();
    DividesHigherPower(t, k, 64);
  }

  lemma DividesHigherPower(t: nat, k: nat, n: nat)
    requires Pow2(k) < Pow2(n)
    ensures t % Pow2(n) % Pow2(k) == t % Pow2(k)
  {
    Pow2Grows(k, n);
    Pow2Sum(n - k, k);
    RemainderOfMultiple(t, Pow2(k), Pow2(n - k));
  }

  /** Unsigned subtraction of two wrapped counters is the difference of the counts, as long as that is below 2^64. */
  lemma WrappedDifference(a: nat, b: nat)
    requires b <= a < b + WORD_RANGE
    ensures Minus(a % WORD_RANGE, b % WORD_RANGE) == a - b
  {
    var qa, qb := a / WORD_RANGE, b / WORD_RANGE;
    assert a % WORD_RANGE - b % WORD_RANGE == (a - b) - (qa - qb) * WORD_RANGE;
  }
}
