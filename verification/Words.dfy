/**
 * Unsigned 32-bit words and their bits, and the size of a page. Words are naturals, so that the same values serve as
 * bitmap words, page-table entries, addresses and heap header fields. The C operators that the
 * kernel applies to them are written by their value: `w | (1 << j)` adds 2^j when the bit is
 * clear, `x & 0xFFFFF000` removes the remainder modulo 4096.
 */
module Words {

  const WORD_LIMIT := 0x1_0000_0000

  const PAGE_SIZE := 4096

  type Word = x: nat | x < WORD_LIMIT

  predicate Within(low: nat, x: nat, high: nat) {
    low <= x < high
  }

  function Pow2(j: nat): (p: nat)
    ensures p > 0
  {
    if j == 0 then 1 else 2 * Pow2(j - 1)
  }

  /** GET_BIT: whether `w & (1 << j)` is non-zero. */
  predicate Bit(w: nat, j: nat) {
    if j == 0 then w % 2 == 1 else Bit(w / 2, j - 1)
  }

  /** SET_BIT: the value of `w | (1 << j)`. */
  function WithBit(w: nat, j: nat): nat {
    if Bit(w, j) then w else w + Pow2(j)
  }

  /** CLEAR_BIT: the value of `w & ~(1 << j)`. */
  function WithoutBit(w: nat, j: nat): nat {
    BitWeight(w, j);
    if Bit(w, j) then w - Pow2(j) else w
  }

  /** Bit j counts 2^j. */
  lemma {:induction false} BitIsDigit(w: nat, j: nat)
    ensures Bit(w, j) <==> w / Pow2(j) % 2 == 1
  {
    if j > 0 {
      BitIsDigit(w / 2, j - 1);
      HalvesDivide(w, Pow2(j - 1));
    }
  }

  lemma HalvesDivide(w: nat, p: nat)
    requires p > 0
    ensures w / 2 / p == w / (2 * p)
  {
    var q, r := w / 2 / p, w / 2 % p;
    assert w / 2 == q * p + r;
    assert w == q * (2 * p) + (2 * r + w % 2);
    Quotient(w, 2 * p, q, 2 * r + w % 2);
  }

  lemma Quotient(w: nat, d: nat, q: nat, r: nat)
    requires w == q * d + r && r < d
    ensures w / d == q
  {
    NoSmaller(w / d, w % d, q, r, d);
    NoSmaller(q, r, w / d, w % d, d);
  }

  lemma NoSmaller(k: nat, s: nat, q: nat, r: nat, d: nat)
    requires k * d + s == q * d + r && s < d && r < d
    ensures k >= q
  {
    if k < q {
      ProductGrows(k + 1, q, d);
    }
  }

  lemma {:induction false} ProductGrows(a: nat, b: nat, d: nat)
    requires a <= b
    ensures a * d <= b * d
    decreases b - a
  {
    if a < b {
      ProductGrows(a, b - 1, d);
    }
  }

  lemma {:induction false} BitWeight(w: nat, j: nat)
    ensures Bit(w, j) ==> Pow2(j) <= w
  {
    if j > 0 {
      BitWeight(w / 2, j - 1);
    }
  }

  /** A clear bit below n leaves room for its weight below 2^n. */
  lemma {:induction false} ClearBitFits(w: nat, j: nat, n: nat)
    requires j < n && w < Pow2(n) && !Bit(w, j)
    ensures w + Pow2(j) < Pow2(n)
  {
    var p := Pow2(n - 1);
    assert Pow2(n) == 2 * p;
    if j > 0 {
      var q := Pow2(j - 1);
      assert Pow2(j) == 2 * q && w / 2 < p;
      ClearBitFits(w / 2, j - 1, n - 1);
      assert w / 2 + q < p;
    }
  }

  /** Setting bit j changes what Bit says of j and of nothing else. */
  lemma {:induction false} BitOfWithBit(w: nat, j: nat, k: nat)
    ensures Bit(WithBit(w, j), k) == (k == j || Bit(w, k))
  {
    if !Bit(w, j) && j > 0 {
      assert (w + Pow2(j)) / 2 == w / 2 + Pow2(j - 1);
      if k > 0 {
        BitOfWithBit(w / 2, j - 1, k - 1);
      }
    } else if !Bit(w, j) && k > 0 {
      assert (w + 1) / 2 == w / 2;
    }
  }

  /** Clearing bit j changes what Bit says of j and of nothing else. */
  lemma {:induction false} BitOfWithoutBit(w: nat, j: nat, k: nat)
    ensures Bit(WithoutBit(w, j), k) == (k != j && Bit(w, k))
  {
    BitWeight(w, j);
    if Bit(w, j) && j > 0 {
      assert (w - Pow2(j)) / 2 == w / 2 - Pow2(j - 1);
      if k > 0 {
        BitOfWithoutBit(w / 2, j - 1, k - 1);
      }
    } else if Bit(w, j) && k > 0 {
      assert (w - 1) / 2 == w / 2;
    }
  }

  /** 2^n - 1 has all of its n low bits set. */
  lemma {:induction false} AllOnes(n: nat, k: nat)
    requires k < n
    ensures Bit(Pow2(n) - 1, k)
  {
    if k > 0 {
      assert (Pow2(n) - 1) / 2 == Pow2(n - 1) - 1;
      AllOnes(n - 1, k - 1);
    }
  }

  lemma Pow2Of32()
    ensures Pow2(32) == WORD_LIMIT
  {
    assert Pow2(8) == 0x100;
    assert Pow2(16) == 0x1_0000 by { assert Pow2(12) == 0x1000; }
    assert Pow2(24) == 0x100_0000 by { assert Pow2(20) == 0x10_0000; }
    assert Pow2(28) == 0x1000_0000;
  }
}
