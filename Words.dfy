/** Fixed-width machine words as naturals: a w-bit word is a natural below
    2^w, its two's-complement reading is Signed, and Unsigned wraps an
    integer back into w bits (what a C++ cast to the unsigned type does). */
module Words {
  import opened Arith

  /** A w-bit word. */
  predicate IsWord(w: nat, x: int)
  {
    0 <= x < Pow2(w)
  }

  /** Wrap an integer into w bits. */
  function Unsigned(w: nat, s: int): (x: nat)
    ensures IsWord(w, x)
  {
    s % Pow2(w)
  }

  /** The two's-complement value of a w-bit word. */
  function Signed(w: nat, x: nat): (s: int)
    requires w >= 1 && IsWord(w, x)
    ensures 0 <= s + Pow2(w - 1) && s < Pow2(w - 1)
  {
    if x < Pow2(w - 1) then x else x - Pow2(w)
  }

  /** Whether the sign (top) bit of a w-bit word is set. */
  predicate Negative(w: nat, x: nat)
    requires w >= 1
  {
    x >= Pow2(w - 1)
  }

  /** x % m for 0 <= x < 2m: subtract m at most once. */
  lemma ModOnce(x: int, m: nat)
    requires m >= 1 && 0 <= x < 2 * m
    ensures x % m == if x < m then x else x - m
  {
    if x < m {
      DivModUnique(x, m, 0, x);
    } else {
      DivModUnique(x, m, 1, x - m);
    }
  }

  /** x % m for -m <= x < m: add m at most once. */
  lemma ModOnceNeg(x: int, m: nat)
    requires m >= 1 && 0 <= x + m && x < m
    ensures x % m == if x < 0 then x + m else x
  {
    if x < 0 {
      DivModUnique(x, m, -1, x + m);
    } else {
      DivModUnique(x, m, 0, x);
    }
  }

  /** Reading a word as signed and wrapping it back gives the word. */
  lemma UnsignedOfSigned(w: nat, x: nat)
    requires w >= 1 && IsWord(w, x)
    ensures Unsigned(w, Signed(w, x)) == x
  {
    var m := Pow2(w);
    if x < Pow2(w - 1) {
      DivModUnique(x, m, 0, x);
    } else {
      ModOnceNeg(x - m, m);
    }
  }

  /** Wrapping an in-range integer and reading it as signed gives it back. */
  lemma SignedOfUnsigned(w: nat, s: int)
    requires w >= 1 && 0 <= s + Pow2(w - 1) && s < Pow2(w - 1)
    ensures Signed(w, Unsigned(w, s)) == s
  {
    ModOnceNeg(s, Pow2(w));
  }

  /** 2^64 and 2^32 as numerals. */
  lemma Pow2Of32And64()
    ensures Pow2(32) == 0x1_0000_0000 && Pow2(64) == 0x1_0000_0000_0000_0000
    ensures Pow2(31) == 0x8000_0000 && Pow2(63) == 0x8000_0000_0000_0000
  {
    Pow2Of31();
    Pow2Add(31, 1);
    assert Pow2(1) == 2;
    Pow2Add(32, 31);
    Pow2Add(32, 32);
  }
}
