/** `align_ptr` of pool.h: a bit mask on machine words. */
module Alignment {
  import opened Machine

  const ALIGNMENT: nat := 8

  /** Bitwise `&` of two words. */
  function And(x: nat, y: nat): nat
    decreases x
  {
    if x == 0 || y == 0 then 0 else (if x % 2 == 1 && y % 2 == 1 then 1 else 0) + 2 * And(x / 2, y / 2)
  }

  /** Bitwise `~` of a 64-bit word. */
  function Not(x: nat): nat
    requires x < WORD_LIMIT
  {
    WORD_LIMIT - 1 - x
  }

  /** The macro as written; the addition is unsigned and wraps. */
  function AlignPtr(p: nat): nat {
    And((p + (ALIGNMENT - 1)) % WORD_LIMIT, Not(ALIGNMENT - 1))
  }

  /** The least multiple of eight not below `p`. */
  function Align(p: nat): (r: nat)
    ensures p <= r < p + ALIGNMENT && r % ALIGNMENT == 0
  {
    (p + 7) / 8 * 8
  }

  lemma AlignMultiple(p: nat)
    requires p % ALIGNMENT == 0
    ensures Align(p) == p
  {
  }

  function Pow2(k: nat): (r: nat)
    ensures r > 0
  {
    if k == 0 then 1 else 2 * Pow2(k - 1)
  }

  lemma {:induction false} AndOnes(x: nat, k: nat)
    requires x < Pow2(k)
    ensures And(x, Pow2(k) - 1) == x
  {
    if k > 0 && x > 0 {
      assert (Pow2(k) - 1) / 2 == Pow2(k - 1) - 1;
      AndOnes(x / 2, k - 1);
    }
  }

  lemma AndShift(x: nat, y: nat)
    ensures And(x, 2 * y) == 2 * And(x / 2, y)
  {
    if x == 0 || y == 0 {
    } else {
      assert (2 * y) / 2 == y && (2 * y) % 2 == 0;
    }
  }

  lemma HighMask()
    ensures Pow2(61) * 8 == WORD_LIMIT
  {
    assert Pow2(10) == 1024 && Pow2(1) == 2;
    hide Pow2;
    Pow2Add(10, 10); Pow2Add(20, 20); Pow2Add(40, 20); Pow2Add(60, 1);
  }

  lemma {:induction false} Pow2Add(a: nat, b: nat)
    ensures Pow2(a + b) == Pow2(a) * Pow2(b)
  {
    if b == 0 {
    } else {
      Pow2Add(a, b - 1);
      Regroup(Pow2(a), Pow2(b - 1));
      assert Pow2(a + b) == 2 * Pow2(a + (b - 1));
    }
  }

  lemma Regroup(x: nat, y: nat)
    ensures 2 * (x * y) == x * (2 * y)
  {
  }

  lemma MaskRoundsDown(x: nat, mask: nat)
    requires x < WORD_LIMIT && mask == 8 * (Pow2(61) - 1)
    ensures And(x, mask) == x / 8 * 8
  {
    hide And, Pow2;
    var m := Pow2(61) - 1;
    HighMask();
    AndShift(x, 2 * (2 * m));
    AndShift(x / 2, 2 * m);
    AndShift(x / 2 / 2, m);
    assert x / 2 / 2 / 2 == x / 8;
    AndOnes(x / 8, 61);
  }

  /** For every address whose rounding fits a word, the mask rounds up to the next multiple of eight. */
  lemma AlignPtrRoundsUp(p: nat)
    requires p + ALIGNMENT <= WORD_LIMIT
    ensures AlignPtr(p) == Align(p)
  {
    hide And, Pow2;
    HighMask();
    MaskRoundsDown(p + 7, Not(ALIGNMENT - 1));
  }
}
