/** Bitwise operators on unbounded naturals, and the facts that turn the mask-and-shift
    idiom of the page-table code into division and remainder. */
module Bits {

  function Pow2(k: nat): (p: nat)
    ensures p > 0
  {
    if k == 0 then 1 else 2 * Pow2(k - 1)
  }

  /** The C operator `<<`, without an upper limit on the width of the result. */
  function Shl(a: nat, k: nat): (r: nat) {
    if k == 0 then a else 2 * Shl(a, k - 1)
  }

  /** The C operator `>>` on an unsigned operand. */
  function Shr(a: nat, k: nat): (r: nat) {
    if k == 0 then a else Shr(a / 2, k - 1)
  }

  /** The C operator `|`. */
  function Or(a: nat, b: nat): (r: nat)
    decreases a + b
  {
    if a == 0 then b
    else if b == 0 then a
    else 2 * Or(a / 2, b / 2) + (if a % 2 == 1 || b % 2 == 1 then 1 else 0)
  }

  /** The C operator `&`. */
  function And(a: nat, b: nat): (r: nat)
    decreases a + b
  {
    if a == 0 || b == 0 then 0
    else 2 * And(a / 2, b / 2) + (if a % 2 == 1 && b % 2 == 1 then 1 else 0)
  }

  lemma OrStep(a: nat, b: nat)
    ensures Or(a, b) == 2 * Or(a / 2, b / 2) + (if a % 2 == 1 || b % 2 == 1 then 1 else 0)
  {
  }

  lemma AndStep(a: nat, b: nat)
    ensures And(a, b) == 2 * And(a / 2, b / 2) + (if a % 2 == 1 && b % 2 == 1 then 1 else 0)
  {
  }

  lemma OrHalf(a: nat, b: nat)
    ensures Or(a, b) / 2 == Or(a / 2, b / 2)
    ensures Or(a, b) % 2 == 1 <==> a % 2 == 1 || b % 2 == 1
  {
    OrStep(a, b);
  }

  lemma AndHalf(a: nat, b: nat)
    ensures And(a, b) / 2 == And(a / 2, b / 2)
    ensures And(a, b) % 2 == 1 <==> a % 2 == 1 && b % 2 == 1
  {
    AndStep(a, b);
  }

  /** Two numbers are equal when their halves and their lowest bits are. */
  lemma SameBits(a: nat, b: nat)
    requires a / 2 == b / 2 && (a % 2 == 1 <==> b % 2 == 1)
    ensures a == b
  {
  }

  /** `|` works on the high and the low part of a word separately. */
  lemma {:induction false} OrSplit(a: nat, b: nat, x: nat, y: nat, k: nat)
    requires x < Pow2(k) && y < Pow2(k)
    ensures Or(x, y) < Pow2(k)
    ensures Or(Shl(a, k) + x, Shl(b, k) + y) == Shl(Or(a, b), k) + Or(x, y)
    decreases k
  {
    if k == 0 {
    } else {
      hide Or;
      OrSplit(a, b, x / 2, y / 2, k - 1);
      OrStep(Shl(a, k) + x, Shl(b, k) + y);
      OrStep(x, y);
      assert (Shl(a, k) + x) / 2 == Shl(a, k - 1) + x / 2;
      assert (Shl(b, k) + y) / 2 == Shl(b, k - 1) + y / 2;
    }
  }

  /** `&` works on the high and the low part of a word separately. */
  lemma {:induction false} AndSplit(a: nat, b: nat, x: nat, y: nat, k: nat)
    requires x < Pow2(k) && y < Pow2(k)
    ensures And(Shl(a, k) + x, Shl(b, k) + y) == Shl(And(a, b), k) + And(x, y)
    decreases k
  {
    if k == 0 {
    } else {
      hide And;
      AndSplit(a, b, x / 2, y / 2, k - 1);
      AndStep(Shl(a, k) + x, Shl(b, k) + y);
      AndStep(x, y);
      assert (Shl(a, k) + x) / 2 == Shl(a, k - 1) + x / 2;
      assert (Shl(b, k) + y) / 2 == Shl(b, k - 1) + y / 2;
    }
  }

  /** Shifting right and left again splits off the part below bit k. */
  lemma {:induction false} ShiftPair(a: nat, k: nat)
    ensures Shl(Shr(a, k), k) <= a < Shl(Shr(a, k), k) + Pow2(k)
    decreases k
  {
    if k > 0 {
      ShiftPair(a / 2, k - 1);
    }
  }

  /** Masking with k one bits keeps the part below bit k. */
  lemma {:induction false} AndLowMask(a: nat, k: nat)
    ensures And(a, Pow2(k) - 1) == a - Shl(Shr(a, k), k)
    decreases k
  {
    if k == 0 {
    } else {
      AndLowMask(a / 2, k - 1);
      AndStep(a, Pow2(k) - 1);
      assert (Pow2(k) - 1) / 2 == Pow2(k - 1) - 1;
    }
  }

  /** Masking with m one bits above k zero bits selects the field at bits k .. k + m. */
  lemma AndFieldMask(a: nat, k: nat, m: nat)
    ensures And(a, Shl(Pow2(m) - 1, k)) == Shl(And(Shr(a, k), Pow2(m) - 1), k)
  {
    ShiftPair(a, k);
    AndSplit(Shr(a, k), Pow2(m) - 1, a - Shl(Shr(a, k), k), 0, k);
  }

  /** Or-ing a small value into zero bits adds it. */
  lemma OrDisjoint(a: nat, x: nat, k: nat)
    requires x < Pow2(k)
    ensures Or(Shl(a, k), x) == Shl(a, k) + x
  {
    OrSplit(a, 0, 0, x, k);
    ShlZero(k);
  }

  lemma AndZero(a: nat)
    ensures And(a, 0) == 0 && And(0, a) == 0
  {
  }

  lemma {:induction false} ShlZero(k: nat)
    ensures Shl(0, k) == 0
  {
    if k > 0 {
      ShlZero(k - 1);
    }
  }

  lemma {:induction false} OrCommutes(a: nat, b: nat)
    ensures Or(a, b) == Or(b, a)
    decreases a + b
  {
    if a == 0 || b == 0 {
    } else {
      OrCommutes(a / 2, b / 2);
    }
  }

  lemma {:induction false} OrAssociates(a: nat, b: nat, c: nat)
    ensures Or(Or(a, b), c) == Or(a, Or(b, c))
    decreases a + b + c
  {
    if a + b + c > 0 {
      hide Or;
      OrAssociates(a / 2, b / 2, c / 2);
      OrHalf(a, b);
      OrHalf(b, c);
      OrHalf(Or(a, b), c);
      OrHalf(a, Or(b, c));
      SameBits(Or(Or(a, b), c), Or(a, Or(b, c)));
    }
  }

  // ---- The shift amounts the kernel uses, as arithmetic ----

  lemma Shift12(a: nat)
    ensures Shl(a, 12) == 4096 * a && Shr(a, 12) == a / 4096 && Pow2(12) == 4096
  {
    hide Shl, Shr, Pow2;
    Shift4(a); Shift4(Shl(a, 4)); Shift4(Shl(a, 8));
    Shift4(a / 16); Shift4(a / 256);
    ShlAdd(a, 4, 4); ShlAdd(a, 8, 4);
    ShrAdd(a, 4, 4); ShrAdd(a, 8, 4);
    Pow2Add(4, 4); Pow2Add(8, 4);
    Shift4(16); Shift4(256);
  }

  lemma Shift9(a: nat)
    ensures Shl(a, 9) == 512 * a && Shr(a, 9) == a / 512 && Pow2(9) == 512
  {
    Shift4(a); Shift4(Shl(a, 4)); Shift4(a / 16);
    ShlAdd(a, 4, 4); ShlAdd(a, 8, 1);
    ShrAdd(a, 4, 4); ShrAdd(a, 8, 1);
    Pow2Add(4, 4); Pow2Add(8, 1);
    assert Shl(Shl(a, 8), 1) == 2 * Shl(a, 8);
    assert Shr(Shr(a, 8), 1) == Shr(a, 8) / 2;
  }

  lemma Shift4(a: nat)
    ensures Shl(a, 4) == 16 * a && Shr(a, 4) == a / 16 && Pow2(4) == 16
  {
    assert Shl(a, 1) == 2 * a;
    assert Shl(a, 2) == 4 * a;
    assert Shl(a, 3) == 8 * a;
    assert Shr(a, 4) == Shr(a / 2, 3) == Shr(a / 2 / 2, 2) == Shr(a / 2 / 2 / 2, 1) == a / 2 / 2 / 2 / 2;
    assert Pow2(2) == 4 && Pow2(3) == 8;
  }

  lemma {:induction false} ShlAdd(a: nat, j: nat, k: nat)
    ensures Shl(Shl(a, j), k) == Shl(a, j + k)
  {
    if k > 0 {
      ShlAdd(a, j, k - 1);
    }
  }

  lemma {:induction false} ShrAdd(a: nat, j: nat, k: nat)
    ensures Shr(Shr(a, j), k) == Shr(a, j + k)
    decreases j
  {
    if j > 0 {
      ShrAdd(a / 2, j - 1, k);
    }
  }

  lemma {:induction false} Pow2Add(j: nat, k: nat)
    ensures Pow2(j + k) == Shl(Pow2(j), k)
    decreases k
  {
    if k > 0 {
      Pow2Add(j, k - 1);
    }
  }
}
