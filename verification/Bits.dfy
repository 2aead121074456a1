/** Bitwise conjunction of numbers, and what a mask selects. */
module Bits {

  /** Bitwise and. */
  function And(a: nat, b: nat): nat {
    if a == 0 || b == 0 then 0 else 2 * And(a / 2, b / 2) + (if a % 2 == 1 && b % 2 == 1 then 1 else 0)
  }

  function Half(a: nat, k: nat): nat
    decreases k
  {
    if k == 0 then a else Half(a / 2, k - 1)
  }

  /** b followed by k zeros. */
  function Double(b: nat, k: nat): nat
    decreases k
  {
    if k == 0 then b else 2 * Double(b, k - 1)
  }

  /** b followed by k ones. */
  function Ones(b: nat, k: nat): nat
    decreases k
  {
    if k == 0 then b else 2 * Ones(b, k - 1) + 1
  }

  /** The last k bits are zero. */
  predicate LowZero(a: nat, k: nat)
    decreases k
  {
    k == 0 || (a % 2 == 0 && LowZero(a / 2, k - 1))
  }

  lemma {:induction false} AndZeros(a: nat, b: nat, k: nat)
    ensures And(a, Double(b, k)) == Double(And(Half(a, k), b), k)
    decreases k
  {
    if k > 0 {
      AndZeros(a / 2, b, k - 1);
      AndEven(a, Double(b, k - 1));
    }
  }

  lemma {:induction false} AndEven(a: nat, b: nat)
    ensures And(a, 2 * b) == 2 * And(a / 2, b)
  {
  }

  lemma {:induction false} AndOdd(a: nat, b: nat)
    ensures And(a, 2 * b + 1) == 2 * And(a / 2, b) + a % 2
  {
  }

  lemma {:induction false} AndOnes(a: nat, b: nat, c: nat, k: nat)
    ensures And(a, Ones(b, k)) == Double(c, k) <==> LowZero(a, k) && And(Half(a, k), b) == c
    decreases k
  {
    if k > 0 {
      AndOnes(a / 2, b, c, k - 1);
      AndOdd(a, Ones(b, k - 1));
    }
  }

  lemma {:induction false} Eleven(a: nat)
    ensures Half(a, 11) == a / 0x800 && (LowZero(a, 11) <==> a % 0x800 == 0)
  {
  }

  lemma {:induction false} ElevenUp(a: nat)
    ensures Double(a, 11) == 0x800 * a && Ones(a, 11) == 0x800 * a + 0x7FF
  {
  }

  lemma {:induction false} Six(a: nat)
    ensures Half(a, 6) == a / 0x40 && Double(a, 6) == 0x40 * a
  {
  }

  /** The mask 0x2FFE0000 selects bit 29 and bits 17 to 27. */
  lemma {:induction false} MaskMeans(w: nat)
    ensures And(w, 0x2FFE_0000) == 0x2000_0000 <==> w / 0x2000_0000 % 2 == 1 && w / 0x2_0000 % 0x800 == 0
  {
    hide And, Half, Double, Ones, LowZero;
    var u := w / 0x800;
    var v := u / 0x40;
    Eleven(w);
    Six(u);
    ElevenUp(2);
    Six(0x17FF);
    ElevenUp(0x5FFC0);
    AndZeros(w, 0x5FFC0, 11);
    AndZeros(u, 0x17FF, 6);
    ElevenUp(And(u, 0x5FFC0));
    Six(And(v, 0x17FF));
    AndOnes(v, 2, 2, 11);
    Eleven(v);
    LastBits(v / 0x800);
  }

  lemma {:induction false} LastBits(a: nat)
    ensures And(a, 2) == 2 <==> a / 2 % 2 == 1
  {
    AndEven(a, 1);
    AndOdd(a / 2, 0);
  }
}
