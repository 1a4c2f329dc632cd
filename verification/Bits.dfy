/** Single bits of an unsigned word, as the kernel's bitmaps use them: `w & (1 << c)`,
    `w |= (1 << c)` and `w &= ~(1 << c)`. */
module Bits {

  /** `w & (1 << c)` is non-zero. */
  predicate Bit(w: nat, c: nat)
    decreases c
  {
    if c == 0 then w % 2 == 1 else Bit(w / 2, c - 1)
  }

  /** `w | (1 << c)`. */
  function SetBit(w: nat, c: nat): nat
    decreases c
  {
    if c == 0 then w / 2 * 2 + 1 else w % 2 + 2 * SetBit(w / 2, c - 1)
  }

  /** `w & ~(1 << c)`. */
  function ClearBit(w: nat, c: nat): nat
    decreases c
  {
    if c == 0 then w / 2 * 2 else w % 2 + 2 * ClearBit(w / 2, c - 1)
  }

  /** The word of `n` one bits: 0xFF, 0xFFFFFFFF, ... */
  function Ones(n: nat): nat {
    if n == 0 then 0 else 1 + 2 * Ones(n - 1)
  }

  function Pow2(n: nat): (p: nat)
    ensures p > 0
  {
    if n == 0 then 1 else 2 * Pow2(n - 1)
  }

  /** A bit by its value; setting and clearing it add and take away that value. */
  lemma {:induction false} BitValue(w: nat, c: nat)
    ensures Bit(w, c) <==> w / Pow2(c) % 2 == 1
    ensures SetBit(w, c) == (if Bit(w, c) then w else w + Pow2(c))
    ensures ClearBit(w, c) == (if Bit(w, c) then w - Pow2(c) else w)
    decreases c
  {
    if c > 0 {
      BitValue(w / 2, c - 1);
      HalfThenRest(w, Pow2(c - 1));
    }
  }

  lemma HalfThenRest(w: nat, p: nat)
    requires p > 0
    ensures w / (2 * p) == w / 2 / p
  {
    var h := w / 2;
    var q, r := h / p, h % p;
    assert h == q * p + r;
    assert w == q * (2 * p) + (2 * r + w % 2);
    assert 2 * r + w % 2 < 2 * p;
    QuotientIs(w, 2 * p, q, 2 * r + w % 2);
  }

  lemma QuotientIs(w: nat, m: nat, q: nat, r: nat)
    requires m > 0 && w == q * m + r && r < m
    ensures w / m == q
  {
    var d := w / m;
    assert w == d * m + w % m;
    assert d < q ==> (d + 1) * m <= q * m;
    assert d > q ==> (q + 1) * m <= d * m;
  }

  lemma {:induction false} SetBitAt(w: nat, a: nat, b: nat)
    ensures Bit(SetBit(w, a), b) == (a == b || Bit(w, b))
    decreases a
  {
    if a != 0 && b != 0 { SetBitAt(w / 2, a - 1, b - 1); }
  }

  lemma {:induction false} ClearBitAt(w: nat, a: nat, b: nat)
    ensures Bit(ClearBit(w, a), b) == (a != b && Bit(w, b))
    decreases a
  {
    if a != 0 && b != 0 { ClearBitAt(w / 2, a - 1, b - 1); }
  }

  /** Bit c of word a of a bitmap. */
  predicate BitIn(words: seq<nat>, a: nat, c: nat) {
    a < |words| && Bit(words[a], c)
  }

  lemma SetBitIn(words: seq<nat>, a: nat, c: nat, b: nat, d: nat)
    requires a < |words|
    ensures BitIn(words[a := SetBit(words[a], c)], b, d) == (BitIn(words, b, d) || (a == b && c == d))
  {
    hide Bit, SetBit;
    if a == b { SetBitAt(words[a], c, d); }
  }

  lemma ClearBitIn(words: seq<nat>, a: nat, c: nat, b: nat, d: nat)
    requires a < |words|
    ensures BitIn(words[a := ClearBit(words[a], c)], b, d) == (BitIn(words, b, d) && !(a == b && c == d))
  {
    hide Bit, ClearBit;
    if a == b { ClearBitAt(words[a], c, d); }
  }

  lemma {:induction false} NoBit(c: nat)
    ensures !Bit(0, c)
    decreases c
  {
    if c > 0 { NoBit(c - 1); }
  }

  lemma BitSteps(w: nat, a: nat, n: nat)
    requires 0 < a < n
    ensures SetBit(w, a) == w % 2 + 2 * SetBit(w / 2, a - 1) && ClearBit(w, a) == w % 2 + 2 * ClearBit(w / 2, a - 1)
    ensures Ones(n) == 1 + 2 * Ones(n - 1)
  {
  }

  /** Setting or clearing one of the low `n` bits keeps the word in `n` bits. */
  lemma {:induction false} BitFits(w: nat, a: nat, n: nat)
    requires a < n && w <= Ones(n)
    ensures SetBit(w, a) <= Ones(n) && ClearBit(w, a) <= Ones(n)
    decreases a
  {
    if a == 0 {
      LowBitFits(w, n);
    } else {
      hide SetBit, ClearBit, Ones;
      BitSteps(w, a, n);
      BitFits(w / 2, a - 1, n - 1);
    }
  }

  lemma LowBitFits(w: nat, n: nat)
    requires 0 < n && w <= Ones(n)
    ensures SetBit(w, 0) <= Ones(n) && ClearBit(w, 0) <= Ones(n)
  {
    var o := Ones(n - 1);
    assert Ones(n) == 1 + 2 * o;
    assert SetBit(w, 0) == w / 2 * 2 + 1 && ClearBit(w, 0) == w / 2 * 2;
    hide *;
    assert w / 2 <= o;
  }

  /** Every bit of the all-ones word is set: skipping such a word skips nothing free. */
  lemma {:induction false} OnesBit(n: nat, c: nat)
    requires c < n
    ensures Bit(Ones(n), c)
    decreases n
  {
    assert Ones(n) / 2 == Ones(n - 1);
    if c != 0 { OnesBit(n - 1, c - 1); }
  }

  lemma OnesNibble(n: nat)
    ensures Ones(n + 4) == 16 * Ones(n) + 15
  {
    assert Ones(n + 3) == 1 + 2 * Ones(n + 2);
    assert Ones(n + 2) == 1 + 2 * Ones(n + 1);
  }

  lemma OnesNone()
    ensures Ones(0) == 0
  {
  }

  lemma OnesByte(n: nat)
    ensures Ones(n + 8) == 0x100 * Ones(n) + 0xFF
  {
    hide Ones;
    OnesNibble(n);
    OnesNibble(n + 4);
  }

  /** The words the kernel compares with to skip a full word. */
  lemma FullWords()
    ensures Ones(8) == 0xFF && Ones(32) == 0xFFFF_FFFF && Ones(64) == 0xFFFF_FFFF_FFFF_FFFF
  {
    hide Ones;
    OnesNone();
    OnesByte(0);
    OnesByte(8);
    OnesByte(16);
    OnesByte(24);
    OnesByte(32);
    OnesByte(40);
    OnesByte(48);
    OnesByte(56);
  }
}
