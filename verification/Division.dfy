/** Division of unsigned numbers by a number that is not a constant. `Div` and `Mod` are `/` and `%`
    (DivIsDivision); defining them by repeated subtraction keeps proofs about them linear. */
module Division {

  function Div(x: nat, m: nat): nat
    requires m > 0
  {
    if x < m then 0 else 1 + Div(x - m, m)
  }

  function Mod(x: nat, m: nat): (r: nat)
    requires m > 0
    ensures r < m
  {
    if x < m then x else Mod(x - m, m)
  }

  lemma {:induction false} DivMod(x: nat, m: nat)
    requires m > 0
    ensures x == Div(x, m) * m + Mod(x, m)
  {
    if x >= m {
      DivMod(x - m, m);
      assert (1 + Div(x - m, m)) * m == m + Div(x - m, m) * m;
    }
  }

  lemma {:induction false} DivModUnique(q: nat, m: nat, r: nat)
    requires r < m
    ensures q * m + r >= 0 && Div(q * m + r, m) == q && Mod(q * m + r, m) == r
  {
    if q > 0 {
      DivModUnique(q - 1, m, r);
      assert q * m + r == m + ((q - 1) * m + r);
      assert (q - 1) * m >= 0;
    }
  }

  lemma DivIsDivision(x: nat, m: nat)
    requires m > 0
    ensures Div(x, m) == x / m && Mod(x, m) == x % m
  {
    var (q, r) := (x / m, x % m);
    assert x == q * m + r;
    DivModUnique(q, m, r);
  }

  lemma {:induction false} DivMonotone(x: nat, y: nat, m: nat)
    requires m > 0 && x <= y
    ensures Div(x, m) <= Div(y, m)
  {
    if m <= x { DivMonotone(x - m, y - m, m); }
  }

  /** x lies before q * m exactly when its quotient is below q. */
  lemma DivBelow(x: nat, m: nat, q: nat)
    requires m > 0
    ensures Div(x, m) < q <==> x < q * m
  {
    DivMod(x, m);
    var p := Div(x, m);
    if p < q { MulLe(p + 1, q, m); } else { MulLe(q, p, m); }
  }

  /** Same quotient and same remainder means same number. */
  lemma DivModInjective(x: nat, y: nat, m: nat)
    requires m > 0 && Div(x, m) == Div(y, m) && Mod(x, m) == Mod(y, m)
    ensures x == y
  {
    DivMod(x, m);
    DivMod(y, m);
  }

  lemma MulLe(a: nat, b: nat, k: nat)
    requires a <= b
    ensures 0 <= a * k <= b * k
  {
  }

  lemma Distribute(q: nat, m: nat, r: nat, k: nat)
    ensures (q * m + r) * k == q * (m * k) + r * k
  {
    assert (q * m + r) * k == (q * m) * k + r * k;
    assert (q * m) * k == q * (m * k);
  }

  /** Scaling by k scales the remainder and keeps the quotient. */
  lemma MulMod(s: nat, m: nat, k: nat)
    requires m > 0 && k > 0
    ensures m * k > 0 && s * k >= 0
    ensures Mod(s * k, m * k) == Mod(s, m) * k && Div(s * k, m * k) == Div(s, m)
  {
    DivMod(s, m);
    var q, r := Div(s, m), Mod(s, m);
    MulLe(1, m, k);
    MulLe(r + 1, m, k);
    MulLe(0, s, k);
    Distribute(q, m, r, k);
    DivModUnique(q, m * k, r * k);
  }

  /** BLOCKS_REQUIRED(a, b). */
  function BlocksRequired(bytes: nat, size: nat): nat
    requires size > 0
  {
    Div(bytes, size) + if Mod(bytes, size) != 0 then 1 else 0
  }

  /** Byte k of n bytes lies in one of the required blocks, and no fewer blocks would do. */
  lemma RequiredCovers(bytes: nat, size: nat, k: nat)
    requires size > 0
    ensures k < BlocksRequired(bytes, size) <==> k * size < bytes
  {
    DivMod(bytes, size);
    var q := Div(bytes, size);
    if k < q { MulLe(k + 1, q, size); }
    if k > q { MulLe(q + 1, k, size); }
  }

  /** Records of a size that divides the block size do not straddle blocks. */
  lemma RecordFits(s: nat, size: nat, block: nat)
    requires block > 0 && size > 0 && Mod(block, size) == 0
    ensures s * size >= 0 && Mod(s * size, block) + size <= block
  {
    var m := Div(block, size);
    DivMod(block, size);
    assert m > 0;
    MulMod(s, m, size);
    MulLe(Mod(s, m) + 1, m, size);
    assert (Mod(s, m) + 1) * size == Mod(s, m) * size + size;
  }

  /** Record s of count starts in one of the blocks the whole table takes. */
  lemma RecordInTable(s: nat, count: nat, size: nat, block: nat)
    requires block > 0 && size > 0 && s < count
    ensures s * size >= 0 && count * size >= 0
    ensures Div(s * size, block) < BlocksRequired(count * size, block)
  {
    MulLe(s + 1, count, size);
    MulLe(0, s, size);
    assert (s + 1) * size == s * size + size;
    DivMod(s * size, block);
    RequiredCovers(count * size, block, Div(s * size, block));
  }

  /** Two different records in the same block do not overlap. */
  lemma RecordsApart(s: nat, s': nat, size: nat, block: nat)
    requires block > 0 && size > 0 && s < s'
    ensures s * size >= 0 && s' * size >= 0
    ensures Div(s * size, block) == Div(s' * size, block) ==> Mod(s * size, block) + size <= Mod(s' * size, block)
  {
    MulLe(s + 1, s', size);
    MulLe(0, s, size);
    assert (s + 1) * size == s * size + size;
    DivMod(s * size, block);
    DivMod(s' * size, block);
  }

  /** Positions up to the end of a block share its number. */
  lemma SameBlock(x: nat, m: nat, t: nat)
    requires m > 0 && Mod(x, m) + t < m
    ensures Div(x + t, m) == Div(x, m) && Mod(x + t, m) == Mod(x, m) + t
  {
    DivMod(x, m);
    DivModUnique(Div(x, m), m, Mod(x, m) + t);
  }

  /** The position after the end of a block is the start of the next. */
  lemma NextBlock(x: nat, m: nat)
    requires m > 0
    ensures Div(x + (m - Mod(x, m)), m) == Div(x, m) + 1 && Mod(x + (m - Mod(x, m)), m) == 0
  {
    DivMod(x, m);
    var q := Div(x, m);
    assert (q + 1) * m == q * m + m;
    DivModUnique(q + 1, m, 0);
  }

  lemma RequiredMonotone(x: nat, y: nat, size: nat)
    requires size > 0 && x <= y
    ensures BlocksRequired(x, size) <= BlocksRequired(y, size)
  {
    var k := BlocksRequired(y, size);
    RequiredCovers(x, size, k);
    RequiredCovers(y, size, k);
  }
}
