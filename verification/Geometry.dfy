/**
 Power-of-two address arithmetic of the NAND core: the shifts and masks that
 `nand_get_flash_type` computes, and the split of an offset into chip, page and column.
 */
module Geometry {

  /** 1 << k */
  function Pow2(k: nat): (p: nat)
    ensures p >= 1
  {
    if k == 0 then 1 else 2 * Pow2(k - 1)
  }

  /** n * k, by repeated addition */
  function Times(n: nat, k: nat): nat {
    if n == 0 then 0 else k + Times(n - 1, k)
  }

  lemma {:induction false} TimesIsProduct(n: nat, k: nat)
    ensures Times(n, k) == n * k
  {
    if n > 0 {
      TimesIsProduct(n - 1, k);
      assert n * k == (n - 1) * k + k;
    }
  }

  lemma {:induction false} TimesAdd(m: nat, n: nat, k: nat)
    ensures Times(m + n, k) == Times(m, k) + Times(n, k)
  {
    if m > 0 {
      TimesAdd(m - 1, n, k);
    }
  }

  lemma {:induction false} TimesMono(m: nat, n: nat, k: nat)
    requires m <= n
    ensures Times(m, k) <= Times(n, k)
    decreases n
  {
    if m < n {
      TimesMono(m, n - 1, k);
    }
  }

  /** Bitwise AND of two non-negative integers. */
  function BitAnd(x: nat, y: nat): nat {
    if x == 0 || y == 0 then 0
    else 2 * BitAnd(x / 2, y / 2) + (if x % 2 == 1 && y % 2 == 1 then 1 else 0)
  }

  /** x >> k */
  function ShiftRight(x: nat, k: nat): nat {
    if k == 0 then x else ShiftRight(x / 2, k - 1)
  }

  /** ffs(): one plus the index of the lowest set bit, 0 when there is none. */
  function Ffs(x: nat): nat
  {
    if x == 0 then 0 else if x % 2 == 1 then 1 else 1 + Ffs(x / 2)
  }

  /** The value of a 32-bit two's-complement register holding x. */
  function Int32(x: int): int {
    (x + 0x8000_0000) % 0x1_0000_0000 - 0x8000_0000
  }

  /** chip_shift, computed on the two 32-bit halves of the chip size. */
  function ChipShift(chipsize: nat): int {
    if BitAnd(chipsize, 0xffff_ffff) != 0
    then Ffs(chipsize % 0x1_0000_0000) - 1
    else Ffs(ShiftRight(chipsize, 32) % 0x1_0000_0000) + 32 - 1
  }

  lemma DivModUnique(x: nat, d: nat, q: nat, r: nat)
    requires d > 0 && r < d && x == q * d + r
    ensures x / d == q && x % d == r
  {
    var q' := x / d;
    if q' < q {
      MulMono(q' + 1, q, d);
    } else if q < q' {
      MulMono(q + 1, q', d);
    }
  }

  lemma MulMono(a: nat, b: nat, d: nat)
    requires a <= b
    ensures a * d <= b * d
  {
  }

  /** An offset below n * d has its quotient by d below n. */
  lemma DivBound(x: nat, d: nat, n: nat)
    requires d > 0 && x < n * d
    ensures x / d < n
  {
    if x / d >= n {
      MulMono(n, x / d, d);
    }
  }

  lemma BitAndOdd(x: nat, p: nat)
    requires p > 0
    ensures BitAnd(x, 2 * p - 1) == 2 * BitAnd(x / 2, p - 1) + x % 2
  {
    assert (2 * p - 1) / 2 == p - 1 && (2 * p - 1) % 2 == 1;
  }

  lemma DoubleParts(s: nat, p: nat, b: nat, h: nat, r: nat)
    requires h == s * p + b
    ensures 2 * h + r == s * (2 * p) + (2 * b + r)
  {
    assert s * (2 * p) == 2 * (s * p);
  }

  lemma {:induction false} ShiftAndMaskParts(x: nat, k: nat)
    ensures x == ShiftRight(x, k) * Pow2(k) + BitAnd(x, Pow2(k) - 1)
    ensures BitAnd(x, Pow2(k) - 1) < Pow2(k)
  {
    if k > 0 {
      var p := Pow2(k - 1);
      ShiftAndMaskParts(x / 2, k - 1);
      BitAndOdd(x, p);
      DoubleParts(ShiftRight(x, k), p, BitAnd(x / 2, p - 1), x / 2, x % 2);
    }
  }

  /** `x & (2^k - 1)` is the remainder and `x >> k` the quotient of x by 2^k. */
  lemma MaskAndShift(x: nat, k: nat)
    ensures BitAnd(x, Pow2(k) - 1) == x % Pow2(k)
    ensures ShiftRight(x, k) == x / Pow2(k)
  {
    ShiftAndMaskParts(x, k);
    DivModUnique(x, Pow2(k), ShiftRight(x, k), BitAnd(x, Pow2(k) - 1));
  }

  lemma {:induction false} FfsPow2(k: nat)
    ensures Ffs(Pow2(k)) == k + 1
  {
    if k > 0 {
      FfsPow2(k - 1);
    }
  }

  lemma {:induction false} Pow2Add(a: nat, b: nat)
    ensures Pow2(a + b) == Pow2(a) * Pow2(b)
  {
    if a > 0 {
      Pow2Add(a - 1, b);
      assert Pow2(a + b) == 2 * Pow2(a - 1 + b);
    }
  }

  lemma NextMod(x: nat, m: nat)
    requires m > 0
    ensures (x + 1) % m == if x % m + 1 == m then 0 else x % m + 1
  {
    var q, r := x / m, x % m;
    if r + 1 == m {
      assert x + 1 == (q + 1) * m + 0;
      DivModUnique(x + 1, m, q + 1, 0);
    } else {
      DivModUnique(x + 1, m, q, r + 1);
    }
  }

  /** Stepping to the next page steps its masked number, or returns it to zero at a boundary. */
  lemma NextMasked(x: nat, k: nat)
    ensures BitAnd(x, Pow2(k) - 1) < Pow2(k)
    ensures BitAnd(x + 1, Pow2(k) - 1) ==
            if BitAnd(x, Pow2(k) - 1) + 1 == Pow2(k) then 0 else BitAnd(x, Pow2(k) - 1) + 1
  {
    MaskAndShift(x, k);
    MaskAndShift(x + 1, k);
    NextMod(x, Pow2(k));
  }

  lemma Pow2Of32()
    ensures Pow2(32) == 0x1_0000_0000
  {
    assert Pow2(8) == 0x100;
    Pow2Add(8, 8);
    Pow2Add(16, 16);
  }

  lemma {:induction false} Pow2Strict(a: nat, b: nat)
    requires a < b
    ensures Pow2(a) < Pow2(b)
  {
    if a + 1 < b {
      Pow2Strict(a, b - 1);
    }
  }

  lemma LowHalf(k: nat)
    requires k < 32
    ensures Pow2(k) % 0x1_0000_0000 == Pow2(k)
  {
    Pow2Of32();
    Pow2Strict(k, 32);
  }

  lemma HighHalf(k: nat)
    requires 32 <= k < 64
    ensures Pow2(k) % 0x1_0000_0000 == 0
    ensures Pow2(k) / 0x1_0000_0000 == Pow2(k - 32)
  {
    Pow2Of32();
    Pow2Add(k - 32, 32);
    DivModUnique(Pow2(k), 0x1_0000_0000, Pow2(k - 32), 0);
  }

  lemma ChipShiftOfPower(k: nat)
    requires k < 64
    ensures ChipShift(Pow2(k)) == k
  {
    var c := Pow2(k);
    assert BitAnd(c, 0xffff_ffff) == c % 0x1_0000_0000 && ShiftRight(c, 32) == c / 0x1_0000_0000 by {
      Pow2Of32();
      MaskAndShift(c, 32);
    }
    if k < 32 {
      LowHalf(k);
      FfsPow2(k);
    } else {
      HighHalf(k);
      LowHalf(k - 32);
      FfsPow2(k - 32);
    }
  }

  /** For power-of-two sizes the computed shifts are the exponents and the page mask is pages-per-chip minus one. */
  lemma ShiftsOfPowers(pageShift: nat, eraseShift: nat, chipShift: nat)
    requires pageShift <= eraseShift <= chipShift < 64
    ensures Ffs(Pow2(pageShift)) - 1 == pageShift && Ffs(Pow2(eraseShift)) - 1 == eraseShift
    ensures ChipShift(Pow2(chipShift)) == chipShift
    ensures ShiftRight(Pow2(chipShift), pageShift) - 1 == Pow2(chipShift - pageShift) - 1
  {
    FfsPow2(pageShift);
    FfsPow2(eraseShift);
    ChipShiftOfPower(chipShift);
    Pow2Add(chipShift - pageShift, pageShift);
    MaskAndShift(Pow2(chipShift), pageShift);
    DivModUnique(Pow2(chipShift), Pow2(pageShift), Pow2(chipShift - pageShift), 0);
  }

  lemma Regroup(c: nat, p: nat, col: nat, ppc: nat, ws: nat)
    requires p < ppc && col < ws
    ensures (c * ppc + p) * ws + col == c * (ppc * ws) + (p * ws + col)
    ensures p * ws + col < ppc * ws
  {
    MulMono(p + 1, ppc, ws);
    assert (c * ppc + p) * ws == c * ppc * ws + p * ws;
    assert c * ppc * ws == c * (ppc * ws);
  }

  lemma JoinSplit(ofs: nat, ppc: nat, ws: nat)
    requires ppc > 0 && ws > 0
    ensures ppc * ws > 0 && ofs / (ppc * ws) == ofs / ws / ppc
    ensures ofs == (ofs / ws / ppc * ppc + ofs / ws % ppc) * ws + ofs % ws
  {
    var rp, col := ofs / ws, ofs % ws;
    var c, p := rp / ppc, rp % ppc;
    DivMod(ofs, ws);
    DivMod(rp, ppc);
    Regroup(c, p, col, ppc, ws);
    DivModUnique(ofs, ppc * ws, c, p * ws + col);
  }

  lemma DivDiv(ofs: nat, ppc: nat, ws: nat)
    requires ppc > 0 && ws > 0
    ensures ppc * ws > 0 && ofs / (ppc * ws) == ofs / ws / ppc
  {
    JoinSplit(ofs, ppc, ws);
  }

  lemma DivMod(x: nat, d: nat)
    requires d > 0
    ensures x / d * d + x % d == x && x % d < d
  {
  }

  /** The page number of an offset is its chip's first page plus its masked page. */
  lemma PageParts(ofs: nat, pageShift: nat, chipShift: nat, p: nat, ppc: nat)
    requires pageShift <= chipShift && p == ShiftRight(ofs, pageShift) && ppc == Pow2(chipShift - pageShift)
    ensures ShiftRight(ofs, chipShift) * ppc + BitAnd(p, ppc - 1) == p
    ensures BitAnd(p, ppc - 1) < ppc
  {
    MaskAndShift(p, chipShift - pageShift);
    assert ShiftRight(ofs, chipShift) == p / ppc by {
      MaskAndShift(ofs, pageShift);
      MaskAndShift(ofs, chipShift);
      Pow2Add(chipShift - pageShift, pageShift);
      DivDiv(ofs, ppc, Pow2(pageShift));
    }
    DivMod(p, ppc);
  }

  lemma ColumnParts(ofs: nat, pageShift: nat, ws: nat)
    requires ws == Pow2(pageShift)
    ensures ShiftRight(ofs, pageShift) * ws + BitAnd(ofs, ws - 1) == ofs && BitAnd(ofs, ws - 1) < ws
  {
    MaskAndShift(ofs, pageShift);
    DivMod(ofs, ws);
  }

  lemma SplitBack(ofs: nat, pageShift: nat, chipShift: nat, chip: nat, page: nat, col: nat, ppc: nat, ws: nat)
    requires pageShift <= chipShift && ppc == Pow2(chipShift - pageShift) && ws == Pow2(pageShift)
    requires ofs == (chip * ppc + page) * ws + col && page < ppc && col < ws
    ensures chip == ShiftRight(ofs, chipShift)
    ensures page == BitAnd(ShiftRight(ofs, pageShift), ppc - 1) && col == BitAnd(ofs, ws - 1)
  {
    var p := chip * ppc + page;
    DivModUnique(ofs, ws, p, col);
    MaskAndShift(ofs, pageShift);
    PageParts(ofs, pageShift, chipShift, p, ppc);
    DivModUnique(p, ppc, chip, page);
    DivModUnique(p, ppc, ShiftRight(ofs, chipShift), BitAnd(p, ppc - 1));
  }

  /** Shifts and masks split an offset into chip, page within the chip and column, in exactly one way. */
  lemma SplitOffset(ofs: nat, pageShift: nat, chipShift: nat, chip: nat, page: nat, col: nat, ppc: nat, ws: nat)
    requires pageShift <= chipShift && ppc == Pow2(chipShift - pageShift) && ws == Pow2(pageShift)
    ensures chip == ShiftRight(ofs, chipShift)
            && page == BitAnd(ShiftRight(ofs, pageShift), ppc - 1)
            && col == BitAnd(ofs, ws - 1)
            <==> ofs == (chip * ppc + page) * ws + col && page < ppc && col < ws
  {
    if ofs == (chip * ppc + page) * ws + col && page < ppc && col < ws {
      SplitBack(ofs, pageShift, chipShift, chip, page, col, ppc, ws);
    } else {
      PageParts(ofs, pageShift, chipShift, ShiftRight(ofs, pageShift), ppc);
      ColumnParts(ofs, pageShift, ws);
    }
  }

  lemma EvenMultiple(x: nat, h: nat)
    requires h > 0 && x % (2 * h) == 0
    ensures x % 2 == 0
  {
    var q := x / (2 * h);
    assert x == 2 * (q * h);
  }

  /** An offset aligned to 2^k, k >= 1, is even. */
  lemma AlignedEven(x: nat, k: nat)
    requires k > 0 && BitAnd(x, Pow2(k) - 1) == 0
    ensures x % 2 == 0
  {
    MaskAndShift(x, k);
    EvenMultiple(x, Pow2(k - 1));
  }

  /** The column of an even offset in an even page is even. */
  lemma EvenColumn(ofs: nat, pageShift: nat, ws: nat)
    requires pageShift > 0 && ws == Pow2(pageShift) && ofs % 2 == 0
    ensures ws % 2 == 0 && BitAnd(ofs, ws - 1) % 2 == 0
  {
    ColumnParts(ofs, pageShift, ws);
    EvenRest(ofs, ShiftRight(ofs, pageShift), ws, Pow2(pageShift - 1), BitAnd(ofs, ws - 1));
  }

  lemma EvenRest(ofs: nat, p: nat, ws: nat, h: nat, col: nat)
    requires ofs == p * ws + col && ws == 2 * h && ofs % 2 == 0
    ensures col % 2 == 0
  {
    var m := p * h;
    assert p * ws == 2 * m;
  }

  lemma ModOfSum(a: nat, x: nat, d: nat)
    requires d > 0
    ensures (a * d + x) % d == x % d
  {
    DivMod(x, d);
    assert a * d + x == (a + x / d) * d + x % d;
    DivModUnique(a * d + x, d, a + x / d, x % d);
  }

  /** A multiple of d below m * d leaves room for d more. */
  lemma RoomForOne(x: nat, d: nat, m: nat)
    requires d > 0 && x % d == 0 && x < m * d
    ensures x + d <= m * d
  {
    DivMod(x, d);
    DivBound(x, d, m);
    MulMono(x / d + 1, m, d);
    assert (x / d + 1) * d == x / d * d + d;
  }

  /** A block that starts inside a chip ends inside it. */
  lemma BlockInside(chip: nat, local: nat, ppb: nat, m: nat, p: nat, ppc: nat)
    requires ppb > 0 && ppc == m * ppb && p == chip * ppc + local && local < ppc && p % ppb == 0
    ensures local % ppb == 0 && local + ppb <= ppc
  {
    assert chip * ppc == chip * m * ppb;
    ModOfSum(chip * m, local, ppb);
    RoomForOne(local, ppb, m);
  }
}
