/**
 The integrity CRC of the ONFI parameter page (section 5.7.1 of ONFI 2.2), as `onfi_crc16` computes it.
 Words and bytes are their bits, the most significant first.
 */
module OnfiCrc {

  type Bits = seq<bool>
  type Word = w: Bits | |w| == 16 witness Zeros(16)
  type Octet = b: Bits | |b| == 8 witness Zeros(8)

  function Zeros(n: nat): (r: Bits)
    ensures |r| == n && forall i :: 0 <= i < n ==> !r[i]
  {
    if n == 0 then [] else [false] + Zeros(n - 1)
  }

  function Xor(a: Bits, b: Bits): (r: Bits)
    requires |a| == |b|
    ensures |r| == |a| && forall i :: 0 <= i < |a| ==> r[i] == (a[i] != b[i])
  {
    if a == [] then [] else [a[0] != b[0]] + Xor(a[1..], b[1..])
  }

  /** 0x8005 */
  const POLY: Word :=
    [true, false, false, false, false, false, false, false, false, false, false, false, false, true, false, true]

  /** crc << 1, in 16 bits */
  function Double(crc: Word): Word {
    crc[1..] + [false]
  }

  /** One bit of the division by x^16 + x^15 + x^2 + 1 */
  function Shift(crc: Word): Word {
    if crc[0] then Xor(Double(crc), POLY) else Double(crc)
  }

  function Shifts(crc: Word, n: nat): Word
    decreases n
  {
    if n == 0 then crc else Shifts(Shift(crc), n - 1)
  }

  /** b << 8 */
  function High(b: Octet): Word {
    b + Zeros(8)
  }

  function Feed(crc: Word, b: Octet): Word {
    Shifts(Xor(crc, High(b)), 8)
  }

  function Crc(crc: Word, p: seq<Octet>): Word
    decreases |p|
  {
    if p == [] then crc else Crc(Feed(crc, p[0]), p[1..])
  }

  /** onfi_crc16 */
  method OnfiCrc16(crc0: Word, p: seq<Octet>) returns (crc: Word)
    ensures crc == Crc(crc0, p)
  {
    crc := crc0;
    var k := 0;
    while k < |p|
      invariant 0 <= k <= |p| && Crc(crc, p[k..]) == Crc(crc0, p)
    {
      crc := FeedBits(crc, p[k]);
      assert p[k..][1..] == p[k + 1..];
      k := k + 1;
    }
  }

  /** The inner loop: eight shifts for each byte */
  method FeedBits(crc0: Word, b: Octet) returns (crc: Word)
    ensures crc == Feed(crc0, b)
  {
    crc := Xor(crc0, High(b));
    var i := 0;
    while i < 8
      invariant 0 <= i <= 8 && Shifts(crc, 8 - i) == Feed(crc0, b)
    {
      crc := if crc[0] then Xor(Double(crc), POLY) else Double(crc);
      i := i + 1;
    }
  }

  // ---------------------------------------------------------------- linearity

  /** Bit i of a shifted word */
  lemma ShiftAt(w: Word, i: nat)
    requires i < 16
    ensures Shift(w)[i] == ((if i < 15 then w[i + 1] else false) != (w[0] && POLY[i]))
  {
  }

  lemma ShiftLinear(a: Word, b: Word)
    ensures Shift(Xor(a, b)) == Xor(Shift(a), Shift(b))
  {
    var l, r := Shift(Xor(a, b)), Xor(Shift(a), Shift(b));
    forall i | 0 <= i < 16 ensures l[i] == r[i] {
      ShiftAt(a, i);
      ShiftAt(b, i);
      ShiftAt(Xor(a, b), i);
    }
  }

  lemma {:induction false} ShiftsLinear(a: Word, b: Word, n: nat)
    ensures Shifts(Xor(a, b), n) == Xor(Shifts(a, n), Shifts(b, n))
    decreases n
  {
    if n > 0 {
      ShiftLinear(a, b);
      ShiftsLinear(Shift(a), Shift(b), n - 1);
    }
  }

  function XorAll(p: seq<Octet>, q: seq<Octet>): (r: seq<Octet>)
    requires |p| == |q|
    ensures |r| == |p|
  {
    if p == [] then [] else [Xor(p[0], q[0])] + XorAll(p[1..], q[1..])
  }

  lemma HighLinear(a: Octet, b: Octet)
    ensures High(Xor(a, b)) == Xor(High(a), High(b))
  {
  }

  lemma XorRegroup(a: Bits, b: Bits, x: Bits, y: Bits)
    requires |a| == |b| == |x| == |y|
    ensures Xor(Xor(a, b), Xor(x, y)) == Xor(Xor(a, x), Xor(b, y))
  {
    var l, r := Xor(Xor(a, b), Xor(x, y)), Xor(Xor(a, x), Xor(b, y));
    forall i | 0 <= i < |a| ensures l[i] == r[i] {
      assert Xor(a, b)[i] == (a[i] != b[i]) && Xor(x, y)[i] == (x[i] != y[i]);
      assert Xor(a, x)[i] == (a[i] != x[i]) && Xor(b, y)[i] == (b[i] != y[i]);
    }
  }

  lemma FeedLinear(a: Word, b: Word, x: Octet, y: Octet)
    ensures Feed(Xor(a, b), Xor(x, y)) == Xor(Feed(a, x), Feed(b, y))
  {
    HighLinear(x, y);
    XorRegroup(a, b, High(x), High(y));
    ShiftsLinear(Xor(a, High(x)), Xor(b, High(y)), 8);
  }

  /** The CRC is linear over XOR of start values and of messages of equal length. */
  lemma {:induction false} CrcLinear(a: Word, b: Word, p: seq<Octet>, q: seq<Octet>)
    requires |p| == |q|
    ensures Crc(Xor(a, b), XorAll(p, q)) == Xor(Crc(a, p), Crc(b, q))
    decreases |p|
  {
    if p != [] {
      FeedLinear(a, b, p[0], q[0]);
      CrcLinear(Feed(a, p[0]), Feed(b, q[0]), p[1..], q[1..]);
      assert XorAll(p, q)[1..] == XorAll(p[1..], q[1..]);
    }
  }

  // ---------------------------------------------------------------- injectivity

  lemma ShiftInjective(a: Word, b: Word)
    requires Shift(a) == Shift(b)
    ensures a == b
  {
    ShiftAt(a, 15);
    ShiftAt(b, 15);
    forall i | 0 < i < 16 ensures a[i] == b[i] {
      ShiftAt(a, i - 1);
      ShiftAt(b, i - 1);
    }
  }

  lemma {:induction false} ShiftsInjective(a: Word, b: Word, n: nat)
    requires Shifts(a, n) == Shifts(b, n)
    ensures a == b
    decreases n
  {
    if n > 0 {
      ShiftsInjective(Shift(a), Shift(b), n - 1);
      ShiftInjective(a, b);
    }
  }

  lemma XorCancel(a: Bits, b: Bits, x: Bits)
    requires |a| == |b| == |x| && Xor(a, x) == Xor(b, x)
    ensures a == b
  {
    forall i | 0 <= i < |a| ensures a[i] == b[i] {
      assert Xor(a, x)[i] == Xor(b, x)[i];
    }
  }

  /** Feeding the same byte never merges two states. */
  lemma FeedInjective(a: Word, b: Word, x: Octet)
    requires Feed(a, x) == Feed(b, x)
    ensures a == b
  {
    ShiftsInjective(Xor(a, High(x)), Xor(b, High(x)), 8);
    XorCancel(a, b, High(x));
  }

  /** Different states stay different over any common rest of the message. */
  lemma {:induction false} CrcInjective(a: Word, b: Word, p: seq<Octet>)
    requires Crc(a, p) == Crc(b, p)
    ensures a == b
    decreases |p|
  {
    if p != [] {
      CrcInjective(Feed(a, p[0]), Feed(b, p[0]), p[1..]);
      FeedInjective(a, b, p[0]);
    }
  }

  // ---------------------------------------------------------------- detection

  /** A byte in the lower half of a word */
  function Low(b: Octet): Word {
    Zeros(8) + b
  }

  /** While the top bits are clear, shifting is moving up. */
  lemma {:induction false} ClearShifts(w: Word, n: nat)
    requires n <= 16 && forall i :: 0 <= i < n ==> !w[i]
    ensures Shifts(w, n) == w[n..] + Zeros(n)
    decreases n
  {
    if n > 0 {
      var d := Shift(w);
      assert d == w[1..] + [false];
      ClearShifts(d, n - 1);
      assert d[n - 1..] == w[n..] + [false];
      assert [false] + Zeros(n - 1) == Zeros(n);
      assert w[n..] + [false] + Zeros(n - 1) == w[n..] + ([false] + Zeros(n - 1));
    }
  }

  /** A byte in the lower half reaches the upper half after eight shifts. */
  lemma LowToHigh(b: Octet)
    ensures Shifts(Low(b), 8) == High(b)
  {
    ClearShifts(Low(b), 8);
    assert Low(b)[8..] == b;
  }

  lemma HalvesApart(d: Octet, f: Octet)
    requires High(d) == Low(f)
    ensures d == Zeros(8) && f == Zeros(8)
  {
    forall i | 0 <= i < 8 ensures !d[i] && !f[i] {
      assert High(d)[i] == Low(f)[i] && High(d)[8 + i] == Low(f)[8 + i];
    }
  }

  lemma XorZero(a: Bits, b: Bits)
    requires |a| == |b|
    ensures Xor(a, b) == Zeros(|a|) <==> a == b
  {
    if Xor(a, b) == Zeros(|a|) {
      forall i | 0 <= i < |a| ensures a[i] == b[i] {
        assert Xor(a, b)[i] == Zeros(|a|)[i];
      }
    }
  }

  lemma ZeroXor(x: Bits)
    ensures Xor(Zeros(|x|), x) == x
  {
    forall i | 0 <= i < |x| ensures Xor(Zeros(|x|), x)[i] == x[i] {
    }
  }

  lemma ZeroStays()
    ensures Shifts(Zeros(16), 8) == Zeros(16)
  {
    ClearShifts(Zeros(16), 8);
  }

  /** Two bytes fed from the zero state bring it back to zero only if both are zero. */
  lemma TwoBytesFromZero(d: Octet, f: Octet)
    requires Feed(Feed(Zeros(16), d), f) == Zeros(16)
    ensures d == Zeros(8) && f == Zeros(8)
  {
    var s := Feed(Zeros(16), d);
    ZeroStays();
    ShiftsInjective(Xor(s, High(f)), Zeros(16), 8);
    XorZero(s, High(f));
    LowToHigh(f);
    ZeroXor(High(d));
    ShiftsInjective(High(d), Low(f), 8);
    HalvesApart(d, f);
  }

  /** From one state, two different pairs of bytes lead to different states. */
  lemma PairsApart(s: Word, a: Octet, b: Octet, x: Octet, y: Octet)
    requires Feed(Feed(s, a), b) == Feed(Feed(s, x), y)
    ensures a == x && b == y
  {
    XorZero(s, s);
    FeedLinear(s, s, a, x);
    FeedLinear(Feed(s, a), Feed(s, x), b, y);
    XorZero(Feed(Feed(s, a), b), Feed(Feed(s, x), y));
    TwoBytesFromZero(Xor(a, x), Xor(b, y));
    XorZero(a, x);
    XorZero(b, y);
  }

  lemma {:induction false} CrcConcat(crc: Word, p: seq<Octet>, q: seq<Octet>)
    ensures Crc(crc, p + q) == Crc(Crc(crc, p), q)
    decreases |p|
  {
    if p == [] {
      assert p + q == q;
    } else {
      assert (p + q)[1..] == p[1..] + q;
      CrcConcat(Feed(crc, p[0]), p[1..], q);
    }
  }

  /** The two messages agree outside bytes i and i + 1. */
  ghost predicate AgreeOutside(p: seq<Octet>, q: seq<Octet>, i: nat) {
    |p| == |q| && forall k :: 0 <= k < |p| && k != i && k != i + 1 ==> p[k] == q[k]
  }

  lemma CrcOfThree(crc: Word, p: seq<Octet>, i: nat)
    requires i + 2 <= |p|
    ensures Crc(crc, p) == Crc(Feed(Feed(Crc(crc, p[..i]), p[i]), p[i + 1]), p[i + 2..])
  {
    assert p == p[..i] + p[i..];
    CrcConcat(crc, p[..i], p[i..]);
    assert p[i..][1..] == p[i + 1..] && p[i + 1..][1..] == p[i + 2..];
    assert p[i..][0] == p[i] && p[i + 1..][0] == p[i + 1];
  }

  /** Messages that differ only within two consecutive bytes have different CRCs, whatever their length. */
  lemma DetectsTwoBytes(crc: Word, p: seq<Octet>, q: seq<Octet>, i: nat)
    requires AgreeOutside(p, q, i) && i < |p| && p != q
    ensures Crc(crc, p) != Crc(crc, q)
  {
    if i + 1 == |p| {
      LastByte(crc, p, q, i);
    } else if Crc(crc, p) == Crc(crc, q) {
      AgreeAround(p, q, i);
      SamePair(crc, p, q, i, p[..i], p[i + 2..]);
    }
  }

  lemma AgreeAround(p: seq<Octet>, q: seq<Octet>, i: nat)
    requires AgreeOutside(p, q, i) && i + 2 <= |p|
    ensures p[..i] == q[..i] && p[i + 2..] == q[i + 2..]
    ensures p[i] == q[i] && p[i + 1] == q[i + 1] ==> p == q
  {
  }

  /** Between the same bytes, only the same pair gives the same CRC. */
  lemma SamePair(crc: Word, p: seq<Octet>, q: seq<Octet>, i: nat, head: seq<Octet>, tail: seq<Octet>)
    requires i + 2 <= |p| == |q| && p[..i] == head == q[..i] && p[i + 2..] == tail == q[i + 2..] && Crc(crc, p) == Crc(crc, q)
    ensures p[i] == q[i] && p[i + 1] == q[i + 1]
  {
    var s := Crc(crc, head);
    CrcOfThree(crc, p, i);
    CrcOfThree(crc, q, i);
    CrcInjective(Feed(Feed(s, p[i]), p[i + 1]), Feed(Feed(s, q[i]), q[i + 1]), tail);
    PairsApart(s, p[i], p[i + 1], q[i], q[i + 1]);
  }

  /** A difference in the last byte alone */
  lemma LastByte(crc: Word, p: seq<Octet>, q: seq<Octet>, i: nat)
    requires AgreeOutside(p, q, i) && i + 1 == |p| && p != q
    ensures Crc(crc, p) != Crc(crc, q)
  {
    assert p[..i] == q[..i];
    CrcOfLast(crc, p, i);
    CrcOfLast(crc, q, i);
    var s := Crc(crc, p[..i]);
    if Feed(s, p[i]) == Feed(s, q[i]) {
      PairsApart(s, p[i], Zeros(8), q[i], Zeros(8));
    }
  }

  lemma CrcOfLast(crc: Word, p: seq<Octet>, i: nat)
    requires i + 1 == |p|
    ensures Crc(crc, p) == Feed(Crc(crc, p[..i]), p[i])
  {
    assert p == p[..i] + [p[i]];
    CrcConcat(crc, p[..i], [p[i]]);
  }

  /** A word from its two bytes */
  function Pair(high: Octet, low: Octet): Word {
    var h: Bits, l: Bits := high, low;
    h + l
  }

  /** The test nand_flash_detect_onfi makes of a 256-byte parameter page; the CRC is stored low byte first. */
  predicate Accepted(base: Word, page: seq<Octet>)
    requires |page| == 256
  {
    Crc(base, page[..254]) == Pair(page[255], page[254])
  }

  /** A page with at most two consecutive corrupted bytes in its covered part, or in its stored CRC, is rejected. */
  lemma DamageRejected(base: Word, page: seq<Octet>, page': seq<Octet>, i: nat)
    requires |page| == |page'| == 256 && Accepted(base, page) && AgreeOutside(page, page', i) && page != page'
    requires i + 2 <= 254 || i == 254
    ensures !Accepted(base, page')
  {
    var p, q := page[..254], page'[..254];
    assert page == p + [page[254], page[255]] && page' == q + [page'[254], page'[255]];
    if i == 254 {
      assert p == q;
      if Pair(page[255], page[254]) == Pair(page'[255], page'[254]) {
        StoredApart(page[255], page[254], page'[255], page'[254]);
      }
    } else {
      assert page'[254] == page[254] && page'[255] == page[255];
      DetectsTwoBytes(base, p, q, i);
    }
  }

  lemma PairXor(h: Octet, a: Octet, b: Octet)
    ensures Xor(Pair(h, a), Pair(h, b)) == Pair(Zeros(8), Xor(a, b))
  {
    var l, r := Xor(Pair(h, a), Pair(h, b)), Pair(Zeros(8), Xor(a, b));
    forall i | 0 <= i < 16 ensures l[i] == r[i] {
    }
  }

  lemma XorSwap(a: Bits, b: Bits)
    requires |a| == |b|
    ensures Xor(a, b) == Xor(b, a)
  {
    forall i | 0 <= i < |a| ensures Xor(a, b)[i] == Xor(b, a)[i] {
    }
  }

  /**
   Damage to the last covered byte and the stored low byte goes undetected exactly when the CRC of the one difference
   is the other.
   */
  lemma BoundaryExact(base: Word, page: seq<Octet>, page': seq<Octet>)
    requires |page| == |page'| == 256 && Accepted(base, page) && AgreeOutside(page, page', 253)
    ensures Accepted(base, page') <==>
            Feed(Zeros(16), Xor(page[253], page'[253])) == Pair(Zeros(8), Xor(page[254], page'[254]))
  {
    var p, q := page[..254], page'[..254];
    assert p[..253] == q[..253];
    CrcOfLast(base, p, 253);
    CrcOfLast(base, q, 253);
    var s, h := Crc(base, p[..253]), page[255];
    var x, y, z := Feed(s, page[253]), Feed(s, page'[253]), Pair(h, page'[254]);
    XorZero(s, s);
    FeedLinear(s, s, page[253], page'[253]);
    PairXor(h, page[254], page'[254]);
    if Xor(x, y) == Xor(x, z) {
      XorSwap(x, y);
      XorSwap(x, z);
      XorCancel(y, z, x);
    }
  }

  const THREE: Octet := [false, false, false, false, false, false, true, true]
  const TEN: Octet := [false, false, false, false, true, false, true, false]

  lemma BitsOf(i: nat)
    ensures i < 16 ==> POLY[i] == (i == 0 || i == 13 || i == 15)
    ensures i < 8 ==> THREE[i] == (i >= 6) && TEN[i] == (i == 4 || i == 6)
  {
  }

  /** 0x0300 is divided bit by bit: 0xC000 after six bits, */
  lemma ToTop(w: Word)
    requires w == Shifts(High(THREE), 6)
    ensures forall i :: 0 <= i < 16 ==> w[i] == (i < 2)
  {
    var three := High(THREE);
    forall i | 0 <= i < 16 ensures three[i] == (i == 6 || i == 7) {
      BitsOf(i);
    }
    ClearShifts(three, 6);
  }

  /** then 0x0005, */
  lemma FromTop(w: Word)
    requires forall i :: 0 <= i < 16 ==> w[i] == (i < 2)
    ensures forall i :: 0 <= i < 16 ==> Shift(w)[i] == (i == 13 || i == 15)
  {
    forall i | 0 <= i < 16 ensures Shift(w)[i] == (i == 13 || i == 15) {
      ShiftAt(w, i);
      BitsOf(i);
    }
  }

  /** then 0x000A. */
  lemma ToTen(w: Word)
    requires forall i :: 0 <= i < 16 ==> w[i] == (i == 13 || i == 15)
    ensures Shift(w) == Pair(Zeros(8), TEN)
  {
    var r := Pair(Zeros(8), TEN);
    forall i | 0 <= i < 16 ensures Shift(w)[i] == r[i] {
      ShiftAt(w, i);
      if i >= 8 {
        BitsOf(i - 8);
      }
    }
  }

  lemma CrcOfThreeIsTen()
    ensures Feed(Zeros(16), THREE) == Pair(Zeros(8), TEN)
  {
    var w := Shifts(High(THREE), 6);
    ZeroXor(High(THREE));
    ShiftsAdd(High(THREE), 6, 2);
    ToTop(w);
    FromTop(w);
    ToTen(Shift(w));
    assert Shifts(w, 2) == Shifts(Shift(w), 1) == Shifts(Shift(Shift(w)), 0);
  }

  lemma {:induction false} ShiftsAdd(w: Word, m: nat, n: nat)
    ensures Shifts(w, m + n) == Shifts(Shifts(w, m), n)
    decreases m
  {
    if m > 0 {
      ShiftsAdd(Shift(w), m - 1, n);
    }
  }

  /** Such damage: every accepted page is still accepted with 0x03 flipped in byte 253 and 0x0A in byte 254. */
  lemma DamageMissed(base: Word, page: seq<Octet>, page': seq<Octet>)
    requires |page| == |page'| == 256 && Accepted(base, page) && AgreeOutside(page, page', 253)
    requires Xor(page[253], page'[253]) == THREE && Xor(page[254], page'[254]) == TEN
    ensures Accepted(base, page') && page' != page
  {
    BoundaryExact(base, page, page');
    CrcOfThreeIsTen();
    XorZero(page[253], page'[253]);
    assert THREE[7] && !Zeros(8)[7];
  }

  lemma StoredApart(a: Octet, b: Octet, x: Octet, y: Octet)
    requires Pair(a, b) == Pair(x, y)
    ensures a == x && b == y
  {
    assert a == Pair(a, b)[..8] && x == Pair(x, y)[..8] && b == Pair(a, b)[8..] && y == Pair(x, y)[8..];
  }
}
