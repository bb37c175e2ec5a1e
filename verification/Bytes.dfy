/** Bytes, and the two things a flash cell can do to them: be programmed (AND) and be erased (0xFF). */
module Bytes {

  type byte = bv8

  const ERASED: byte := 0xFF

  function Min(a: nat, b: nat): nat {
    if a <= b then a else b
  }

  /** n erased bytes */
  function Blank(n: nat): (r: seq<byte>)
    ensures |r| == n
  {
    if n == 0 then [] else [ERASED] + Blank(n - 1)
  }

  /** What cells holding a hold after programming b into them. */
  function And(a: seq<byte>, b: seq<byte>): (r: seq<byte>)
    requires |a| == |b|
    ensures |r| == |a|
  {
    if a == [] then [] else [a[0] & b[0]] + And(a[1..], b[1..])
  }

  lemma {:induction false} BlankAt(n: nat, i: nat)
    requires i < n
    ensures Blank(n)[i] == ERASED
  {
    if i > 0 {
      BlankAt(n - 1, i - 1);
    }
  }

  lemma BlankSlice(n: nat, i: nat, j: nat)
    requires i <= j <= n
    ensures Blank(n)[i..j] == Blank(j - i)
  {
    var part := Blank(n)[i..j];
    forall k | 0 <= k < j - i ensures part[k] == Blank(j - i)[k] {
      BlankAt(n, i + k);
      BlankAt(j - i, k);
    }
  }

  lemma {:induction false} AndAt(a: seq<byte>, b: seq<byte>, i: nat)
    requires |a| == |b| && i < |a|
    ensures And(a, b)[i] == a[i] & b[i]
  {
    if i > 0 {
      AndAt(a[1..], b[1..], i - 1);
    }
  }

  /** Every bit set in a is set in b. */
  ghost predicate Below(a: seq<byte>, b: seq<byte>) {
    |a| == |b| && forall i :: 0 <= i < |a| ==> a[i] & b[i] == a[i]
  }

  function Bit(b: byte, mask: byte): nat {
    if b & mask != 0 then 1 else 0
  }

  /** hweight8(): the number of set bits */
  function Hweight(b: byte): nat {
    Bit(b, 0x01) + Bit(b, 0x02) + Bit(b, 0x04) + Bit(b, 0x08) + Bit(b, 0x10) + Bit(b, 0x20) + Bit(b, 0x40) + Bit(b, 0x80)
  }

  lemma BitBelow(a: byte, b: byte, mask: byte)
    requires a & b == a
    ensures Bit(a, mask) <= Bit(b, mask)
  {
    assert a & mask == a & (b & mask);
  }

  /** Clearing bits never raises the weight. */
  lemma HweightBelow(a: byte, b: byte)
    requires a & b == a
    ensures Hweight(a) <= Hweight(b)
  {
    BitBelow(a, b, 0x01);
    BitBelow(a, b, 0x02);
    BitBelow(a, b, 0x04);
    BitBelow(a, b, 0x08);
    BitBelow(a, b, 0x10);
    BitBelow(a, b, 0x20);
    BitBelow(a, b, 0x40);
    BitBelow(a, b, 0x80);
  }

  lemma AndBelow(a: seq<byte>, b: seq<byte>)
    requires |a| == |b|
    ensures Below(And(a, b), a)
  {
    forall i | 0 <= i < |a| ensures And(a, b)[i] & a[i] == And(a, b)[i] {
      AndAt(a, b, i);
      AndAbsorb(a[i], b[i]);
    }
  }

  lemma AndAbsorb(x: byte, y: byte)
    ensures (x & y) & x == x & y
    ensures x & ERASED == x && ERASED & x == x
  {
  }

  lemma ByteBelowTrans(x: byte, y: byte, z: byte)
    requires x & y == x && y & z == y
    ensures x & z == x
  {
    assert x & z == (x & y) & z;
    assert (x & y) & z == x & (y & z);
  }

  lemma BelowTrans(a: seq<byte>, b: seq<byte>, c: seq<byte>)
    requires Below(a, b) && Below(b, c)
    ensures Below(a, c)
  {
    forall i | 0 <= i < |a| ensures a[i] & c[i] == a[i] {
      ByteBelowTrans(a[i], b[i], c[i]);
    }
  }
}

/** Counting by sets: the numbers that meet a test, and the set bits of a byte. */
module Counting {
  import opened Bytes

  /** 1 << b */
  function Mask(b: nat): byte
    requires b < 8
  {
    if b == 0 then 0x01 else if b == 1 then 0x02 else if b == 2 then 0x04 else if b == 3 then 0x08
    else if b == 4 then 0x10 else if b == 5 then 0x20 else if b == 6 then 0x40 else 0x80
  }

  /** The numbers from k up to n that meet a test */
  ghost function Meeting(test: nat -> bool, k: nat, n: nat): set<nat> {
    set j: nat | k <= j < n && test(j)
  }

  lemma OneLess(test: nat -> bool, k: nat, n: nat)
    requires k < n
    ensures |Meeting(test, k, n)| == (if test(k) then 1 else 0) + |Meeting(test, k + 1, n)|
  {
    var rest := Meeting(test, k + 1, n);
    if test(k) {
      assert Meeting(test, k, n) == {k} + rest;
    } else {
      assert Meeting(test, k, n) == rest;
    }
  }

  function BitTest(b: byte): nat -> bool {
    (i: nat) => i < 8 && b & Mask(i) != 0
  }

  /** The set bits of a byte */
  ghost function SetBits(b: byte): set<nat> {
    Meeting(BitTest(b), 0, 8)
  }

  lemma OneBitLess(b: byte, i: nat)
    requires i < 8
    ensures |Meeting(BitTest(b), i, 8)| == Bit(b, Mask(i)) + |Meeting(BitTest(b), i + 1, 8)|
  {
    OneLess(BitTest(b), i, 8);
  }

  /** hweight8 counts the set bits. */
  lemma HweightCounts(b: byte)
    ensures Hweight(b) == |SetBits(b)|
  {
    OneBitLess(b, 0);
    OneBitLess(b, 1);
    OneBitLess(b, 2);
    OneBitLess(b, 3);
    OneBitLess(b, 4);
    OneBitLess(b, 5);
    OneBitLess(b, 6);
    OneBitLess(b, 7);
    assert Meeting(BitTest(b), 8, 8) == {};
  }

  /** Only 0xFF has all eight. */
  lemma AllBitsSet(b: byte)
    ensures Hweight(b) == 8 <==> b == 0xFF
    ensures Hweight(b) <= 8
  {
  }
}
