/** A device with software ECC, and what its pages hold after aligned writes to erased bytes. */
module SwNand {
  import opened Bytes
  import opened Geometry
  import opened OobLayout
  import opened NandSpec
  import opened SwEcc
  import opened SubpageRefinement

  /** The software ECC page functions, as the core's page functions */
  ghost function SwCodec(e: Ecc): Codec {
    Codec((p: Page) => if |p| == e.ws + e.oobSize then SwDecode(e, p) else PageOut([], [], 0, 0),
          (p: Page, col: nat, n: nat) =>
            if |p| == e.ws + e.oobSize && 0 < col + n <= e.ws then SwPart(e, p, col, n) else PageOut([], [], 0, 0),
          (d: seq<byte>, o: seq<byte>) =>
            if |d| == e.ws && |o| == e.oobSize then SwEncode(e, d, o) else Image([], []))
  }

  ghost predicate SwDevice(c: Params, e: Ecc) {
    c.ws == e.ws && c.oobSize == e.oobSize && c.codec == SwCodec(e) && (c.subpageRead ==> !HasGap(e.pos))
  }

  lemma PartOfPage(e: Ecc, p: Page, col: nat, n: nat)
    requires |p| == e.ws + e.oobSize && 0 < col + n <= e.ws && !HasGap(e.pos)
    ensures SwPart(e, p, col, n).data == SwDecode(e, p).data[col..col + n]
    ensures SwDecode(e, p).failed == 0 ==> SwPart(e, p, col, n).failed == 0
    ensures SwDecode(e, p).corrected == 0 ==> SwPart(e, p, col, n).corrected == 0
  {
    PartAt(e, p, col, n, col / e.size, (col + n - 1) / e.size + 1);
  }

  lemma PartAt(e: Ecc, p: Page, col: nat, n: nat, start: nat, end: nat)
    requires |p| == e.ws + e.oobSize && 0 < col + n <= e.ws && !HasGap(e.pos)
    requires start == col / e.size && end == (col + n - 1) / e.size + 1
    ensures SwPart(e, p, col, n).data == SwDecode(e, p).data[col..col + n]
    ensures SwPart(e, p, col, n).failed <= SwDecode(e, p).failed
    ensures SwPart(e, p, col, n).corrected <= SwDecode(e, p).corrected
  {
    SubpageRefinesPage(e, p, col, n, start, end);
  }

  lemma CodecPart(e: Ecc, p: Page, col: nat, n: nat)
    requires |p| == e.ws + e.oobSize && col + n <= e.ws && !HasGap(e.pos)
    ensures SwCodec(e).readSub(p, col, n).data == SwDecode(e, p).data[col..col + n]
  {
    if col + n > 0 {
      PartOfPage(e, p, col, n);
      assert SwCodec(e).readSub(p, col, n) == SwPart(e, p, col, n);
    }
  }

  // ---------------------------------------------------------------- the subpage size

  /** The subpage shift nand_scan_tail derives from the number of ECC steps, where subpage writes are allowed */
  function SubpageShift(steps: nat, allowed: bool): nat {
    if !allowed then 0
    else if steps == 2 then 1
    else if steps == 4 || steps == 8 || steps == 16 then 2
    else 0
  }

  /** The subpage size it gives is always a whole number of ECC steps. */
  lemma ScannedWholeSteps(e: Ecc, allowed: bool) returns (s: nat)
    ensures ShiftRight(e.ws, SubpageShift(e.steps, allowed)) == Times(s, e.size)
    ensures Times(Pow2(SubpageShift(e.steps, allowed)), s) == e.steps
  {
    var k := SubpageShift(e.steps, allowed);
    var d := Pow2(k);
    assert d == 1 || (d == 2 && e.steps == 2) || (d == 4 && (e.steps == 4 || e.steps == 8 || e.steps == 16)) by {
      assert Pow2(0) == 1 && Pow2(1) == 2 && Pow2(2) == 4;
    }
    s := e.steps / d;
    assert s * d == e.steps;
    TimesIsProduct(d, s);
    TimesIsProduct(e.steps, e.size);
    TimesIsProduct(s, e.size);
    MaskAndShift(e.ws, k);
    assert e.ws == s * e.size * d;
    DivModUnique(e.ws, d, s * e.size, 0);
  }

  /** A device of power-of-two sizes with software ECC is one the driver's theorems speak of. */
  lemma SwDeviceValid(c: Params, e: Ecc)
    requires ValidShape(c) && SwDevice(c, e)
    ensures ValidCodec(c)
  {
    forall p: Page, col: nat, n: nat | c.subpageRead && |p| == c.ws + c.oobSize && col + n <= c.ws
      ensures c.codec.readSub(p, col, n).data == c.codec.decode(p).data[col..col + n]
    {
      CodecPart(e, p, col, n);
    }
  }

  // ---------------------------------------------------------------- codes that match their data

  /** What is asked of the ECC: erased data has an erased code, and matching codes are accepted as they are. */
  ghost predicate GoodCode(e: Ecc) {
    && Calc(e, Blank(e.size)) == Blank(e.bytes)
    && forall d: seq<byte> :: |d| == e.size ==> Correct(e, d, Calc(e, d), Calc(e, d)) == Fix(d, 0)
  }

  /** The stored codes are those of the stored data. */
  ghost predicate Clean(e: Ecc, page: Page)
    requires |page| == e.ws + e.oobSize
  {
    Gather(page[e.ws..], e.pos) == Codes(e, page[..e.ws], e.steps)
  }

  lemma {:induction false} MatchingFix(e: Ecc, data: seq<byte>, n: nat)
    requires GoodCode(e) && |data| == Times(n, e.size)
    ensures FixAll(e, data, Codes(e, data, n), n) == Fixed(data, 0, 0)
    decreases n
  {
    if n > 0 {
      MatchingFix(e, data[e.size..], n - 1);
      var d := data[..e.size];
      assert Codes(e, data, n)[..e.bytes] == Calc(e, d);
      assert Codes(e, data, n)[e.bytes..] == Codes(e, data[e.size..], n - 1);
      assert d + data[e.size..] == data;
    }
  }

  /** A clean page reads back as it is, without a failed or a corrected step. */
  lemma CleanDecodes(e: Ecc, page: Page)
    requires |page| == e.ws + e.oobSize && GoodCode(e) && Clean(e, page)
    ensures SwDecode(e, page) == PageOut(page[..e.ws], page[e.ws..], 0, 0)
  {
    MatchingFix(e, page[..e.ws], e.steps);
  }

  lemma {:induction false} BlankCodes(e: Ecc, data: seq<byte>, n: nat)
    requires GoodCode(e) && |data| == Times(n, e.size) && data == Blank(|data|)
    ensures Codes(e, data, n) == Blank(Times(n, e.bytes))
    decreases n
  {
    if n > 0 {
      BlankSlice(|data|, 0, e.size);
      BlankSlice(|data|, e.size, |data|);
      assert data[..e.size] == data[0..e.size] && data[e.size..] == data[e.size..|data|];
      BlankCodes(e, data[e.size..], n - 1);
      BlankJoin(e.bytes, Times(n - 1, e.bytes));
    }
  }

  lemma BlankJoin(m: nat, n: nat)
    ensures Blank(m) + Blank(n) == Blank(m + n)
  {
    var all := Blank(m + n);
    BlankSlice(m + n, 0, m);
    BlankSlice(m + n, m, m + n);
    assert all == all[0..m] + all[m..m + n];
  }

  lemma GatherBlank(size: nat, pos: seq<nat>)
    requires Within(pos, size)
    ensures Gather(Blank(size), pos) == Blank(|pos|)
  {
    forall i | 0 <= i < |pos| ensures Gather(Blank(size), pos)[i] == Blank(|pos|)[i] {
      GatherAt(Blank(size), pos, i);
      BlankAt(size, pos[i]);
      BlankAt(|pos|, i);
    }
  }

  lemma BlankParts(m: nat, n: nat, all: nat, page: seq<byte>)
    requires all == m + n && page == Blank(all)
    ensures page[..m] == Blank(m) && page[m..] == Blank(n)
  {
    BlankSlice(all, 0, m);
    BlankSlice(all, m, all);
    assert page[..m] == page[0..m] && page[m..] == page[m..all];
  }

  /** An erased page is clean. */
  lemma BlankClean(e: Ecc, page: Page)
    requires GoodCode(e) && page == Blank(e.ws + e.oobSize)
    ensures Clean(e, page)
  {
    BlankParts(e.ws, e.oobSize, e.ws + e.oobSize, page);
    GatherBlank(e.oobSize, e.pos);
    BlankCodes(e, Blank(e.ws), e.steps);
  }

  // ---------------------------------------------------------------- programming keeps pages clean

  /** In every step, at most one of the two is not blank. */
  ghost predicate StepsApart(e: Ecc, a: seq<byte>, b: seq<byte>, n: nat)
    requires |a| == Times(n, e.size) && |b| == |a|
    decreases n
  {
    n == 0 || ((a[..e.size] == Blank(e.size) || b[..e.size] == Blank(e.size))
               && StepsApart(e, a[e.size..], b[e.size..], n - 1))
  }

  lemma {:induction false} AndBlank(a: seq<byte>)
    ensures And(a, Blank(|a|)) == a && And(Blank(|a|), a) == a
  {
    forall i | 0 <= i < |a| ensures And(a, Blank(|a|))[i] == a[i] && And(Blank(|a|), a)[i] == a[i] {
      AndAt(a, Blank(|a|), i);
      AndAt(Blank(|a|), a, i);
      BlankAt(|a|, i);
      AndAbsorb(a[i], a[i]);
    }
  }

  lemma {:induction false} AndJoin(a: seq<byte>, b: seq<byte>, x: seq<byte>, y: seq<byte>, az: seq<byte>, bz: seq<byte>)
    requires |a| == |b| && |x| == |y| && az == a + x && bz == b + y
    ensures And(az, bz) == And(a, b) + And(x, y)
    decreases |a|
  {
    if a == [] {
      assert az == x && bz == y;
    } else {
      assert az[1..] == a[1..] + x && bz[1..] == b[1..] + y;
      AndJoin(a[1..], b[1..], x, y, az[1..], bz[1..]);
    }
  }

  lemma AndSplit(a: seq<byte>, b: seq<byte>, m: nat)
    requires |a| == |b| && m <= |a|
    ensures And(a, b)[..m] == And(a[..m], b[..m]) && And(a, b)[m..] == And(a[m..], b[m..])
  {
    assert a == a[..m] + a[m..] && b == b[..m] + b[m..];
    AndJoin(a[..m], b[..m], a[m..], b[m..], a, b);
  }

  lemma CodesCons(e: Ecc, d: seq<byte>, n: nat, d0: seq<byte>, d': seq<byte>)
    requires n > 0 && |d| == Times(n, e.size) && d0 == d[..e.size] && d' == d[e.size..]
    ensures Codes(e, d, n) == Calc(e, d0) + Codes(e, d', n - 1)
  {
  }

  /** Then the codes of the combination are the combination of the codes. */
  lemma {:induction false} CodesOfAnd(e: Ecc, a: seq<byte>, b: seq<byte>, n: nat)
    requires GoodCode(e) && |a| == Times(n, e.size) && |b| == |a| && StepsApart(e, a, b, n)
    ensures Codes(e, And(a, b), n) == And(Codes(e, a, n), Codes(e, b, n))
    decreases n
  {
    if n > 0 {
      var ab, a0, b0, a', b' := And(a, b), a[..e.size], b[..e.size], a[e.size..], b[e.size..];
      CodesOfAnd(e, a', b', n - 1);
      AndSplit(a, b, e.size);
      StepCodeOfAnd(e, a0, b0);
      AndCons(e, a, b, n, a0, b0, a', b', ab);
    }
  }

  lemma AndCons(e: Ecc, a: seq<byte>, b: seq<byte>, n: nat, a0: seq<byte>, b0: seq<byte>, a': seq<byte>, b': seq<byte>,
                ab: seq<byte>)
    requires n > 0 && |a| == Times(n, e.size) && |b| == |a| && |ab| == |a|
    requires a0 == a[..e.size] && b0 == b[..e.size] && a' == a[e.size..] && b' == b[e.size..]
    requires ab[..e.size] == And(a0, b0) && ab[e.size..] == And(a', b')
    requires Calc(e, And(a0, b0)) == And(Calc(e, a0), Calc(e, b0))
    requires Codes(e, And(a', b'), n - 1) == And(Codes(e, a', n - 1), Codes(e, b', n - 1))
    ensures Codes(e, ab, n) == And(Codes(e, a, n), Codes(e, b, n))
  {
    CodesCons(e, a, n, a0, a');
    CodesCons(e, b, n, b0, b');
    CodesCons(e, ab, n, And(a0, b0), And(a', b'));
    AndOfParts(Calc(e, a0), Calc(e, b0), Codes(e, a', n - 1), Codes(e, b', n - 1), Codes(e, a, n), Codes(e, b, n),
               Calc(e, And(a0, b0)), Codes(e, And(a', b'), n - 1), Codes(e, ab, n));
  }

  lemma AndOfParts(a0: seq<byte>, b0: seq<byte>, a': seq<byte>, b': seq<byte>, a: seq<byte>, b: seq<byte>,
                   ab0: seq<byte>, ab': seq<byte>, ab: seq<byte>)
    requires |a0| == |b0| && |a'| == |b'| && a == a0 + a' && b == b0 + b' && ab == ab0 + ab'
    requires ab0 == And(a0, b0) && ab' == And(a', b')
    ensures |a| == |b| && ab == And(a, b)
  {
    AndJoin(a0, b0, a', b', a, b);
  }

  lemma StepCodeOfAnd(e: Ecc, a: seq<byte>, b: seq<byte>)
    requires GoodCode(e) && |a| == e.size == |b| && (a == Blank(e.size) || b == Blank(e.size))
    ensures Calc(e, And(a, b)) == And(Calc(e, a), Calc(e, b))
  {
    AndBlank(a);
    AndBlank(b);
    AndBlank(Calc(e, a));
    AndBlank(Calc(e, b));
  }

  lemma {:induction false} GatherAnd(a: seq<byte>, b: seq<byte>, pos: seq<nat>)
    requires |a| == |b| && Within(pos, |a|)
    ensures Gather(And(a, b), pos) == And(Gather(a, pos), Gather(b, pos))
  {
    var l, r := Gather(And(a, b), pos), And(Gather(a, pos), Gather(b, pos));
    forall i | 0 <= i < |pos| ensures l[i] == r[i] {
      GatherAt(And(a, b), pos, i);
      GatherAt(a, pos, i);
      GatherAt(b, pos, i);
      AndAt(a, b, pos[i]);
      AndAt(Gather(a, pos), Gather(b, pos), i);
    }
  }

  /** Programming data, with its codes, into steps that are blank keeps a clean page clean. */
  lemma ProgramKeepsClean(e: Ecc, page: Page, data: seq<byte>, spare: seq<byte>)
    requires |page| == e.ws + e.oobSize && |data| == e.ws && |spare| == e.oobSize
    requires GoodCode(e) && Clean(e, page) && StepsApart(e, page[..e.ws], data, e.steps)
    ensures Clean(e, And(page, SwEncode(e, data, spare).bits))
  {
    var image := SwEncode(e, data, spare);
    var codes := Codes(e, data, e.steps);
    AndSplit(page, image.bits, e.ws);
    assert image.bits[..e.ws] == data && image.bits[e.ws..] == image.oob;
    ScatterThenGather(spare, e.pos, codes);
    GatherAnd(page[e.ws..], image.oob, e.pos);
    CodesOfAnd(e, page[..e.ws], data, e.steps);
  }

  // ---------------------------------------------------------------- padded data

  lemma ApartCons(e: Ecc, a: seq<byte>, b: seq<byte>, a': seq<byte>, b': seq<byte>, n: nat)
    requires n > 0 && |a| == Times(n, e.size) && |b| == |a| && a' == a[e.size..] && b' == b[e.size..]
    requires a[..e.size] == Blank(e.size) || b[..e.size] == Blank(e.size)
    requires StepsApart(e, a', b', n - 1)
    ensures StepsApart(e, a, b, n)
  {
  }

  lemma BlankTarget(a: seq<byte>, len: nat, size: nat, a': seq<byte>, len': nat)
    requires size <= len <= |a| && a[0..0 + len] == Blank(len) && a' == a[size..] && len' == len - size
    ensures a[..size] == Blank(size) && a'[0..0 + len'] == Blank(len')
  {
    var target := a[0..0 + len];
    BlankSlice(len, 0, size);
    BlankSlice(len, size, len);
    assert a[..size] == target[0..size];
    var l, r := a'[0..0 + len'], target[size..len];
    forall i | 0 <= i < len' ensures l[i] == r[i] {
      assert l[i] == a'[i] == a[size + i] && r[i] == target[size + i] == a[size + i];
    }
    assert l == r;
  }

  /** Data laid over whole steps that are blank is apart from them. */
  lemma {:induction false} PaddedApart(e: Ecc, a: seq<byte>, m: nat, data: seq<byte>, l: nat, n: nat, col: nat)
    requires |a| == Times(n, e.size) && |data| == Times(l, e.size) && m + l <= n && col == Times(m, e.size)
    requires col + |data| <= |a| && a[col..col + |data|] == Blank(|data|)
    ensures StepsApart(e, a, Padded(|a|, col, data), n)
    decreases n
  {
    if n > 0 {
      if m > 0 {
        var a', col' := a[e.size..], Times(m - 1, e.size);
        SliceShift(a, e.size, col', |data|, a');
        PaddedApart(e, a', m - 1, data, l, n - 1, col');
        PadDrop(|a|, col, data, e.size);
        ApartCons(e, a, Padded(|a|, col, data), a', Padded(|a'|, col', data), n);
      } else if l > 0 {
        var a', data' := a[e.size..], data[e.size..];
        BlankTarget(a, |data|, e.size, a', |data'|);
        PaddedApart(e, a', 0, data', l - 1, n - 1, 0);
        PadTake(|a|, data, e.size);
        ApartCons(e, a, Padded(|a|, 0, data), a', Padded(|a'|, 0, data'), n);
      } else {
        NothingApart(e, a, data, n);
      }
    }
  }

  lemma SliceShift(a: seq<byte>, size: nat, col: nat, len: nat, a': seq<byte>)
    requires size + col + len <= |a| && a' == a[size..]
    ensures a'[col..col + len] == a[size + col..size + col + len]
  {
  }

  lemma {:induction false} NothingApart(e: Ecc, a: seq<byte>, data: seq<byte>, n: nat)
    requires |a| == Times(n, e.size) && data == []
    ensures StepsApart(e, a, Padded(|a|, 0, data), n)
    decreases n
  {
    if n > 0 {
      var a' := a[e.size..];
      NothingApart(e, a', data, n - 1);
      PadNone(|a|, e.size, data);
      ApartCons(e, a, Padded(|a|, 0, data), a', Padded(|a'|, 0, data), n);
    }
  }

  lemma PadEmpty(ws: nat, data: seq<byte>)
    requires data == []
    ensures Padded(ws, 0, data) == Blank(ws)
  {
    assert Blank(0) == [];
  }

  lemma PadNone(ws: nat, size: nat, data: seq<byte>)
    requires size <= ws && data == []
    ensures Padded(ws, 0, data)[..size] == Blank(size) && Padded(ws, 0, data)[size..] == Padded(ws - size, 0, data)
  {
    PadEmpty(ws, data);
    PadEmpty(ws - size, data);
    BlankParts(size, ws - size, ws, Padded(ws, 0, data));
  }

  lemma PadDrop(ws: nat, col: nat, data: seq<byte>, size: nat)
    requires size <= col && col + |data| <= ws
    ensures Padded(ws, col, data)[..size] == Blank(size)
    ensures Padded(ws, col, data)[size..] == Padded(ws - size, col - size, data)
  {
    var left := ws - col - |data|;
    var head, tail, rest := Blank(col), data + Blank(left), Blank(col - size);
    BlankSlice(col, 0, size);
    BlankSlice(col, size, col);
    PadIs(ws, col, data, left, tail);
    PadIs(ws - size, col - size, data, left, tail);
    DropBlank(head, tail, Padded(ws, col, data), size, Blank(size), rest);
  }

  lemma DropBlank(head: seq<byte>, tail: seq<byte>, pad: seq<byte>, size: nat, first: seq<byte>, rest: seq<byte>)
    requires size <= |head| && pad == head + tail && head[0..size] == first && head[size..|head|] == rest
    ensures pad[..size] == first && pad[size..] == rest + tail
  {
    DropHead(head, tail, size);
  }

  lemma PadIs(ws: nat, col: nat, data: seq<byte>, left: nat, tail: seq<byte>)
    requires col + |data| + left == ws && tail == data + Blank(left)
    ensures Padded(ws, col, data) == Blank(col) + tail
  {
    JoinBytes(Blank(col), data, Blank(left));
  }

  lemma DropHead(head: seq<byte>, tail: seq<byte>, size: nat)
    requires size <= |head|
    ensures (head + tail)[..size] == head[0..size] && (head + tail)[size..] == head[size..|head|] + tail
  {
  }

  lemma PadTake(ws: nat, data: seq<byte>, size: nat)
    requires size <= |data| <= ws
    ensures Padded(ws, 0, data)[size..] == Padded(ws - size, 0, data[size..])
  {
    var pad := Padded(ws, 0, data);
    assert Blank(0) == [];
    assert pad == data + Blank(ws - |data|);
    assert pad[size..] == data[size..] + Blank(ws - |data|);
  }
}
