/** Bad-block marks are permanent over every run, and marking a block establishes its mark. */
module BadBlockLaws {
  import opened Bytes
  import opened Geometry
  import opened OobLayout
  import opened NandSpec
  import opened NandRequests

  lemma FullByte(a: byte, b: byte)
    requires a & b == a && a == 0xFF
    ensures b == 0xFF
  {
  }

  lemma BelowSelf(a: seq<byte>)
    ensures Below(a, a)
  {
    forall i | 0 <= i < |a| ensures a[i] & a[i] == a[i] {
      AndSelf(a[i]);
    }
  }

  lemma AndSelf(x: byte)
    ensures x & x == x
  {
  }

  /** Programming a page never makes its marker good again. */
  lemma MarkStays(c: Config, page': Page, page: Page)
    requires |page| == c.ws + c.oobSize && Below(page', page) && PageBad(c, page)
    ensures PageBad(c, page')
  {
    var i := c.ws + c.badPos;
    assert page'[i] & page[i] == page'[i];
    if page'[i] == 0xFF {
      FullByte(page'[i], page[i]);
    }
    HweightBelow(page'[i], page[i]);
  }

  /** No cell of the device has gained a bit. */
  ghost predicate Lower(cells': seq<Page>, cells: seq<Page>) {
    |cells'| == |cells| && forall i :: 0 <= i < |cells| ==> Below(cells'[i], cells[i])
  }

  lemma LowerSelf(cells: seq<Page>)
    ensures Lower(cells, cells)
  {
    forall i | 0 <= i < |cells| ensures Below(cells[i], cells[i]) {
      BelowSelf(cells[i]);
    }
  }

  lemma LowerTrans(a: seq<Page>, b: seq<Page>, d: seq<Page>)
    requires Lower(a, b) && Lower(b, d)
    ensures Lower(a, d)
  {
    forall i | 0 <= i < |a| ensures Below(a[i], d[i]) {
      BelowTrans(a[i], b[i], d[i]);
    }
  }

  lemma ProgramLower(c: Config, cells: seq<Page>, p: nat, bits: Page, env: Env, k: nat)
    requires ValidCells(c, cells) && ValidEnv(c, env) && p < |cells| && |bits| == c.ws + c.oobSize
    ensures Lower(Program(c, cells, p, bits, env, k), cells)
  {
    var r := Program(c, cells, p, bits, env, k);
    forall i | 0 <= i < |cells| ensures Below(r[i], cells[i]) {
      BelowSelf(cells[i]);
      AndBelow(cells[p], if ProgFails(env, k) then Torn(c, env, k) else bits);
    }
  }

  lemma {:induction false} WriteLower(c: Config, env: Env, cells: seq<Page>, k: nat, p: nat, col: nat, data: seq<byte>,
                                      mode: Mode, ow: OobWrite, spare: seq<byte>)
    requires ValidEnv(c, env) && ValidCells(c, cells) && |spare| == c.oobSize
    requires col < c.ws && 0 < |data| <= Room(c.ws, |cells|, p, col) && OobFits(c, mode, ow)
    ensures Lower(WritePages(c, env, cells, k, p, col, data, mode, ow, spare).cells, cells)
    decreases |data|
  {
    var bytes := Min(c.ws - col, |data|);
    var image := TurnImage(c, col, data[..bytes], mode, ow, spare);
    var cells' := Program(c, cells, p, image.bits, env, k);
    ProgramLower(c, cells, p, image.bits, env, k);
    if !ProgFails(env, k) && bytes < |data| {
      var data', ow' := data[bytes..], OobRest(c, mode, ow);
      WriteMore(c, env, cells, k, p, col, data, bytes, mode, ow, spare, image, cells', data', ow');
      WriteLower(c, env, cells', k + 1, p + 1, 0, data', mode, ow', image.oob);
      LowerTrans(WritePages(c, env, cells', k + 1, p + 1, 0, data', mode, ow', image.oob).cells, cells', cells);
    } else if ProgFails(env, k) {
      WriteFails(c, env, cells, k, p, col, data, bytes, mode, ow, spare, image, cells');
    } else {
      WriteLast(c, env, cells, k, p, col, data, bytes, mode, ow, spare, image, cells');
    }
  }

  lemma OobLower(c: Config, env: Env, cells: seq<Page>, k: nat, p: nat, mode: Mode, offs: nat, oob: seq<byte>)
    requires ValidEnv(c, env) && ValidCells(c, cells)
    ensures Lower(WriteOobOnly(c, env, cells, k, p, mode, offs, oob).cells, cells)
  {
    LowerSelf(cells);
    var len := |Slots(c.free, c.oobSize, mode)|;
    if !(offs + |oob| > len || offs >= len || p >= |cells|) && !env.protected {
      ProgramLower(c, cells, p, Blank(c.ws) + FillSpare(c, Blank(c.oobSize), mode, offs, oob), env, k);
    }
  }

  lemma {:induction false} MarkLower(c: Config, env: Env, cells: seq<Page>, k: nat, q: nat, i: nat)
    requires ValidEnv(c, env) && ValidCells(c, cells) && i < 2
    ensures Lower(MarkPages(c, env, cells, k, q, i).cells, cells)
    decreases 2 - i
  {
    var w := WriteOobOnly(c, env, cells, k, q, Place, c.badPos / 2 * 2, [0, 0]);
    OobLower(c, env, cells, k, q, Place, c.badPos / 2 * 2, [0, 0]);
    var w6 := if w.ret.Ok? && c.scanByte1And6 then WriteOobOnly(c, env, w.cells, k + 1, q, Place, 4, [0, 0]) else w;
    OobLower(c, env, w.cells, k + 1, q, Place, 4, [0, 0]);
    LowerSelf(w.cells);
    LowerTrans(w6.cells, w.cells, cells);
    if w6.ret.Ok? && c.scan2ndPage && i + 1 < 2 {
      MarkLower(c, env, w6.cells, k + 2, q + 1, i + 1);
      LowerTrans(MarkPages(c, env, w6.cells, k + 2, q + 1, i + 1).cells, w6.cells, cells);
    }
  }

  /** Two different blocks share no page. */
  lemma BlocksApart(p: nat, q: nat, ppb: nat)
    requires ppb > 0 && p % ppb == 0 && q % ppb == 0 && p < q
    ensures p + ppb <= q
  {
    DivMod(p, ppb);
    DivMod(q, ppb);
    if q / ppb <= p / ppb {
      MulMono(q / ppb, p / ppb, ppb);
    }
    MulMono(p / ppb + 1, q / ppb, ppb);
    assert (p / ppb + 1) * ppb == p / ppb * ppb + ppb;
  }

  lemma OtherBlockKept(c: Config, env: Env, cells: seq<Page>, k: nat, p: nat, q: nat)
    requires ValidEnv(c, env) && ValidCells(c, cells) && p + c.ppb <= |cells| && q + c.ppb <= |cells|
    requires p % c.ppb == 0 && q % c.ppb == 0 && p != q
    ensures BlockBadAt(c, EraseResult(c, env, cells, k, p), q) == BlockBadAt(c, cells, q)
  {
    if p < q { BlocksApart(p, q, c.ppb); } else { BlocksApart(q, p, c.ppb); }
    EraseResultAt(c, env, cells, k, p, MarkPage(c, q));
  }

  lemma EndKeepsBad(c: Config, env: Env, cells: seq<Page>, k: nat, p: nat, n: nat, q: nat)
    requires ValidEnv(c, env) && ValidCells(c, cells) && n > 0 && p + Times(n, c.ppb) <= |cells| && p + c.ppb <= |cells|
    requires p % c.ppb == 0 && q % c.ppb == 0 && q + c.ppb <= |cells| && BlockBadAt(c, cells, q)
    requires BlockBadAt(c, cells, p) || EraseFails(env, k)
    ensures BlockBadAt(c, EraseBlocks(c, env, cells, k, p, n).cells, q)
  {
    EraseEnds(c, env, cells, k, p, n);
    if !BlockBadAt(c, cells, p) {
      OtherBlockKept(c, env, cells, k, p, q);
    }
  }

  /** Erasing leaves a bad block alone. */
  lemma {:induction false} EraseKeepsBad(c: Config, env: Env, cells: seq<Page>, k: nat, p: nat, n: nat, q: nat)
    requires ValidEnv(c, env) && ValidCells(c, cells) && p + Times(n, c.ppb) <= |cells|
    requires p % c.ppb == 0 && q % c.ppb == 0 && q + c.ppb <= |cells| && BlockBadAt(c, cells, q)
    ensures BlockBadAt(c, EraseBlocks(c, env, cells, k, p, n).cells, q)
    decreases n
  {
    if n > 0 {
      if BlockBadAt(c, cells, p) || EraseFails(env, k) {
        EndKeepsBad(c, env, cells, k, p, n, q);
      } else {
        var cells', k', p', n' := EraseResult(c, env, cells, k, p), k + 1, p + c.ppb, n - 1;
        OtherBlockKept(c, env, cells, k, p, q);
        ModOfSum(1, p, c.ppb);
        EraseMore(c, env, cells, k, p, n, cells', k', p', n');
        EraseKeepsBad(c, env, cells', k', p', n', q);
      }
    }
  }

  lemma LowerKeepsBad(c: Config, cells': seq<Page>, cells: seq<Page>, q: nat)
    requires ValidCells(c, cells) && ValidCells(c, cells') && Lower(cells', cells)
    requires q + c.ppb <= |cells| && BlockBadAt(c, cells, q)
    ensures BlockBadAt(c, cells', q)
  {
    MarkStays(c, cells'[MarkPage(c, q)], cells[MarkPage(c, q)]);
  }

  lemma WriteKeepsBad(c: Config, e: Event, cells: seq<Page>, to: nat, data: seq<byte>, mode: Mode, ow: OobWrite, q: nat)
    requires ValidEvent(c, |cells|, e) && ValidCells(c, cells) && q + c.ppb <= |cells| && BlockBadAt(c, cells, q)
    ensures BlockBadAt(c, ApplyWrite(c, e, cells, to, data, mode, ow).cells, q)
  {
    if InDevice(c, |cells|, to, |data|) && data != [] && WriteChecks(c, to, |data|, mode, ow, e.env).Ok? {
      RequestFits(c, |cells|, to, |data|);
      ChecksFit(c, to, |data|, mode, ow, e.env);
      var spare := if ow.NoOob? then Blank(c.oobSize) else e.staged;
      WriteLower(c, e.env, cells, 0, PageOf(c, to), ColOf(c, to), data, mode, ow, spare);
      LowerKeepsBad(c, WritePages(c, e.env, cells, 0, PageOf(c, to), ColOf(c, to), data, mode, ow, spare).cells, cells, q);
    }
  }

  lemma MarkKeepsBad(c: Config, env: Env, cells: seq<Page>, p: nat, q: nat)
    requires ValidEnv(c, env) && ValidCells(c, cells) && p < |cells|
    requires q + c.ppb <= |cells| && BlockBadAt(c, cells, q)
    ensures BlockBadAt(c, MarkBad(c, env, cells, p).cells, q)
  {
    ScanInside(c, p);
    if !PageBad(c, cells[ScanPage(c, p)]) {
      MarkLower(c, env, cells, 0, MarkPage(c, p), 0);
      LowerKeepsBad(c, MarkPages(c, env, cells, 0, MarkPage(c, p), 0).cells, cells, q);
    }
  }

  lemma ApplyKeepsBad(c: Config, e: Event, cells: seq<Page>, q: nat)
    requires ValidEvent(c, |cells|, e) && ValidCells(c, cells)
    requires q % c.ppb == 0 && q + c.ppb <= |cells| && BlockBadAt(c, cells, q)
    ensures BlockBadAt(c, Apply(c, e, cells).cells, q)
  {
    match e.req
    case Read(_, _, _, _, _) =>
    case Write(to, data, mode, ow) => WriteKeepsBad(c, e, cells, to, data, mode, ow, q);
    case WriteSpare(to, mode, offs, oob) =>
      OobLower(c, e.env, cells, 0, PageOf(c, to), mode, offs, oob);
      LowerKeepsBad(c, WriteOobOnly(c, e.env, cells, 0, PageOf(c, to), mode, offs, oob).cells, cells, q);
    case Erase(addr, len) =>
      if EraseAccepted(c, |cells|, addr, len) && (len > 0 || addr < |cells| * c.ws) && !e.env.protected {
        EraseFits(c, |cells|, addr, len);
        EraseKeepsBad(c, e.env, cells, 0, PageOf(c, addr), BlockCount(c, len), q);
      }
    case MarkBlock(ofs) =>
      if ofs < |cells| * c.ws {
        OutOfDevice(c, |cells|, ofs);
        MarkKeepsBad(c, e.env, cells, PageOf(c, ofs), q);
      }
  }

  /** Once a block's marker reads bad, no run of requests makes it good, whatever the hardware does. */
  lemma {:induction false} BadForever(c: Config, cells: seq<Page>, es: seq<Event>, q: nat)
    requires ValidEvents(c, |cells|, es) && ValidCells(c, cells)
    requires q % c.ppb == 0 && q + c.ppb <= |cells| && BlockBadAt(c, cells, q)
    ensures BlockBadAt(c, RunCells(c, cells, es), q)
    decreases |es|
  {
    if es != [] {
      ApplyKeepsBad(c, es[0], cells, q);
      BadForever(c, Apply(c, es[0], cells).cells, es[1..], q);
    }
  }

  // ---------------------------------------------------------------- marking marks

  lemma ZeroIsBad(c: Config, page: Page)
    requires |page| == c.ws + c.oobSize && page[c.ws + c.badPos] == 0
    ensures PageBad(c, page)
  {
    assert Hweight(0) == 0;
  }

  /** Two zero bytes over the marker position make the page's marker zero. */
  lemma ZeroedMarker(c: Config, env: Env, cells: seq<Page>, k: nat, q: nat)
    requires ValidEnv(c, env) && ValidCells(c, cells)
    ensures var w := WriteOobOnly(c, env, cells, k, q, Place, c.badPos / 2 * 2, [0, 0]);
            w.ret.Ok? ==> q < |cells| && PageBad(c, w.cells[q])
  {
    var offs := c.badPos / 2 * 2;
    var w := WriteOobOnly(c, env, cells, k, q, Place, offs, [0, 0]);
    if w.ret.Ok? {
      var fill := FillSpare(c, Blank(c.oobSize), Place, offs, [0, 0]);
      SlotsWithin(c.free, c.oobSize, Place);
      RangeSlice(c.oobSize, offs, 2);
      var zeros: seq<byte> := [0, 0];
      ScatterRange(Blank(c.oobSize), offs, zeros);
      assert fill[c.badPos] == 0;
      var bits := Blank(c.ws) + fill;
      AndAt(cells[q], bits, c.ws + c.badPos);
      AndZero(cells[q][c.ws + c.badPos]);
      ZeroIsBad(c, w.cells[q]);
    }
  }

  lemma AndZero(x: byte)
    ensures x & 0 == 0
  {
  }

  /** The marker page of a page's block, after a successful mark of that page, when it was not bad before */
  lemma MarkedPage(c: Config, env: Env, cells: seq<Page>, q: nat)
    requires ValidEnv(c, env) && ValidCells(c, cells) && MarkPages(c, env, cells, 0, q, 0).ret.Ok?
    ensures q < |cells| && PageBad(c, MarkPages(c, env, cells, 0, q, 0).cells[q])
  {
    var w := WriteOobOnly(c, env, cells, 0, q, Place, c.badPos / 2 * 2, [0, 0]);
    ZeroedMarker(c, env, cells, 0, q);
    var w6 := if w.ret.Ok? && c.scanByte1And6 then WriteOobOnly(c, env, w.cells, 1, q, Place, 4, [0, 0]) else w;
    OobLower(c, env, w.cells, 1, q, Place, 4, [0, 0]);
    LowerSelf(w.cells);
    MarkStays(c, w6.cells[q], w.cells[q]);
    if w6.ret.Ok? && c.scan2ndPage {
      MarkLower(c, env, w6.cells, 2, q + 1, 1);
      MarkStays(c, MarkPages(c, env, w6.cells, 2, q + 1, 1).cells[q], w6.cells[q]);
    }
  }

  /** A successful nand_block_markbad at an offset in a block's first page leaves the block's marker bad. */
  lemma MarkingMarks(c: Config, env: Env, cells: seq<Page>, p: nat)
    requires ValidEnv(c, env) && ValidCells(c, cells) && p + c.ppb <= |cells| && p % c.ppb == 0
    requires MarkBad(c, env, cells, p).ret.Ok?
    ensures BlockBadAt(c, MarkBad(c, env, cells, p).cells, p)
  {
    ScanAligned(c, p);
    if !BlockBadAt(c, cells, p) {
      MarkedPage(c, env, cells, MarkPage(c, p));
    }
  }

  /** Marking touches no page before the one it starts at. */
  lemma {:induction false} MarkLeaves(c: Config, env: Env, cells: seq<Page>, k: nat, q: nat, i: nat, x: nat)
    requires ValidEnv(c, env) && ValidCells(c, cells) && i < 2 && x < q && x < |cells|
    ensures MarkPages(c, env, cells, k, q, i).cells[x] == cells[x]
    decreases 2 - i
  {
    var w := WriteOobOnly(c, env, cells, k, q, Place, c.badPos / 2 * 2, [0, 0]);
    var w6 := if w.ret.Ok? && c.scanByte1And6 then WriteOobOnly(c, env, w.cells, k + 1, q, Place, 4, [0, 0]) else w;
    assert w6.cells[x] == cells[x];
    if w6.ret.Ok? && c.scan2ndPage && i + 1 < 2 {
      MarkLeaves(c, env, w6.cells, k + 2, q + 1, i + 1, x);
    }
  }

  /** The first page of the block of page p */
  function BlockOf(c: Config, p: nat): nat {
    Floor(p, c.ppb, p / c.ppb, p % c.ppb);
    p - p % c.ppb
  }

  lemma BlockOfFits(c: Config, p: nat, n: nat)
    requires p < n && n == Times(c.numChips, c.ppc)
    ensures BlockOf(c, p) % c.ppb == 0 && BlockOf(c, p) + c.ppb <= n
  {
    var blocks := WholeBlocks(c, n);
    Floor(p, c.ppb, p / c.ppb, p % c.ppb);
    RoomForOne(BlockOf(c, p), c.ppb, blocks);
  }

  lemma Floor(x: nat, d: nat, q: nat, r: nat)
    requires d > 0 && q == x / d && r == x % d
    ensures 0 <= x - r && (x - r) % d == 0
  {
    DivMod(x, d);
    ModOfSum(q, 0, d);
  }

  /** A device is a whole number of blocks. */
  lemma WholeBlocks(c: Config, n: nat) returns (blocks: nat)
    requires n == Times(c.numChips, c.ppc)
    ensures n == blocks * c.ppb
  {
    TimesIsProduct(c.numChips, c.ppc);
    Pow2Add(c.chipShift - c.eraseShift, c.eraseShift - c.pageShift);
    blocks := c.numChips * Pow2(c.chipShift - c.eraseShift);
    ProductAssoc(c.numChips, Pow2(c.chipShift - c.eraseShift), c.ppb);
  }

  /**
   A nand_block_markbad that reports success establishes the mark of a good block exactly when the offset lies in the
   block's first page: any other offset marks another page.
   */
  lemma MarkExact(c: Config, env: Env, cells: seq<Page>, p: nat)
    requires ValidEnv(c, env) && ValidCells(c, cells) && p < |cells|
    ensures BlockOf(c, p) + c.ppb <= |cells|
    ensures MarkBad(c, env, cells, p).ret.Ok? && !BlockBadAt(c, cells, BlockOf(c, p)) ==>
              (BlockBadAt(c, MarkBad(c, env, cells, p).cells, BlockOf(c, p)) <==> p % c.ppb == 0)
  {
    var b := BlockOf(c, p);
    BlockOfFits(c, p, |cells|);
    if p % c.ppb == 0 {
      if MarkBad(c, env, cells, p).ret.Ok? {
        MarkingMarks(c, env, cells, p);
      }
    } else {
      MarkLeaves(c, env, cells, 0, MarkPage(c, p), 0, MarkPage(c, b));
    }
  }
}
