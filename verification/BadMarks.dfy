/** Bad-block marks at the level of their bytes: when a page reads bad, where an erase stops, and what marking writes. */
module BadMarks {
  import opened Bytes
  import opened Counting
  import opened Geometry
  import opened OobLayout
  import opened NandSpec
  import opened NandRequests
  import opened EraseLaws
  import opened BadBlockLaws
  import opened PageCache
  import opened OobWriteLaws

  /** The byte that carries a page's mark */
  function MarkByte(c: Config, page: Page): byte
    requires |page| == c.ws + c.oobSize
  {
    page[c.ws + c.badPos]
  }

  /** A page reads bad exactly when fewer than badBits bits of its mark are set; with eight, when the mark is not 0xFF. */
  lemma MarkByteExact(c: Config, page: Page)
    requires |page| == c.ws + c.oobSize
    ensures PageBad(c, page) <==> |SetBits(MarkByte(c, page))| < c.badBits
    ensures c.badBits == 8 ==> (PageBad(c, page) <==> MarkByte(c, page) != 0xFF)
  {
    HweightCounts(MarkByte(c, page));
    AllBitsSet(MarkByte(c, page));
  }

  /** The mark of the block at page p: in its first page, or in its last */
  function BlockMark(c: Config, cells: seq<Page>, p: nat): byte
    requires ValidCells(c, cells) && p + c.ppb <= |cells|
  {
    MarkByte(c, cells[if c.scanLastPage then p + c.ppb - 1 else p])
  }

  ghost predicate GoodMark(c: Config, mark: byte) {
    if c.badBits == 8 then mark == 0xFF else |SetBits(mark)| >= c.badBits
  }

  lemma BlockMarkExact(c: Config, cells: seq<Page>, p: nat)
    requires ValidCells(c, cells) && p + c.ppb <= |cells|
    ensures BlockBadAt(c, cells, p) <==> !GoodMark(c, BlockMark(c, cells, p))
  {
    MarkByteExact(c, cells[MarkPage(c, p)]);
  }

  // ---------------------------------------------------------------- erase

  /** Every block an erase has done carried a good mark, */
  lemma ErasedHadGoodMark(c: Config, env: Env, cells: seq<Page>, k: nat, p: nat, n: nat, b: nat, at: nat)
    requires ValidEnv(c, env) && ValidCells(c, cells) && p + Times(n, c.ppb) <= |cells|
    requires b < EraseBlocks(c, env, cells, k, p, n).done && at == p + Times(b, c.ppb)
    ensures at + c.ppb <= |cells| && GoodMark(c, BlockMark(c, cells, at)) && !EraseFails(env, k + b)
  {
    ErasedWereGood(c, env, cells, k, p, n, b);
    WasGoodMark(c, env, cells, k, p, b, at);
  }

  lemma WasGoodMark(c: Config, env: Env, cells: seq<Page>, k: nat, p: nat, b: nat, at: nat)
    requires ValidEnv(c, env) && ValidCells(c, cells) && WasGood(c, env, cells, k, p, b) && at == p + Times(b, c.ppb)
    ensures at + c.ppb <= |cells| && GoodMark(c, BlockMark(c, cells, at)) && !EraseFails(env, k + b)
  {
    BlockMarkExact(c, cells, at);
  }

  /** Why an erase of n blocks stopped at page `at` */
  ghost predicate StopsAt(c: Config, env: Env, cells: seq<Page>, k: nat, n: nat, at: nat, r: EraseOut)
    requires ValidCells(c, cells)
  {
    && (r.ret.Ok? <==> r.done == n) && (r.ret.Ok? ==> r.failPage == -1)
    && (!r.ret.Ok? ==> && r.ret.EIo? && r.done < n && at + c.ppb <= |cells|
                       && if GoodMark(c, BlockMark(c, cells, at)) then EraseFails(env, k + r.done) && r.failPage == at
                          else r.failPage == -1)
  }

  /** and it stops short exactly at a bad mark, or at an erase that fails. */
  lemma EraseStopsAtMark(c: Config, env: Env, cells: seq<Page>, k: nat, p: nat, n: nat, at: nat)
    requires ValidEnv(c, env) && ValidCells(c, cells) && p + Times(n, c.ppb) <= |cells|
    requires at == p + Times(EraseBlocks(c, env, cells, k, p, n).done, c.ppb)
    ensures StopsAt(c, env, cells, k, n, at, EraseBlocks(c, env, cells, k, p, n))
  {
    EraseStopExact(c, env, cells, k, p, n);
    if !EraseBlocks(c, env, cells, k, p, n).ret.Ok? {
      BlockMarkExact(c, cells, at);
    }
  }

  lemma BlockBytes(c: Config)
    ensures Pow2(c.eraseShift) == c.ppb * c.ws
  {
    Pow2Add(c.eraseShift - c.pageShift, c.pageShift);
  }

  /** check_offs_len accepts exactly whole blocks inside the device. */
  lemma AcceptedExactly(c: Config, n: nat, addr: nat, len: nat, size: nat)
    requires size == Pow2(c.eraseShift)
    ensures size > 0
    ensures EraseAccepted(c, n, addr, len) <==> addr % size == 0 && len % size == 0 && addr + len <= n * c.ws
  {
    MaskAndShift(addr, c.eraseShift);
    MaskAndShift(len, c.eraseShift);
  }

  /** The offset of the block after `done` blocks */
  lemma BlockOffset(c: Config, addr: nat, p: nat, done: nat, at: nat, size: nat)
    requires p * c.ws == addr && at == p + Times(done, c.ppb) && size == Pow2(c.eraseShift)
    ensures at * c.ws == addr + done * size
  {
    BlockBytes(c);
    TimesIsProduct(done, c.ppb);
    Distribute(p, done, c.ppb, c.ws);
  }

  lemma Distribute(p: nat, done: nat, ppb: nat, ws: nat)
    ensures (p + done * ppb) * ws == p * ws + done * (ppb * ws)
  {
    ProductAssoc(done, ppb, ws);
    var m := done * ppb;
    assert (p + m) * ws == p * ws + m * ws;
  }

  /**
   What an erase of `len` bytes from addr on comes to: `done` blocks are erased; the call stops short at a bad mark with an
   unknown fail address, or at a failed erase with the offset of that block. Page `at` is where it stopped.
   */
  ghost predicate ErasedUpTo(c: Config, env: Env, cells: seq<Page>, addr: nat, len: nat, bytes: nat, done: nat, at: nat, r: Effect)
    requires ValidCells(c, cells)
  {
    && at * c.ws == addr + bytes && bytes <= len && (r.ret.Ok? <==> bytes == len)
    && (r.ret.Ok? ==> r.count == -1)
    && (!r.ret.Ok? ==> && r.ret.EIo? && at + c.ppb <= |cells|
                       && if GoodMark(c, BlockMark(c, cells, at)) then EraseFails(env, done) && r.count == addr + bytes
                          else r.count == -1)
  }

  /** nand_erase_nand on a range of whole blocks */
  lemma EraseRequestExact(c: Config, e: Event, cells: seq<Page>, addr: nat, len: nat, q: nat, size: nat)
    returns (done: nat, at: nat, bytes: nat)
    requires ValidEvent(c, |cells|, e) && ValidCells(c, cells) && !e.env.protected && q < |cells|
    requires size == Pow2(c.eraseShift) > 0 && len > 0
    requires addr % size == 0 && len % size == 0 && addr + len <= |cells| * c.ws
    ensures bytes == done * size
    ensures ErasedUpTo(c, e.env, cells, addr, len, bytes, done, at, ApplyErase(c, e, cells, addr, len))
    ensures addr <= q * c.ws < addr + bytes ==> ApplyErase(c, e, cells, addr, len).cells[q] == Blank(c.ws + c.oobSize)
  {
    AcceptedExactly(c, |cells|, addr, len, size);
    EraseFits(c, |cells|, addr, len);
    var p, n := PageOf(c, addr), BlockCount(c, len);
    var r := EraseBlocks(c, e.env, cells, 0, p, n);
    done, bytes, at := r.done, r.done * size, p + Times(r.done, c.ppb);
    EraseStopsAtMark(c, e.env, cells, 0, p, n, at);
    DoneBytes(done, n, size, len);
    BlockOffset(c, addr, p, done, at, size);
    UpTo(c, e.env, cells, addr, len, n, bytes, at, r, ApplyErase(c, e, cells, addr, len));
    if addr <= q * c.ws < addr + bytes {
      InBytes(c.ws, p, addr, at, addr + bytes, q);
      ErasePageExact(c, e.env, cells, 0, p, n, q);
    }
  }

  lemma UpTo(c: Config, env: Env, cells: seq<Page>, addr: nat, len: nat, n: nat, bytes: nat, at: nat, r: EraseOut, a: Effect)
    requires ValidCells(c, cells) && at * c.ws == addr + bytes && bytes <= len && (bytes == len <==> r.done == n)
    requires StopsAt(c, env, cells, 0, n, at, r) && a == Effect(r.cells, r.ret, FailAddr(c, r.failPage))
    ensures ErasedUpTo(c, env, cells, addr, len, bytes, r.done, at, a)
  {
  }

  lemma DoneBytes(done: nat, n: nat, size: nat, len: nat)
    requires len == Times(n, size) && size > 0 && done <= n
    ensures done * size <= len && (done * size == len <==> done == n)
  {
    TimesIsProduct(n, size);
    MulMono(done, n, size);
    if done < n {
      MulMono(done + 1, n, size);
      assert (done + 1) * size == done * size + size;
    }
  }

  lemma InBytes(ws: nat, p: nat, addr: nat, at: nat, end: nat, q: nat)
    requires ws > 0 && p * ws == addr && at * ws == end && addr <= q * ws < end
    ensures p <= q < at
  {
    if q < p {
      MulStrict(q, p, ws);
    }
    if q >= at {
      MulMono(at, q, ws);
    }
  }

  // ---------------------------------------------------------------- marking

  /** The two bytes at offs of a page's OOB area are zero. */
  predicate ZeroAt(c: Config, page: Page, offs: nat) {
    c.ws + offs + 1 < |page| && page[c.ws + offs] == 0 && page[c.ws + offs + 1] == 0
  }

  /** A successful write of two zero bytes zeroes them, and nothing else changes in the device. */
  lemma ZeroesWritten(c: Config, env: Env, cells: seq<Page>, k: nat, q: nat, offs: nat, x: nat, j: nat)
    requires ValidEnv(c, env) && ValidCells(c, cells) && x < |cells| && j < c.ws + c.oobSize
    ensures var w := WriteOobOnly(c, env, cells, k, q, Place, offs, [0, 0]);
            && (w.ret.Ok? ==> q < |cells| && ZeroAt(c, w.cells[q], offs))
            && (w.ret.Ok? && !(x == q && c.ws + offs <= j < c.ws + offs + 2) ==> w.cells[x][j] == cells[x][j])
            && (x != q ==> w.cells[x] == cells[x])
  {
    var zeros: seq<byte> := [0, 0];
    OobWriteErrors(c, env, cells, k, q, Place, offs, zeros, x);
    if WriteOobOnly(c, env, cells, k, q, Place, offs, zeros).ret.Ok? {
      forall i | 0 <= i < c.oobSize ensures Slots(c.free, c.oobSize, Place)[i] == i {
        PlaceSlotAt(c.free, c.oobSize, Place, i);
      }
      ZeroWritten(c, env, cells, k, q, offs, 0);
      ZeroWritten(c, env, cells, k, q, offs, 1);
      if x == q && !(c.ws + offs <= j < c.ws + offs + 2) {
        OobWriteRest(c, env, cells, k, q, Place, offs, zeros, j);
      }
    }
  }

  lemma ZeroWritten(c: Config, env: Env, cells: seq<Page>, k: nat, q: nat, offs: nat, i: nat)
    requires ValidEnv(c, env) && ValidCells(c, cells) && i < 2
    requires WriteOobOnly(c, env, cells, k, q, Place, offs, [0, 0]).ret.Ok?
    ensures q < |cells| && offs + i < c.oobSize
    ensures WriteOobOnly(c, env, cells, k, q, Place, offs, [0, 0]).cells[q][c.ws + offs + i] == 0
  {
    var zeros: seq<byte> := [0, 0];
    OobWriteErrors(c, env, cells, k, q, Place, offs, zeros, q);
    PlaceSlotAt(c.free, c.oobSize, Place, offs + i);
    PlaceClient(c, env, cells, k, q, offs, zeros, i);
    AndZero(cells[q][c.ws + offs + i]);
  }

  /** Outside AUTO mode regions do not matter. */
  lemma PlaceClient(c: Config, env: Env, cells: seq<Page>, k: nat, p: nat, offs: nat, oob: seq<byte>, i: nat)
    requires ValidEnv(c, env) && ValidCells(c, cells) && i < |oob|
    requires OobAccepted(c, |cells|, p, Place, offs, |oob|) && !env.protected && !ProgFails(env, k)
    ensures offs + i < c.oobSize
    ensures WriteOobOnly(c, env, cells, k, p, Place, offs, oob).cells[p][c.ws + offs + i] == cells[p][c.ws + offs + i] & oob[i]
  {
    var pos := Slots(c.free, c.oobSize, Place)[offs..offs + |oob|];
    RangeSlice(c.oobSize, offs, |oob|);
    RangeWithin(offs, |oob|, c.oobSize);
    ScatterRange(Blank(c.oobSize), offs, oob);
    OobProgrammed(c, env, cells, k, p, Place, offs, oob, c.ws + offs + i, FillSpare(c, Blank(c.oobSize), Place, offs, oob),
                  ProgramOob(c, env, cells, k, p, Place, offs, oob));
  }

  /** The marks of one page: at the marker position, and at bytes 4 and 5 if those are scanned too */
  ghost predicate FullyMarked(c: Config, page: Page) {
    ZeroAt(c, page, c.badPos / 2 * 2) && (c.scanByte1And6 ==> ZeroAt(c, page, 4))
  }

  lemma ZeroStays(c: Config, page': Page, page: Page, offs: nat)
    requires ZeroAt(c, page, offs) && Below(page', page)
    ensures ZeroAt(c, page', offs)
  {
    AndZero(page'[c.ws + offs]);
    AndZero(page'[c.ws + offs + 1]);
  }

  lemma MarksStay(c: Config, cells': seq<Page>, cells: seq<Page>, q: nat)
    requires Lower(cells', cells) && q < |cells| && FullyMarked(c, cells[q])
    ensures FullyMarked(c, cells'[q])
  {
    ZeroStays(c, cells'[q], cells[q], c.badPos / 2 * 2);
    if c.scanByte1And6 {
      ZeroStays(c, cells'[q], cells[q], 4);
    }
  }

  /** Both marker positions of one page */
  function MarkBoth(c: Config, env: Env, cells: seq<Page>, k: nat, q: nat): (r: CellsRet)
    requires ValidEnv(c, env) && ValidCells(c, cells)
    ensures ValidCells(c, r.cells)
  {
    var w := WriteOobOnly(c, env, cells, k, q, Place, c.badPos / 2 * 2, [0, 0]);
    if w.ret.Ok? && c.scanByte1And6 then WriteOobOnly(c, env, w.cells, k + 1, q, Place, 4, [0, 0]) else w
  }

  lemma PageMarked(c: Config, env: Env, cells: seq<Page>, k: nat, q: nat, r: CellsRet)
    requires ValidEnv(c, env) && ValidCells(c, cells) && r == MarkBoth(c, env, cells, k, q) && r.ret.Ok?
    ensures q < |cells| && FullyMarked(c, r.cells[q])
  {
    var w := WriteOobOnly(c, env, cells, k, q, Place, c.badPos / 2 * 2, [0, 0]);
    FirstMark(c, env, cells, k, q);
    if c.scanByte1And6 {
      SecondMark(c, env, w.cells, k + 1, q);
    }
  }

  lemma FirstMark(c: Config, env: Env, cells: seq<Page>, k: nat, q: nat)
    requires ValidEnv(c, env) && ValidCells(c, cells)
    ensures var w := WriteOobOnly(c, env, cells, k, q, Place, c.badPos / 2 * 2, [0, 0]);
            w.ret.Ok? ==> q < |cells| && ZeroAt(c, w.cells[q], c.badPos / 2 * 2)
  {
    SizeOfDevice(c, cells);
    ZeroesWritten(c, env, cells, k, q, c.badPos / 2 * 2, 0, 0);
  }

  lemma SizeOfDevice(c: Config, cells: seq<Page>)
    requires ValidCells(c, cells)
    ensures |cells| > 0
  {
    TimesIsProduct(c.numChips, c.ppc);
  }

  lemma SecondMark(c: Config, env: Env, cells: seq<Page>, k: nat, q: nat)
    requires ValidEnv(c, env) && ValidCells(c, cells) && q < |cells| && ZeroAt(c, cells[q], c.badPos / 2 * 2)
    ensures var w := WriteOobOnly(c, env, cells, k, q, Place, 4, [0, 0]);
            w.ret.Ok? ==> ZeroAt(c, w.cells[q], c.badPos / 2 * 2) && ZeroAt(c, w.cells[q], 4)
  {
    ZeroesWritten(c, env, cells, k, q, 4, q, 0);
    OobLower(c, env, cells, k, q, Place, 4, [0, 0]);
    ZeroStays(c, WriteOobOnly(c, env, cells, k, q, Place, 4, [0, 0]).cells[q], cells[q], c.badPos / 2 * 2);
  }

  /** A successful mark leaves the marks of its page, and of the next one if two are scanned, zero. */
  lemma MarksAreZero(c: Config, env: Env, cells: seq<Page>, q: nat, r: CellsRet)
    requires ValidEnv(c, env) && ValidCells(c, cells) && r == MarkPages(c, env, cells, 0, q, 0) && r.ret.Ok?
    ensures q < |cells| && FullyMarked(c, r.cells[q])
    ensures c.scan2ndPage ==> q + 1 < |cells| && FullyMarked(c, r.cells[q + 1])
  {
    var w := MarkBoth(c, env, cells, 0, q);
    PageMarked(c, env, cells, 0, q, w);
    if c.scan2ndPage {
      var w' := MarkBoth(c, env, w.cells, 2, q + 1);
      assert MarkPages(c, env, w.cells, 2, q + 1, 1) == w';
      PageMarked(c, env, w.cells, 2, q + 1, w');
      MarkLower(c, env, w.cells, 2, q + 1, 1);
      MarksStay(c, r.cells, w.cells, q);
    }
  }

  /** A byte that marking writes in the page it marks */
  predicate MarkColumn(c: Config, j: nat) {
    || c.ws + c.badPos / 2 * 2 <= j < c.ws + c.badPos / 2 * 2 + 2
    || (c.scanByte1And6 && c.ws + 4 <= j < c.ws + 6)
  }

  /** Whatever comes of it, marking one page leaves the others alone, and on success all other bytes of that page too. */
  lemma OnlyMarked(c: Config, env: Env, cells: seq<Page>, k: nat, q: nat, r: CellsRet, x: nat, j: nat)
    requires ValidEnv(c, env) && ValidCells(c, cells) && r == MarkBoth(c, env, cells, k, q)
    requires x < |cells| && j < c.ws + c.oobSize
    ensures x != q ==> r.cells[x] == cells[x]
    ensures r.ret.Ok? && !MarkColumn(c, j) ==> r.cells[x][j] == cells[x][j]
  {
    var w := WriteOobOnly(c, env, cells, k, q, Place, c.badPos / 2 * 2, [0, 0]);
    ZeroesWritten(c, env, cells, k, q, c.badPos / 2 * 2, x, j);
    if w.ret.Ok? && c.scanByte1And6 {
      ZeroesWritten(c, env, w.cells, k + 1, q, 4, x, j);
    }
  }

  /** A mark changes its page, and the next one only if two are scanned; a successful one changes marks only. */
  lemma MarkFrame(c: Config, env: Env, cells: seq<Page>, q: nat, r: CellsRet, x: nat, j: nat)
    requires ValidEnv(c, env) && ValidCells(c, cells) && r == MarkPages(c, env, cells, 0, q, 0)
    requires x < |cells| && j < c.ws + c.oobSize
    ensures x != q && !(c.scan2ndPage && x == q + 1) ==> r.cells[x] == cells[x]
    ensures r.ret.Ok? && !MarkColumn(c, j) ==> r.cells[x][j] == cells[x][j]
  {
    var w := MarkBoth(c, env, cells, 0, q);
    OnlyMarked(c, env, cells, 0, q, w, x, j);
    if w.ret.Ok? && c.scan2ndPage {
      var w' := MarkBoth(c, env, w.cells, 2, q + 1);
      assert MarkPages(c, env, w.cells, 2, q + 1, 1) == w';
      OnlyMarked(c, env, w.cells, 2, q + 1, w', x, j);
    }
  }
}
