/** Whole writes with an OOB buffer: where the client's bytes are afterwards, and how they are read back. */
module SpareReadBack {
  import opened Bytes
  import opened Geometry
  import opened OobLayout
  import opened NandSpec
  import opened NandRequests
  import opened PageCache
  import opened WriteLaws
  import opened OobShares
  import opened ReadLaws
  import opened OobWriteLaws
  import opened SpareLaws
  import opened SwEcc
  import opened SwNand
  import opened NandDriver

  /** Software ECC lets every OOB byte through that is not one of its codes, */
  lemma SwPasses(c: Config, e: Ecc, mode: Mode, x: nat)
    requires SwDevice(c, e) && x < c.oobSize && x !in e.pos
    ensures Passes(c, mode, x)
  {
    forall d: seq<byte>, o: seq<byte> ensures KeepsByte(c, d, o, x) {
      if |d| == c.ws && |o| == c.oobSize {
        ScatterOther(o, e.pos, Codes(e, d, e.steps), x);
        assert Encode(c, d, o) == SwEncode(e, d, o);
      }
    }
  }

  /** and hands the OOB area out as it is. */
  lemma SwDelivers(c: Config, e: Ecc)
    requires SwDevice(c, e)
    ensures DeliversOob(c)
  {
    forall page: Page | |page| == c.ws + c.oobSize ensures Decode(c, page).oob == page[c.ws..] {
      assert Decode(c, page) == SwDecode(e, page);
    }
  }

  // ---------------------------------------------------------------- the request

  /**
   A write is carried out exactly if it starts and ends at subpages, and at pages if it has an OOB buffer, the chip is not
   protected, and OOB bytes that do not start at 0 fit into one page.
   */
  lemma AcceptedWrites(c: Config, to: nat, len: nat, mode: Mode, ow: OobWrite, env: Env, avail: nat)
    requires avail == |Slots(c.free, c.oobSize, mode)|
    ensures c.subpageSize > 0 && c.ws > 0
    ensures WriteChecks(c, to, len, mode, ow, env).Ok? <==>
              && to % c.subpageSize == 0 && len % c.subpageSize == 0
              && (ow.OobWrite? ==> to % c.ws == 0 && len % c.ws == 0)
              && !env.protected && (ow.OobWrite? && ow.offs != 0 ==> ow.offs + |ow.bytes| <= avail)
  {
    ChecksAre(c, to, len, mode, ow, env);
  }

  /**
   Every aligned write with OOB bytes that fit is carried out, and client byte t is then ANDed into slot t % avail of page
   t / avail of the write, as far as the data bytes were written.
   */
  lemma OobRequestByte(c: Config, e: Event, cells: seq<Page>, to: nat, data: seq<byte>, mode: Mode, ow: OobWrite,
                       slots: seq<nat>, t: nat, i: nat, s: nat, x: nat, q: nat)
    requires ValidEvent(c, |cells|, e) && ValidCells(c, cells) && InDevice(c, |cells|, to, |data|) && data != []
    requires RequestAligned(c, to, |data|, ow) && !e.env.protected && ow.OobWrite?
    requires ow.offs == 0 || ow.offs + |ow.bytes| <= |slots|
    requires AtSlot(c, mode, ow, slots, s, x) && slots != [] && t < |ow.bytes| && i == t / |slots| && s == t % |slots|
    requires q == PageOf(c, to) + i < |cells|
    ensures var r := ApplyWrite(c, e, cells, to, data, mode, ow);
            0 <= r.count <= |data| && r.ret == (if r.count == |data| then Ok else EIo)
    ensures var r := ApplyWrite(c, e, cells, to, data, mode, ow);
            i * c.ws < r.count ==> r.cells[q][c.ws + x] == cells[q][c.ws + x] & ow.bytes[t]
  {
    ChecksAre(c, to, |data|, mode, ow, e.env);
    RequestFits(c, |cells|, to, |data|);
    ChecksFit(c, to, |data|, mode, ow, e.env);
    WholePage(c, to, |data|, ow);
    ProgrammedIs(c, e.env, cells, PageOf(c, to), data, mode, ow, e.staged, i, q);
    if i * c.ws < WritePages(c, e.env, cells, 0, PageOf(c, to), 0, data, mode, ow, e.staged).done {
      ClientByteIs(c, e.env, cells, 0, PageOf(c, to), 0, data, mode, ow, e.staged, slots, t, i, s, x, q);
    }
  }

  lemma WholePage(c: Config, to: nat, len: nat, ow: OobWrite)
    requires RequestAligned(c, to, len, ow) && ow.OobWrite?
    ensures ColOf(c, to) == 0
  {
    MaskAndShift(to, c.pageShift);
  }

  lemma ProgrammedIs(c: Config, env: Env, cells: seq<Page>, p: nat, data: seq<byte>, mode: Mode, ow: OobWrite,
                     spare: seq<byte>, i: nat, q: nat)
    requires Writing(c, env, cells, p, 0, data, mode, ow, spare) && q == p + i < |cells|
    ensures Programmed(c, env, cells, 0, p, 0, data, mode, ow, spare, i, q) <==>
            i * c.ws < WritePages(c, env, cells, 0, p, 0, data, mode, ow, spare).done
  {
    TurnedIs(c.ws, 0, WritePages(c, env, cells, 0, p, 0, data, mode, ow, spare).done, i);
    MulMono(0, i, c.ws);
  }

  // ---------------------------------------------------------------- reading back

  /** A successful write of whole pages whose OOB areas are erased, and the client's OOB bytes fit them */
  ghost predicate FreshPages(c: Config, env: Env, cells: seq<Page>, p: nat, data: seq<byte>, mode: Mode, ow: OobWrite,
                             spare: seq<byte>, slots: seq<nat>, pages: nat)
  {
    && Writing(c, env, cells, p, 0, data, mode, ow, spare) && ow.OobWrite? && DisjointRegions(c.free)
    && WritePages(c, env, cells, 0, p, 0, data, mode, ow, spare).ret.Ok?
    && slots == Slots(c.free, c.oobSize, mode) && slots != []
    && pages == PagesRead(c.ws, 0, |data|) && |ow.bytes| <= pages * |slots|
    && (forall j :: SlotPasses(c, mode, slots, j))
    && (forall q :: SpareErased(c, cells, p, pages, q))
    && (mode.Raw? || DeliversOob(c))
  }

  ghost predicate SlotPasses(c: Config, mode: Mode, slots: seq<nat>, j: int) {
    0 <= j < |slots| ==> Passes(c, mode, slots[j])
  }

  ghost predicate SpareErased(c: Config, cells: seq<Page>, p: nat, pages: nat, q: int) {
    p <= q < p + pages && q < |cells| ==> ErasedSpare(c, cells[q])
  }

  /** Byte t is that of slot s of page i. */
  lemma SlotOfByte(avail: nat, offs: nat, n: nat, pages: nat, t: nat) returns (i: nat, s: nat)
    requires avail > 0 && t < n <= pages * avail && offs + Min(n, avail) <= avail
    ensures t == i * avail + s && s < avail && i < pages && offs + s < avail && At(avail, offs, n, i, s, t)
  {
    i, s := t / avail, t % avail;
    PageOfByte(avail, pages, t, i, s);
    if offs > 0 {
      OnePageOnly(avail, t, i, s);
    } else {
      AtFull(avail, n, i, s, t);
    }
  }

  lemma OnePageOnly(avail: nat, t: nat, i: nat, s: nat)
    requires t < avail && t == i * avail + s
    ensures i == 0 && s == t
  {
    if i > 0 {
      MulMono(1, i, avail);
    }
  }

  lemma {:induction false} NothingLeft(avail: nat, offs: nat, pages: nat)
    ensures Delivered(avail, offs, 0, pages) == 0
    decreases pages
  {
    if pages > 0 {
      NothingLeft(avail, offs, pages - 1);
    }
  }

  lemma AllDelivered(avail: nat, offs: nat, n: nat, pages: nat)
    requires avail > 0 && pages > 0 && n <= pages * avail && offs + Min(n, avail) <= avail
    ensures Delivered(avail, offs, n, pages) == n
  {
    if offs == 0 {
      DeliveredIs(avail, n, pages);
    } else {
      NothingLeft(avail, offs, pages - 1);
    }
  }

  lemma {:induction false} PagesInside(ws: nat, n: nat, p: nat, col: nat, len: nat)
    requires col < ws && p < n && len <= Room(ws, n, p, col)
    ensures p + PagesRead(ws, col, len) <= n
    decreases len
  {
    if len > ws - col {
      PagesInside(ws, n, p + 1, 0, len - (ws - col));
    }
  }

  /** The read that follows the write can be made, and delivers as many OOB bytes as were written. */
  lemma ReadAgain(c: Config, env: Env, cells: seq<Page>, p: nat, data: seq<byte>, mode: Mode, ow: OobWrite,
                  spare: seq<byte>, slots: seq<nat>, pages: nat, cells': seq<Page>, oq: OobRead)
    requires FreshPages(c, env, cells, p, data, mode, ow, spare, slots, pages)
    requires cells' == WritePages(c, env, cells, 0, p, 0, data, mode, ow, spare).cells && oq == OobRead(ow.offs, |ow.bytes|)
    ensures CanRead(c, cells', p, 0, |data|, mode, oq) && p + pages <= |cells|
    ensures |ReadPages(c, cells', p, 0, |data|, mode, oq).oob| == |ow.bytes|
  {
    PagesInside(c.ws, |cells|, p, 0, |data|);
    OobLength(c, cells', p, 0, |data|, mode, ow.offs, |ow.bytes|, slots, pages);
    AllDelivered(|slots|, ow.offs, |ow.bytes|, pages);
  }

  /** The pages the read touches have all been programmed. */
  lemma AllProgrammed(c: Config, env: Env, cells: seq<Page>, p: nat, data: seq<byte>, mode: Mode, ow: OobWrite,
                      spare: seq<byte>, slots: seq<nat>, pages: nat, i: nat, q: nat)
    requires FreshPages(c, env, cells, p, data, mode, ow, spare, slots, pages) && i < pages && q == p + i < |cells|
    ensures Programmed(c, env, cells, 0, p, 0, data, mode, ow, spare, i, q)
  {
    PageBelow(c.ws, |data|, pages, i);
    ProgrammedIs(c, env, cells, p, data, mode, ow, spare, i, q);
  }

  lemma PageBelow(ws: nat, len: nat, pages: nat, i: nat)
    requires ws > 0 && len > 0 && pages == PagesRead(ws, 0, len) && i < pages
    ensures i * ws < len
  {
    PagesReadIs(ws, 0, len);
    MulMono(i, pages - 1, ws);
  }

  /** The client's byte is in its place. */
  ghost predicate Stored(c: Config, cells: seq<Page>, q: nat, x: nat, b: byte) {
    q < |cells| && x < c.oobSize && |cells[q]| == c.ws + c.oobSize && cells[q][c.ws + x] == b
  }

  lemma WrittenByte(c: Config, env: Env, cells: seq<Page>, p: nat, data: seq<byte>, mode: Mode, ow: OobWrite,
                    spare: seq<byte>, slots: seq<nat>, pages: nat, t: nat, i: nat, s: nat, x: nat, q: nat)
    requires FreshPages(c, env, cells, p, data, mode, ow, spare, slots, pages) && t < |ow.bytes|
    requires t == i * |slots| + s && i < pages && q == p + i < |cells| && s < |slots| && ow.offs + s < |slots|
    requires x == slots[ow.offs + s]
    ensures Stored(c, WritePages(c, env, cells, 0, p, 0, data, mode, ow, spare).cells, q, x, ow.bytes[t])
  {
    AllProgrammed(c, env, cells, p, data, mode, ow, spare, slots, pages, i, q);
    assert SlotPasses(c, mode, slots, ow.offs + s);
    ClientByteAt(c, env, cells, 0, p, 0, data, mode, ow, spare, slots, t, i, s, x, q);
    assert SpareErased(c, cells, p, pages, q);
    ErasedByteAt(c, cells[q], x);
    FromErased(ow.bytes[t]);
  }

  lemma ErasedByteAt(c: Config, page: Page, x: nat)
    requires ErasedSpare(c, page) && x < c.oobSize
    ensures page[c.ws + x] == ERASED
  {
    assert page[c.ws + x] == page[c.ws..][x];
    BlankAt(c.oobSize, x);
  }

  /** Client byte t is in the flash where a read of the client's bytes from page p on looks for it. */
  ghost predicate Kept(c: Config, cells: seq<Page>, p: nat, slots: seq<nat>, offs: nat, bytes: seq<byte>, pages: nat, t: nat) {
    t < |bytes| && exists i: nat, s: nat :: KeptAt(c, cells, p, slots, offs, bytes, pages, t, i, s)
  }

  ghost predicate KeptAt(c: Config, cells: seq<Page>, p: nat, slots: seq<nat>, offs: nat, bytes: seq<byte>, pages: nat, t: nat,
                         i: nat, s: nat)
    requires t < |bytes|
  {
    && i < pages && offs + s < |slots| && At(|slots|, offs, |bytes|, i, s, t)
    && Stored(c, cells, p + i, slots[offs + s], bytes[t])
  }

  lemma ByteKept(c: Config, env: Env, cells: seq<Page>, p: nat, data: seq<byte>, mode: Mode, ow: OobWrite, spare: seq<byte>,
                 slots: seq<nat>, pages: nat, t: nat)
    requires FreshPages(c, env, cells, p, data, mode, ow, spare, slots, pages) && t < |ow.bytes| && p + pages <= |cells|
    ensures Kept(c, WritePages(c, env, cells, 0, p, 0, data, mode, ow, spare).cells, p, slots, ow.offs, ow.bytes, pages, t)
  {
    var i, s := SlotOfByte(|slots|, ow.offs, |ow.bytes|, pages, t);
    WrittenByte(c, env, cells, p, data, mode, ow, spare, slots, pages, t, i, s, slots[ow.offs + s], p + i);
    assert KeptAt(c, WritePages(c, env, cells, 0, p, 0, data, mode, ow, spare).cells, p, slots, ow.offs, ow.bytes, pages, t, i, s);
  }

  lemma KeptIsRead(c: Config, cells: seq<Page>, p: nat, mode: Mode, offs: nat, slots: seq<nat>, bytes: seq<byte>, pages: nat,
                   spares: seq<seq<byte>>, t: nat)
    requires ValidCells(c, cells) && p + pages <= |cells| && spares == SparesOf(c, cells, p, pages, mode)
    requires Areas(spares, slots, c.oobSize)
    requires (mode.Raw? || DeliversOob(c)) && Kept(c, cells, p, slots, offs, bytes, pages, t)
    ensures SameAt(Shares(spares, slots, c.oobSize, offs, |bytes|), bytes, t)
  {
    var i: nat, s: nat :| KeptAt(c, cells, p, slots, offs, bytes, pages, t, i, s);
    SharesAt(spares, slots, c.oobSize, offs, |bytes|, i, s, t);
    SparesAt(c, cells, p, pages, mode, i);
    StoredSpare(c, cells[p + i], mode);
  }

  /** A read of bytes that are all in their places */
  lemma AllKeptIsRead(c: Config, cells: seq<Page>, p: nat, mode: Mode, offs: nat, slots: seq<nat>, bytes: seq<byte>, pages: nat,
                      spares: seq<seq<byte>>)
    requires ValidCells(c, cells) && p + pages <= |cells| && spares == SparesOf(c, cells, p, pages, mode)
    requires Areas(spares, slots, c.oobSize) && (mode.Raw? || DeliversOob(c))
    requires forall t: nat :: t < |bytes| ==> Kept(c, cells, p, slots, offs, bytes, pages, t)
    requires |Shares(spares, slots, c.oobSize, offs, |bytes|)| == |bytes|
    ensures Shares(spares, slots, c.oobSize, offs, |bytes|) == bytes
  {
    var oob := Shares(spares, slots, c.oobSize, offs, |bytes|);
    forall t | 0 <= t < |bytes| ensures SameAt(oob, bytes, t) {
      KeptIsRead(c, cells, p, mode, offs, slots, bytes, pages, spares, t);
    }
    AllSame(oob, bytes);
  }

  /** A write of several pages with their OOB bytes, then a read of the same: the client's OOB bytes come back. */
  lemma OobWriteThenRead(c: Config, env: Env, cells: seq<Page>, p: nat, data: seq<byte>, mode: Mode, ow: OobWrite,
                         spare: seq<byte>, slots: seq<nat>, pages: nat, cells': seq<Page>, oq: OobRead)
    requires FreshPages(c, env, cells, p, data, mode, ow, spare, slots, pages)
    requires cells' == WritePages(c, env, cells, 0, p, 0, data, mode, ow, spare).cells && oq == OobRead(ow.offs, |ow.bytes|)
    ensures CanRead(c, cells', p, 0, |data|, mode, oq)
    ensures ReadPages(c, cells', p, 0, |data|, mode, oq).oob == ow.bytes
  {
    ReadAgain(c, env, cells, p, data, mode, ow, spare, slots, pages, cells', oq);
    forall t: nat | t < |ow.bytes| ensures Kept(c, cells', p, slots, ow.offs, ow.bytes, pages, t) {
      ByteKept(c, env, cells, p, data, mode, ow, spare, slots, pages, t);
    }
    OobIs(c, cells', p, 0, |data|, mode, ow.offs, |ow.bytes|, pages, slots);
    AllKeptIsRead(c, cells', p, mode, ow.offs, slots, ow.bytes, pages, SparesOf(c, cells', p, pages, mode));
  }

  ghost predicate SameAt(a: seq<byte>, b: seq<byte>, t: nat) {
    t < |a| && t < |b| && a[t] == b[t]
  }

  lemma AllSame(a: seq<byte>, b: seq<byte>)
    requires |a| == |b| && forall t :: 0 <= t < |b| ==> SameAt(a, b, t)
    ensures a == b
  {
    forall t | 0 <= t < |b| ensures a[t] == b[t] {
      assert SameAt(a, b, t);
    }
  }

  lemma StoredSpare(c: Config, page: Page, mode: Mode)
    requires |page| == c.ws + c.oobSize && (mode.Raw? || DeliversOob(c))
    ensures SpareOf(c, page, mode) == page[c.ws..]
  {
  }

  // ---------------------------------------------------------------- the driver

  /** What nand_do_read_ops delivers of the OOB areas, whatever the cache holds */
  lemma DriverOob(c: Config, cells: seq<Page>, cache: Cache, from: nat, len: nat, mode: Mode, oq: OobRead, cache': Cache, ret: Ret,
                  data: seq<byte>, oob: seq<byte>, failed: int, corrected: int)
    requires ValidCells(c, cells) && ValidCache(c, cells, cache) && ReadFits(c, mode, oq) && oq.OobRead?
    requires InDevice(c, |cells|, from, len) && from < |cells| * c.ws
    requires ReadDone(c, cells, cache, from, len, mode, oq, cache', ret, data, oob, failed, corrected)
    ensures CanRead(c, cells, PageOf(c, from), ColOf(c, from), len, mode, oq)
    ensures oob == ReadPages(c, cells, PageOf(c, from), ColOf(c, from), len, mode, oq).oob
  {
    RequestFits(c, |cells|, from, len);
    OobReadExact(c, cells, cache, PageOf(c, from), ColOf(c, from), len, mode, oq, NOTHING);
  }

  /** nand_do_write_oob to a page with an erased OOB area, then a read of up to the whole page with its OOB bytes */
  method WriteOobThenRead(chip: NandChip, page: nat, mode: Mode, offs: nat, oob: seq<byte>, len: nat, env: Env)
    returns (ret: Ret, back: seq<byte>)
    requires chip.Valid() && ValidEnv(chip.c, env) && DisjointRegions(chip.c.free) && (mode.Raw? || DeliversOob(chip.c))
    requires page < |chip.cells| && len <= chip.c.ws && ErasedSpare(chip.c, chip.cells[page])
    modifies chip, chip.buffers
    ensures ret.Ok? <==> OobAccepted(chip.c, |chip.cells|, page, mode, offs, |oob|) && !env.protected && !ProgFails(env, 0)
    ensures ret.Ok? ==> back == oob
  {
    back := [];
    ghost var before := chip.cells;
    OffsetOfPage(chip.c, page);
    PageInside(page, |chip.cells|, chip.c.ws);
    ret := chip.DoWriteOob(page * chip.c.ws, mode, offs, oob, env, 0);
    OobWriteErrors(chip.c, env, before, 0, page, mode, offs, oob, page);
    if ret.Ok? {
      ghost var cache := chip.CacheOf();
      RequestFits(chip.c, |chip.cells|, page * chip.c.ws, len);
      OobRoundTrip(chip.c, env, before, 0, page, mode, offs, oob, 0, len);
      ghost var failed, corrected := chip.failed, chip.corrected;
      var r, data, got := chip.DoReadOps(page * chip.c.ws, len, mode, OobRead(offs, |oob|));
      DriverOob(chip.c, chip.cells, cache, page * chip.c.ws, len, mode, OobRead(offs, |oob|), chip.CacheOf(), r, data, got,
                chip.failed - failed, chip.corrected - corrected);
      back := got;
    }
  }

  lemma PageInside(page: nat, n: nat, ws: nat)
    requires page < n
    ensures page * ws + ws <= n * ws
  {
    MulMono(page + 1, n, ws);
    assert (page + 1) * ws == page * ws + ws;
  }
}
